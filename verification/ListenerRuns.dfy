/** Runs of a checkpointing listener: chain growth, polls, failures, crashes and restarts. */
module ListenerRuns {
  import opened Wrappers
  import opened Integers
  import opened EventStream

  /**
   The whole system. `memory` is the position of the running process once it has restored one,
   `durable` the stored checkpoint, and `delivered` everything handlers have seen, in order.
   */
  datatype System = System(
    log: seq<Event>, head: nat, memory: Option<Position>, durable: Option<Position>, delivered: seq<Event>)

  datatype Step =
    | Append(events: seq<Event>, newHead: nat)
    | Poll(saved: bool)                         // a whole poll; the checkpoint write may fail
    | PollRefused                               // the node returned an error
    | Interrupted(k: nat, crashed: bool)        // only the first k events of the page were dispatched
    | LostCheckpoint                            // the first poll could not read the checkpoint
    | Restart

  /** The position the next poll reads from: a stored one wins unless the start was moved past it. */
  function Restored(config: Config, durable: Option<Position>): Position {
    match durable
    case None => Position(config.startLedger, None)
    case Some(p) => Position(Max(config.startLedger, p.cursor), if p.cursor >= config.startLedger then p.token else None)
  }

  function Effective(config: Config, s: System): Position {
    if s.memory.Some? then s.memory.value else Restored(config, s.durable)
  }

  function NextPage(config: Config, s: System): seq<Event> {
    Page(s.log, Consumed(s.log, Effective(config, s)), config.pageSize)
  }

  function Next(config: Config, s: System, step: Step): System {
    match step
    case Append(events, newHead) => s.(log := s.log + events, head := newHead)
    case Poll(saved) =>
      var next := Polled(config, s.log, s.head, Effective(config, s));
      s.(memory := Some(next), durable := if saved then Some(next) else s.durable,
         delivered := s.delivered + Filter(config, NextPage(config, s)))
    case PollRefused => s.(memory := Some(Effective(config, s)))
    case Interrupted(k, crashed) =>
      var page := NextPage(config, s);
      s.(memory := if crashed then None else Some(Effective(config, s)),
         delivered := s.delivered + Filter(config, page[..Min(k, |page|)]))
    case LostCheckpoint =>
      if s.memory.Some? then s else s.(memory := Some(Position(config.startLedger, None)))
    case Restart => s.(memory := None)
  }

  /** New events lie beyond the reported head; every other step is always possible. */
  ghost predicate Possible(s: System, step: Step) {
    step.Append? ==>
      && s.head <= step.newHead
      && WellFormed(s.log + step.events, step.newHead)
      && forall i :: 0 <= i < |step.events| ==> step.events[i].ledger > s.head
  }

  ghost function Run(config: Config, s: System, steps: seq<Step>): System {
    if steps == [] then s else Next(config, Run(config, s, steps[..|steps| - 1]), steps[|steps| - 1])
  }

  ghost predicate AllPossible(config: Config, s: System, steps: seq<Step>) {
    steps != [] ==>
      && AllPossible(config, s, steps[..|steps| - 1])
      && Possible(Run(config, s, steps[..|steps| - 1]), steps[|steps| - 1])
  }

  /** A fresh deployment on any chain. */
  ghost predicate Initial(s: System) {
    WellFormed(s.log, s.head) && s.memory.None? && s.durable.None? && s.delivered == []
  }

  // ---------- what every step keeps ----------

  ghost predicate Known(config: Config, s: System, p: Option<Position>) {
    p.Some? ==> Sound(config, s.log, s.head, p.value)
  }

  /** Both positions make sense on the current chain. */
  ghost predicate Consistent(config: Config, s: System) {
    WellFormed(s.log, s.head) && Known(config, s, s.memory) && Known(config, s, s.durable)
  }

  /** The allowed events from the start up to a position. */
  ghost function Due(config: Config, s: System, p: Position): seq<Event> {
    Filter(config, Covered(config, s.log, p))
  }

  /** Everything due at the process's position and at the stored one has reached handlers. */
  ghost predicate NothingLost(config: Config, s: System) {
    && multiset(Due(config, s, Effective(config, s))) <= multiset(s.delivered)
    && multiset(Due(config, s, Restored(config, s.durable))) <= multiset(s.delivered)
  }

  /** The running process stands exactly where a restart would put it. */
  ghost predicate Checkpointed(config: Config, s: System) {
    Effective(config, s) == Restored(config, s.durable)
  }

  lemma EffectiveIsSound(config: Config, s: System)
    requires Consistent(config, s)
    ensures Sound(config, s.log, s.head, Effective(config, s))
    ensures Sound(config, s.log, s.head, Restored(config, s.durable))
    ensures s.durable.Some? ==> Restored(config, s.durable) == s.durable.value
  {
    assert Position(config.startLedger, None).cursor == config.startLedger;
  }

  lemma StartIsDueNothing(config: Config, s: System)
    ensures Due(config, s, Position(config.startLedger, None)) == []
  {
  }

  /** A poll delivers exactly what its new position adds to what is due. */
  lemma PollDeliversDue(config: Config, s: System)
    requires Consistent(config, s) && config.pageSize >= 1
    ensures
      var next := Polled(config, s.log, s.head, Effective(config, s));
      && Sound(config, s.log, s.head, next)
      && Due(config, s, next) == Due(config, s, Effective(config, s)) + Filter(config, NextPage(config, s))
  {
    EffectiveIsSound(config, s);
    var p := Effective(config, s);
    PollConsumesPage(config, s.log, s.head, p);
    FilterConcat(config, Covered(config, s.log, p), NextPage(config, s));
  }

  /** Chain growth leaves positions and what is due at them unchanged. */
  lemma AppendKeepsDue(config: Config, s: System, events: seq<Event>, newHead: nat, p: Position)
    requires WellFormed(s.log, s.head) && Possible(s, Append(events, newHead))
    requires Sound(config, s.log, s.head, p)
    ensures Sound(config, s.log + events, newHead, p)
    ensures Due(config, Next(config, s, Append(events, newHead)), p) == Due(config, s, p)
  {
    AppendKeepsCovered(config, s.log, s.head, events, newHead, p);
  }

  lemma StepKeepsConsistent(config: Config, s: System, step: Step)
    requires Consistent(config, s) && Possible(s, step) && config.pageSize >= 1
    ensures Consistent(config, Next(config, s, step))
  {
    EffectiveIsSound(config, s);
    match step
    case Append(events, newHead) =>
      if s.memory.Some? { AppendKeepsDue(config, s, events, newHead, s.memory.value); }
      if s.durable.Some? { AppendKeepsDue(config, s, events, newHead, s.durable.value); }
    case Poll(saved) => PollDeliversDue(config, s);
    case LostCheckpoint =>
      assert Sound(config, s.log, s.head, Position(config.startLedger, None));
    case _ =>
  }

  lemma StepLosesNothing(config: Config, s: System, step: Step)
    requires Consistent(config, s) && NothingLost(config, s) && Possible(s, step) && config.pageSize >= 1
    ensures NothingLost(config, Next(config, s, step))
  {
    if step.Append? {
      AppendLosesNothing(config, s, step.events, step.newHead);
    } else if step.Poll? {
      PollLosesNothing(config, s, step.saved);
    } else {
      OtherLosesNothing(config, s, step);
    }
    hide Next, NothingLost, Consistent, Possible;
  }

  lemma AppendLosesNothing(config: Config, s: System, events: seq<Event>, newHead: nat)
    requires Consistent(config, s) && NothingLost(config, s) && Possible(s, Append(events, newHead))
    ensures NothingLost(config, Next(config, s, Append(events, newHead)))
  {
    EffectiveIsSound(config, s);
    AppendKeepsDue(config, s, events, newHead, Effective(config, s));
    AppendKeepsDue(config, s, events, newHead, Restored(config, s.durable));
    hide Due, WellFormed, Sound;
  }

  lemma OtherLosesNothing(config: Config, s: System, step: Step)
    requires NothingLost(config, s) && !step.Append? && !step.Poll?
    ensures NothingLost(config, Next(config, s, step))
  {
    StartIsDueNothing(config, s);
    hide Filter, Covered, Page, Consumed;
  }

  lemma PollLosesNothing(config: Config, s: System, saved: bool)
    requires Consistent(config, s) && NothingLost(config, s) && config.pageSize >= 1
    ensures NothingLost(config, Next(config, s, Poll(saved)))
  {
    PollDeliversDue(config, s);
    var next := Polled(config, s.log, s.head, Effective(config, s));
    assert next.cursor >= config.startLedger;
    hide Sound, Filter, Covered, WellFormed, Polled, Page, Consumed;
    var handed := Filter(config, NextPage(config, s));
    assert multiset(Due(config, s, next)) == multiset(Due(config, s, Effective(config, s))) + multiset(handed);
    assert multiset(s.delivered + handed) == multiset(s.delivered) + multiset(handed);
  }

  /** No run ever loses an allowed event, whatever fails in it. */
  lemma {:induction false} NoRunLosesEvents(config: Config, s: System, steps: seq<Step>)
    requires Initial(s) && AllPossible(config, s, steps) && config.pageSize >= 1
    ensures Consistent(config, Run(config, s, steps)) && NothingLost(config, Run(config, s, steps))
  {
    if steps == [] {
      StartIsDueNothing(config, s);
    } else {
      var before := Run(config, s, steps[..|steps| - 1]);
      NoRunLosesEvents(config, s, steps[..|steps| - 1]);
      StepKeepsConsistent(config, before, steps[|steps| - 1]);
      StepLosesNothing(config, before, steps[|steps| - 1]);
    }
  }

  /** Handlers have only ever seen allowed events of the chain. */
  ghost predicate OnlyAllowed(config: Config, s: System) {
    forall i :: 0 <= i < |s.delivered| ==> 
      && s.delivered[i] in s.log
      && (config.allowed == {} || s.delivered[i].contract in config.allowed)
  }

  lemma {:induction false} FilterMembers(config: Config, events: seq<Event>)
    ensures forall i :: 0 <= i < |Filter(config, events)| ==>
              Filter(config, events)[i] in events && config.Allows(Filter(config, events)[i])
  {
    if events != [] {
      FilterMembers(config, events[..|events| - 1]);
    }
  }

  /** Whatever fails in a run, nothing else is ever delivered. */
  lemma {:induction false} NoRunDeliversForeign(config: Config, s: System, steps: seq<Step>)
    requires Initial(s)
    ensures OnlyAllowed(config, Run(config, s, steps))
  {
    if steps != [] {
      var before, last := Run(config, s, steps[..|steps| - 1]), steps[|steps| - 1];
      NoRunDeliversForeign(config, s, steps[..|steps| - 1]);
      var page := NextPage(config, before);
      var dispatched := if last.Interrupted? then page[..Min(last.k, |page|)] else page;
      FilterMembers(config, dispatched);
      hide Effective, Consumed, Polled, Filter;
    }
  }

  // ---------- exactly once, and how much an interruption can repeat ----------

  /** Checkpoints are read and written whenever they should be. */
  predicate StoreWorks(step: Step) {
    !step.LostCheckpoint? && (step.Poll? ==> step.saved)
  }

  ghost predicate StoreWorksIn(steps: seq<Step>) {
    forall i :: 0 <= i < |steps| ==> StoreWorks(steps[i])
  }

  function Interruptions(steps: seq<Step>): nat {
    if steps == [] then 0
    else Interruptions(steps[..|steps| - 1]) + if steps[|steps| - 1].Interrupted? then 1 else 0
  }

  /** Events an interrupted poll hands out without moving the position: they come again. */
  ghost function DispatchedInVain(config: Config, s: System, step: Step): nat {
    if step.Interrupted? then
      var page := NextPage(config, s);
      |Filter(config, page[..Min(step.k, |page|)])|
    else 0
  }

  /** Deliveries of a run that are repeated later. */
  ghost function Repeated(config: Config, s: System, steps: seq<Step>): nat {
    if steps == [] then 0
    else
      Repeated(config, s, steps[..|steps| - 1])
      + DispatchedInVain(config, Run(config, s, steps[..|steps| - 1]), steps[|steps| - 1])
  }

  lemma StepKeepsCheckpointed(config: Config, s: System, step: Step)
    requires Consistent(config, s) && Checkpointed(config, s) && Possible(s, step) && StoreWorks(step)
    requires config.pageSize >= 1
    ensures Checkpointed(config, Next(config, s, step))
  {
    EffectiveIsSound(config, s);
    if step.Poll? {
      PollDeliversDue(config, s);
    }
  }

  lemma DispatchedAtMostPage(config: Config, s: System, step: Step)
    ensures DispatchedInVain(config, s, step) <= if step.Interrupted? then config.pageSize else 0
  {
    if step.Interrupted? {
      var page := NextPage(config, s);
      FilterLength(config, page[..Min(step.k, |page|)]);
    }
  }

  /** One step delivers what becomes due, plus what an interruption hands out in vain: at most a page. */
  lemma StepDelivers(config: Config, s: System, step: Step)
    requires Consistent(config, s) && Checkpointed(config, s) && Possible(s, step) && StoreWorks(step)
    requires config.pageSize >= 1
    ensures
      var s', extra := Next(config, s, step), DispatchedInVain(config, s, step);
      && (extra == 0 && s.delivered == Due(config, s, Effective(config, s)) ==>
            s'.delivered == Due(config, s', Effective(config, s')))
      && |s'.delivered| - |Due(config, s', Effective(config, s'))|
         == |s.delivered| - |Due(config, s, Effective(config, s))| + extra
      && extra <= if step.Interrupted? then config.pageSize else 0
  {
    EffectiveIsSound(config, s);
    DispatchedAtMostPage(config, s, step);
    hide Sound, Covered, Filter, Polled, Consumed, Page, WellFormed;
    match step
    case Append(events, newHead) => AppendKeepsDue(config, s, events, newHead, Effective(config, s));
    case Poll(saved) => PollDeliversDue(config, s);
    case Interrupted(k, crashed) =>
      if DispatchedInVain(config, s, step) == 0 {
        var page := NextPage(config, s);
        assert Filter(config, page[..Min(k, |page|)]) == [];
      }
    case _ =>
  }

  lemma {:induction false} DeliveredUpToRepeats(config: Config, s: System, steps: seq<Step>)
    requires Initial(s) && AllPossible(config, s, steps) && StoreWorksIn(steps) && config.pageSize >= 1
    ensures
      var end := Run(config, s, steps);
      && Consistent(config, end) && Checkpointed(config, end)
      && (Repeated(config, s, steps) == 0 ==> end.delivered == Due(config, end, Effective(config, end)))
      && |end.delivered| == |Due(config, end, Effective(config, end))| + Repeated(config, s, steps)
  {
    if steps == [] {
      StartIsDueNothing(config, s);
    } else {
      hide Next, Consistent, Checkpointed, Due, Effective, Possible, DispatchedInVain;
      var init, last := steps[..|steps| - 1], steps[|steps| - 1];
      DeliveredUpToRepeats(config, s, init);
      var before := Run(config, s, init);
      assert StoreWorks(last);
      StepKeepsConsistent(config, before, last);
      StepKeepsCheckpointed(config, before, last);
      StepDelivers(config, before, last);
    }
  }

  lemma {:induction false} RepeatsArePages(config: Config, s: System, steps: seq<Step>)
    ensures Repeated(config, s, steps) <= Interruptions(steps) * config.pageSize
  {
    if steps != [] {
      hide Run, DispatchedInVain;
      var init, last := steps[..|steps| - 1], steps[|steps| - 1];
      assert Repeated(config, s, steps) == Repeated(config, s, init) + DispatchedInVain(config, Run(config, s, init), last);
      assert Interruptions(steps) == Interruptions(init) + if last.Interrupted? then 1 else 0;
      RepeatsArePages(config, s, init);
      DispatchedAtMostPage(config, Run(config, s, init), last);
      OneMorePage(Interruptions(init), config.pageSize);
    }
  }

  lemma OneMorePage(n: nat, size: nat)
    ensures (n + 1) * size == n * size + size
  {
  }

  /**
   While the store works, the delivered events are exactly the allowed events of the consumed prefix,
   each once and in order, if and only if no interrupted poll had already handed an allowed event out;
   every interruption repeats at most one page.
   */
  lemma DeliveredExactlyOnce(config: Config, s: System, steps: seq<Step>)
    requires Initial(s) && AllPossible(config, s, steps) && StoreWorksIn(steps) && config.pageSize >= 1
    ensures
      var end := Run(config, s, steps);
      && Consistent(config, end) && Checkpointed(config, end)
      && (end.delivered == Due(config, end, Effective(config, end)) <==> Repeated(config, s, steps) == 0)
      && |end.delivered| == |Due(config, end, Effective(config, end))| + Repeated(config, s, steps)
      && Repeated(config, s, steps) <= Interruptions(steps) * config.pageSize
  {
    DeliveredUpToRepeats(config, s, steps);
    RepeatsArePages(config, s, steps);
  }

  lemma OneEventPage(config: Config, e: Event, head: nat)
    requires config == Config(1, 10, {}) && e.ledger == 1
    ensures Page([e], Consumed([e], Position(1, None)), 10) == [e] && Filter(config, [e]) == [e] && [e][..1] == [e]
    ensures WellFormed([e], 1)
  {
    assert [e][..0] == [];
  }

  /** A crash between dispatch and save does deliver an event twice: the promise of once needs the condition. */
  lemma CrashRedelivers(config: Config, s: System, e: Event)
    requires config == Config(1, 10, {}) && e == Event(7, 1, 0) && s == System([e], 1, None, None, [])
    ensures
      var steps := [Interrupted(1, true), Poll(true)];
      && Initial(s) && AllPossible(config, s, steps) && StoreWorksIn(steps)
      && Run(config, s, steps).delivered == [e, e]
  {
    OneEventStart(config, s, e);
    var crashed := Next(config, s, Interrupted(1, true));
    DeliversFromStart(config, s, e, true);
    StillAtStart(config, crashed);
    DeliversFromStart(config, crashed, e, true);
    hide Next, Effective, Restored, Initial, Run, AllPossible;
    assert [] + [e] + [e] == [e, e];
    RunOfTwo(config, s, Interrupted(1, true), Poll(true));
  }

  lemma OneEventStart(config: Config, s: System, e: Event)
    requires config == Config(1, 10, {}) && e.ledger == 1 && s == System([e], 1, None, None, [])
    ensures Initial(s) && Effective(config, s) == Position(1, None)
  {
  }

  /** Without a position of its own and without a checkpoint a process stands at the start. */
  lemma StillAtStart(config: Config, s: System)
    requires s.memory.None? && s.durable.None?
    ensures Effective(config, s) == Position(config.startLedger, None)
  {
  }

  /** A process at the start of a chain of one event reads and delivers that event. */
  lemma DeliversFromStart(config: Config, s: System, e: Event, saved: bool)
    requires config == Config(1, 10, {}) && e.ledger == 1 && s.log == [e]
    requires Effective(config, s) == Position(1, None)
    ensures Next(config, s, Poll(saved)).delivered == s.delivered + [e]
    ensures Next(config, s, Poll(saved)).log == [e]
    ensures Next(config, s, Poll(saved)).durable == s.durable || saved
    ensures Next(config, s, Interrupted(1, true)) == s.(memory := None, delivered := s.delivered + [e])
  {
    OneEventPage(config, e, s.head);
    hide Page, Consumed, Filter, WellFormed, Polled;
  }

  lemma OneMoreStep(config: Config, s: System, init: seq<Step>, last: Step)
    requires AllPossible(config, s, init) && !last.Append?
    ensures Run(config, s, init + [last]) == Next(config, Run(config, s, init), last)
    ensures AllPossible(config, s, init + [last])
  {
    assert (init + [last])[..|init + [last]| - 1] == init;
    hide Next;
  }

  lemma RunOfTwo(config: Config, s: System, first: Step, second: Step)
    requires !first.Append? && !second.Append?
    ensures Run(config, s, [first, second]) == Next(config, Next(config, s, first), second)
    ensures AllPossible(config, s, [first, second])
  {
    hide Next;
    OneMoreStep(config, s, [], first);
    assert [] + [first] == [first];
    OneMoreStep(config, s, [first], second);
    assert [first] + [second] == [first, second];
  }

  /** A process that cannot read its checkpoint does replay the stream from its configured start. */
  lemma LostCheckpointReplays(config: Config, s: System, saved: bool)
    requires s.memory.None?
    ensures
      var lost := Next(config, s, LostCheckpoint);
      && Effective(config, lost) == Position(config.startLedger, None)
      && Next(config, lost, Poll(saved)).delivered
         == s.delivered + Filter(config, Page(s.log, Origin(config, s.log), config.pageSize))
  {
  }
}
