/**
 Restarts under a new configuration: where the first poll begins, and when a process can be handed
 events from before its configured start.
 */
module ListenerRestarts {
  import opened Wrappers
  import opened Integers
  import opened EventStream
  import opened ListenerRuns

  /** One life of a process: its configuration and what happens while it runs. */
  datatype Phase = Phase(config: Config, steps: seq<Step>)

  ghost function RunPhases(s: System, phases: seq<Phase>): System {
    if phases == [] then s
    else
      var last := phases[|phases| - 1];
      Run(last.config, RunPhases(s, phases[..|phases| - 1]).(memory := None), last.steps)
  }

  ghost predicate AllPhasesPossible(s: System, phases: seq<Phase>) {
    phases != [] ==>
      var init, last := phases[..|phases| - 1], phases[|phases| - 1];
      && AllPhasesPossible(s, init) && last.config.pageSize >= 1
      && AllPossible(last.config, RunPhases(s, init).(memory := None), last.steps)
  }

  // ---------- positions on the chain, whatever configuration stored them ----------

  /** A paging token names an event of the chain, and the cursor is at most one past that event's ledger. */
  ghost predicate OnChain(log: seq<Event>, p: Position) {
    p.token.Some? ==>
      IndexAfter(log, p.token.value) > 0 && p.cursor <= log[IndexAfter(log, p.token.value) - 1].ledger + 1
  }

  ghost predicate Standing(s: System) {
    && WellFormed(s.log, s.head)
    && (s.memory.Some? ==> OnChain(s.log, s.memory.value))
    && (s.durable.Some? ==> OnChain(s.log, s.durable.value))
  }

  lemma EventsFrom(log: seq<Event>, head: nat, p: Position, i: nat)
    requires WellFormed(log, head) && OnChain(log, p) && Consumed(log, p) <= i < |log|
    ensures p.cursor <= log[i].ledger + 1
    ensures p.token.None? ==> p.cursor <= log[i].ledger
  {
    if p.token.None? {
      FirstAtSplits(log, head, p.cursor);
    }
  }

  lemma PolledIsOnChain(config: Config, log: seq<Event>, head: nat, p: Position)
    requires WellFormed(log, head) && OnChain(log, p) && config.pageSize >= 1
    ensures OnChain(log, Polled(config, log, head, p))
  {
    var from := Consumed(log, p);
    if |log| - from >= config.pageSize {
      var last := from + config.pageSize - 1;
      var page := Page(log, from, config.pageSize);
      assert page[|page| - 1] == log[last];
      EventsFrom(log, head, p, last);
      IndexOfUnique(log, last);
      HighestWithin(config, page, log[last].ledger);
    }
  }

  lemma StepKeepsStanding(config: Config, s: System, step: Step)
    requires Standing(s) && Possible(s, step) && config.pageSize >= 1
    ensures Standing(Next(config, s, step))
  {
    match step
    case Append(events, newHead) =>
      if s.memory.Some? { AppendKeepsOnChain(s.log, events, newHead, s.memory.value); }
      if s.durable.Some? { AppendKeepsOnChain(s.log, events, newHead, s.durable.value); }
    case Poll(saved) =>
      PolledIsOnChain(config, s.log, s.head, Effective(config, s));
    case _ =>
  }

  lemma AppendKeepsOnChain(log: seq<Event>, more: seq<Event>, head: nat, p: Position)
    requires OnChain(log, p) && WellFormed(log + more, head)
    ensures OnChain(log + more, p)
  {
    if p.token.Some? {
      IndexAfterAppend(log, more, p.token.value);
    }
  }

  lemma {:induction false} RunKeepsStanding(config: Config, s: System, steps: seq<Step>)
    requires Standing(s) && AllPossible(config, s, steps) && config.pageSize >= 1
    ensures Standing(Run(config, s, steps))
  {
    if steps != [] {
      RunKeepsStanding(config, s, steps[..|steps| - 1]);
      StepKeepsStanding(config, Run(config, s, steps[..|steps| - 1]), steps[|steps| - 1]);
    }
  }

  /** Every checkpoint that any sequence of lives and configurations leaves behind stands on the chain. */
  lemma {:induction false} PhasesKeepStanding(s: System, phases: seq<Phase>)
    requires Initial(s) && AllPhasesPossible(s, phases)
    ensures Standing(RunPhases(s, phases))
  {
    if phases != [] {
      var last := phases[|phases| - 1];
      PhasesKeepStanding(s, phases[..|phases| - 1]);
      RunKeepsStanding(last.config, RunPhases(s, phases[..|phases| - 1]).(memory := None), last.steps);
    }
  }

  // ---------- where a new process begins ----------

  /**
   The first page of a new process: without a checkpoint, or with one that lies before the configured
   start, from the start; else right after the stored token, or from the stored ledger without one.
   */
  lemma FirstPageExactly(config: Config, s: System)
    requires s.memory.None?
    ensures s.durable.None? ==>
              NextPage(config, s) == Page(s.log, FirstAt(s.log, config.startLedger), config.pageSize)
    ensures s.durable.Some? && s.durable.value.cursor < config.startLedger ==>
              NextPage(config, s) == Page(s.log, FirstAt(s.log, config.startLedger), config.pageSize)
    ensures s.durable.Some? && s.durable.value.cursor >= config.startLedger && s.durable.value.token.None? ==>
              NextPage(config, s) == Page(s.log, FirstAt(s.log, s.durable.value.cursor), config.pageSize)
    ensures s.durable.Some? && s.durable.value.cursor >= config.startLedger && s.durable.value.token.Some? ==>
              NextPage(config, s) == Page(s.log, IndexAfter(s.log, s.durable.value.token.value), config.pageSize)
  {
  }

  /** The checkpoint keeps a token while its cursor is exactly the configured start. */
  ghost predicate TokenAtStart(config: Config, s: System) {
    s.durable.Some? && s.durable.value.token.Some? && s.durable.value.cursor == config.startLedger
  }

  /** ... and the next event after that token still belongs to a ledger before the start. */
  ghost predicate TokenBeforeStart(config: Config, s: System) {
    && TokenAtStart(config, s)
    && var k := IndexAfter(s.log, s.durable.value.token.value);
       k < |s.log| && s.log[k].ledger < config.startLedger
  }

  /**
   A new process reads nothing from before its configured start, except exactly when the start equals
   the checkpoint's cursor and the token's own ledger was not finished.
   */
  lemma StartIsHonouredExactly(config: Config, s: System)
    requires Standing(s) && s.memory.None? && config.pageSize >= 1
    ensures (forall e :: e in NextPage(config, s) ==> e.ledger >= config.startLedger) <==> !TokenBeforeStart(config, s)
  {
    if s.durable.Some? && s.durable.value.cursor >= config.startLedger {
      PageFrom(config, s.log, s.head, s.durable.value);
    } else {
      PageFrom(config, s.log, s.head, Position(config.startLedger, None));
    }
    FirstPageExactly(config, s);
    hide Page, FirstAt, IndexAfter, WellFormed, Effective, NextPage;
  }

  /** A page holds nothing from before the start exactly when it is empty or its first event does not. */
  lemma PageFrom(config: Config, log: seq<Event>, head: nat, p: Position)
    requires WellFormed(log, head) && OnChain(log, p) && p.cursor >= config.startLedger && config.pageSize >= 1
    ensures
      var k := Consumed(log, p);
      && ((forall e :: e in Page(log, k, config.pageSize) ==> e.ledger >= config.startLedger)
          <==> k == |log| || log[k].ledger >= config.startLedger)
      && (k < |log| && log[k].ledger < config.startLedger ==> p.token.Some? && p.cursor == config.startLedger)
  {
    var k := Consumed(log, p);
    var page := Page(log, k, config.pageSize);
    if k < |log| {
      EventsFrom(log, head, p, k);
      assert page[0] == log[k] && page[0] in page;
    }
    forall e | e in page && k < |log| ensures e.ledger >= log[k].ledger {
      var i :| k <= i < |log| && log[i] == e;
    }
  }

  /** Two events in ledger 5, pages of one event, and a new start at ledger 6: the second one still arrives. */
  lemma TokenOutlivesStart(s: System, e: Event, f: Event)
    requires e == Event(7, 5, 0) && f == Event(8, 5, 0) && s == System([e, f], 5, None, None, [])
    ensures
      var phases := [Phase(Config(1, 1, {}), [Poll(true)]), Phase(Config(6, 1, {}), [Poll(true)])];
      && Initial(s) && AllPhasesPossible(s, phases)
      && RunPhases(s, phases).delivered == [e, f] && f.ledger < phases[1].config.startLedger
  {
    var phases := [Phase(Config(1, 1, {}), [Poll(true)]), Phase(Config(6, 1, {}), [Poll(true)])];
    var first, second := phases[0].config, phases[1].config;
    var mid := System([e, f], 5, Some(Position(6, Some(7))), Some(Position(6, Some(7))), [e]);
    FirstPolled(first, e, f);
    OnePoll(first, s);
    SecondPolled(second, e, f);
    OnePoll(second, mid.(memory := None));
    TwoPhases(s, phases[0], phases[1], mid);
    hide Run, AllPossible, Polled, Filter, Page, Consumed;
    assert [] + [e] == [e] && [e] + [f] == [e, f];
  }

  lemma OnePoll(config: Config, s: System)
    ensures AllPossible(config, s, [Poll(true)])
    ensures
      var pos, end := Effective(config, s), Run(config, s, [Poll(true)]);
      && end.delivered == s.delivered + Filter(config, Page(s.log, Consumed(s.log, pos), config.pageSize))
      && end.memory == end.durable == Some(Polled(config, s.log, s.head, pos)) && end.log == s.log && end.head == s.head
  {
    OneMoreStep(config, s, [], Poll(true));
    assert [] + [Poll(true)] == [Poll(true)];
    hide Polled, Filter, Page, Consumed;
  }

  lemma TwoPhases(s: System, a: Phase, b: Phase, mid: System)
    requires s.memory.None? && Run(a.config, s, a.steps) == mid
    requires AllPossible(a.config, s, a.steps) && AllPossible(b.config, mid.(memory := None), b.steps)
    requires a.config.pageSize >= 1 && b.config.pageSize >= 1
    ensures AllPhasesPossible(s, [a, b]) && RunPhases(s, [a, b]) == Run(b.config, mid.(memory := None), b.steps)
  {
    hide Run, AllPossible;
    assert [a, b][..1] == [a] && [a][..0] == [];
    assert s.(memory := None) == s;
    assert RunPhases(s, []) == s && AllPhasesPossible(s, []);
    assert RunPhases(s, [a]) == mid;
    assert AllPhasesPossible(s, [a]);
  }

  lemma TwoEvents(e: Event, f: Event)
    requires e == Event(7, 5, 0) && f == Event(8, 5, 0)
    ensures WellFormed([e, f], 5)
    ensures FirstAt([e, f], 1) == 0 && IndexAfter([e, f], 7) == 1
    ensures Page([e, f], 0, 1) == [e] && Page([e, f], 1, 1) == [f]
  {
    assert [e, f][..1] == [e] && [e][..0] == [];
  }

  lemma OneEventKept(config: Config, e: Event)
    requires config.allowed == {}
    ensures Filter(config, [e]) == [e] && HighestDelivered(config, [e]) == e.ledger
  {
    assert [e][..0] == [];
  }

  lemma FirstPolled(config: Config, e: Event, f: Event)
    requires e == Event(7, 5, 0) && f == Event(8, 5, 0) && config == Config(1, 1, {})
    ensures WellFormed([e, f], 5)
    ensures Polled(config, [e, f], 5, Position(1, None)) == Position(6, Some(7))
    ensures Filter(config, Page([e, f], Consumed([e, f], Position(1, None)), 1)) == [e]
  {
    TwoEvents(e, f);
    OneEventKept(config, e);
    hide FirstAt, IndexAfter, Page, Filter, HighestDelivered, WellFormed;
    assert Consumed([e, f], Position(1, None)) == 0;
  }

  lemma SecondPolled(config: Config, e: Event, f: Event)
    requires e == Event(7, 5, 0) && f == Event(8, 5, 0) && config == Config(6, 1, {})
    ensures Filter(config, Page([e, f], Consumed([e, f], Position(6, Some(7))), 1)) == [f]
  {
    TwoEvents(e, f);
    OneEventKept(config, f);
    hide FirstAt, IndexAfter, Page, Filter, HighestDelivered, WellFormed;
  }

  // ---------- whole lives ----------

  /** Everything from the position on lies at or after the start. */
  ghost predicate AtOrAfterStart(config: Config, log: seq<Event>, p: Position) {
    && p.cursor >= config.startLedger
    && (p.token.Some? ==>
          && IndexAfter(log, p.token.value) > 0
          && log[IndexAfter(log, p.token.value) - 1].ledger >= config.startLedger)
  }

  ghost predicate NeverBefore(config: Config, s: System, delivered: seq<Event>) {
    && WellFormed(s.log, s.head)
    && AtOrAfterStart(config, s.log, Effective(config, s))
    && AtOrAfterStart(config, s.log, Restored(config, s.durable))
    && delivered <= s.delivered
    && forall i :: |delivered| <= i < |s.delivered| ==> s.delivered[i].ledger >= config.startLedger
  }

  lemma PageAtOrAfterStart(config: Config, log: seq<Event>, head: nat, p: Position)
    requires WellFormed(log, head) && AtOrAfterStart(config, log, p) && config.pageSize >= 1
    ensures forall i :: Consumed(log, p) <= i < |log| ==> log[i].ledger >= config.startLedger
    ensures AtOrAfterStart(config, log, Polled(config, log, head, p))
  {
    FirstAtSplits(log, head, p.cursor);
    var from := Consumed(log, p);
    if |log| - from >= config.pageSize {
      var last := from + config.pageSize - 1;
      var page := Page(log, from, config.pageSize);
      assert page[|page| - 1] == log[last];
      IndexOfUnique(log, last);
    }
  }

  lemma AppendKeepsAtOrAfter(config: Config, log: seq<Event>, more: seq<Event>, head: nat, p: Position)
    requires AtOrAfterStart(config, log, p) && WellFormed(log + more, head)
    ensures AtOrAfterStart(config, log + more, p)
  {
    if p.token.Some? {
      IndexAfterAppend(log, more, p.token.value);
    }
  }

  lemma HandedOutAfterStart(config: Config, s: System, n: nat)
    requires WellFormed(s.log, s.head) && AtOrAfterStart(config, s.log, Effective(config, s)) && config.pageSize >= 1
    requires n <= |NextPage(config, s)|
    ensures forall i :: 0 <= i < |Filter(config, NextPage(config, s)[..n])| ==>
              Filter(config, NextPage(config, s)[..n])[i].ledger >= config.startLedger
  {
    PageAtOrAfterStart(config, s.log, s.head, Effective(config, s));
    FilterMembers(config, NextPage(config, s)[..n]);
  }

  lemma StepNeverBefore(config: Config, s: System, step: Step, delivered: seq<Event>)
    requires NeverBefore(config, s, delivered) && Possible(s, step) && config.pageSize >= 1
    ensures NeverBefore(config, Next(config, s, step), delivered)
  {
    var page := NextPage(config, s);
    match step
    case Append(events, newHead) =>
      AppendKeepsAtOrAfter(config, s.log, events, newHead, Effective(config, s));
      AppendKeepsAtOrAfter(config, s.log, events, newHead, Restored(config, s.durable));
    case Poll(saved) =>
      assert page[..|page|] == page;
      HandedOutAfterStart(config, s, |page|);
      PageAtOrAfterStart(config, s.log, s.head, Effective(config, s));
    case Interrupted(k, crashed) =>
      HandedOutAfterStart(config, s, Min(k, |page|));
    case _ =>
  }

  /**
   A process whose start is not the very cursor of a checkpoint with a token is handed nothing from
   before its start, in its whole life and whatever fails in it.
   */
  lemma {:induction false} NothingBeforeStart(config: Config, s: System, steps: seq<Step>)
    requires Standing(s) && s.memory.None? && !TokenAtStart(config, s)
    requires AllPossible(config, s, steps) && config.pageSize >= 1
    ensures NeverBefore(config, Run(config, s, steps), s.delivered)
  {
    if steps != [] {
      hide NeverBefore, Next, Standing, Possible;
      NothingBeforeStart(config, s, steps[..|steps| - 1]);
      StepNeverBefore(config, Run(config, s, steps[..|steps| - 1]), steps[|steps| - 1], s.delivered);
    }
  }
}
