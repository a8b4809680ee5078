/**
 First deliveries come in the order of the chain, without gaps, whatever fails in a run, and every
 other delivery is counted: the exact condition for delivering each event once.
 */
module DeliveryOrder {
  import opened Wrappers
  import opened Integers
  import opened EventStream
  import opened ListenerRuns

  /** Every event once, where it first occurs. */
  function Firsts(events: seq<Event>): seq<Event> {
    if events == [] then []
    else
      var init, last := events[..|events| - 1], events[|events| - 1];
      Firsts(init) + if last in init then [] else [last]
  }

  ghost predicate NoRepeats(events: seq<Event>) {
    forall i, j :: 0 <= i < j < |events| ==> events[i] != events[j]
  }

  lemma {:induction false} FirstsMembers(events: seq<Event>)
    ensures forall e :: e in Firsts(events) <==> e in events
  {
    if events != [] {
      var init, last := events[..|events| - 1], events[|events| - 1];
      FirstsMembers(init);
      assert events == init + [last];
    }
  }

  /** Events that have all occurred before add nothing. */
  lemma {:induction false} FirstsOfKnown(events: seq<Event>, more: seq<Event>)
    requires forall e :: e in more ==> e in events
    ensures Firsts(events + more) == Firsts(events)
    decreases |more|
  {
    if more == [] {
      assert events + more == events;
    } else {
      var init, last := more[..|more| - 1], more[|more| - 1];
      assert (events + more)[..|events + more| - 1] == events + init;
      assert last in more;
      FirstsOfKnown(events, init);
    }
  }

  /** Events that are all new, and different from each other, are appended as they are. */
  lemma {:induction false} FirstsOfNew(events: seq<Event>, more: seq<Event>)
    requires NoRepeats(more) && forall e :: e in more ==> e !in events
    ensures Firsts(events + more) == Firsts(events) + more
    decreases |more|
  {
    if more == [] {
      assert events + more == events;
    } else {
      var init, last := more[..|more| - 1], more[|more| - 1];
      assert (events + more)[..|events + more| - 1] == events + init;
      assert last in more && last !in init;
      FirstsOfNew(events, init);
      assert more == init + [last];
    }
  }

  /** Nothing repeats exactly when no delivery is left out as a repetition. */
  lemma {:induction false} FirstsCount(events: seq<Event>)
    ensures |Firsts(events)| <= |events|
    ensures |Firsts(events)| == |events| <==> NoRepeats(events)
    ensures NoRepeats(events) <==> Firsts(events) == events
  {
    if events != [] {
      var init, last := events[..|events| - 1], events[|events| - 1];
      FirstsCount(init);
      OneMoreNoRepeats(events);
    }
  }

  lemma OneMoreNoRepeats(events: seq<Event>)
    requires events != []
    ensures NoRepeats(events)
            <==> NoRepeats(events[..|events| - 1]) && events[|events| - 1] !in events[..|events| - 1]
  {
    assert events == events[..|events| - 1] + [events[|events| - 1]];
  }

  lemma {:induction false} AllowedAreKept(config: Config, events: seq<Event>)
    ensures forall e :: e in Filter(config, events)
                        <==> e in events && (config.allowed == {} || e.contract in config.allowed)
    ensures NoRepeats(events) ==> NoRepeats(Filter(config, events))
  {
    if events != [] {
      var init, last := events[..|events| - 1], events[|events| - 1];
      AllowedAreKept(config, init);
      assert events == init + [last];
      assert NoRepeats(events) ==> last !in init;
    }
  }

  lemma SplitStretch(log: seq<Event>, a: nat, b: nat, c: nat)
    requires a <= b <= c <= |log|
    ensures log[a..c] == log[a..b] + log[b..c]
  {
  }

  lemma WithinStretch(log: seq<Event>, a: nat, b: nat, c: nat, d: nat)
    requires a <= b <= c <= d <= |log|
    ensures forall e :: e in log[b..c] ==> e in log[a..d]
  {
    forall e | e in log[b..c] ensures e in log[a..d] {
      var i :| b <= i < c && log[i] == e;
      assert log[a..d][i - a] == e;
    }
  }

  /**
   Dispatching a stretch that starts within what was delivered extends the first deliveries in order;
   what it repeats are the allowed events it shares with what had been reached.
   */
  lemma DispatchInOrder(config: Config, log: seq<Event>, head: nat, origin: nat, reached: nat, from: nat, to: nat,
                        delivered: seq<Event>)
    requires WellFormed(log, head) && origin <= from <= reached <= |log| && from <= to <= |log|
    requires Firsts(delivered) == Filter(config, log[origin..reached])
    ensures Firsts(delivered + Filter(config, log[from..to])) == Filter(config, log[origin..Max(reached, to)])
    ensures |Filter(config, log[from..to])| + |Firsts(delivered)|
            == |Firsts(delivered + Filter(config, log[from..to]))| + |Filter(config, log[from..Min(to, reached)])|
  {
    hide Filter, Firsts;
    if to <= reached {
      KnownStretch(config, log, origin, reached, from, to, delivered);
    } else {
      var known, newer := Filter(config, log[from..reached]), Filter(config, log[reached..to]);
      KnownStretch(config, log, origin, reached, from, reached, delivered);
      NewStretch(config, log, head, origin, reached, to, delivered + known);
      JoinStretch(config, log, from, reached, to);
      JoinStretch(config, log, origin, reached, to);
      hide WellFormed;
      assert delivered + (known + newer) == delivered + known + newer;
    }
  }

  lemma JoinStretch(config: Config, log: seq<Event>, a: nat, b: nat, c: nat)
    requires a <= b <= c <= |log|
    ensures Filter(config, log[a..c]) == Filter(config, log[a..b]) + Filter(config, log[b..c])
  {
    SplitStretch(log, a, b, c);
    FilterConcat(config, log[a..b], log[b..c]);
  }

  lemma KnownStretch(config: Config, log: seq<Event>, origin: nat, reached: nat, from: nat, to: nat,
                     delivered: seq<Event>)
    requires origin <= from <= to <= reached <= |log|
    requires Firsts(delivered) == Filter(config, log[origin..reached])
    ensures Firsts(delivered + Filter(config, log[from..to])) == Firsts(delivered)
  {
    hide Filter, Firsts;
    FirstsMembers(delivered);
    AllowedAreKept(config, log[origin..reached]);
    AllowedAreKept(config, log[from..to]);
    WithinStretch(log, origin, from, to, reached);
    FirstsOfKnown(delivered, Filter(config, log[from..to]));
  }

  lemma NewStretch(config: Config, log: seq<Event>, head: nat, origin: nat, reached: nat, to: nat, delivered: seq<Event>)
    requires WellFormed(log, head) && origin <= reached <= to <= |log|
    requires Firsts(delivered) == Filter(config, log[origin..reached])
    ensures Firsts(delivered + Filter(config, log[reached..to]))
            == Firsts(delivered) + Filter(config, log[reached..to])
  {
    hide Filter;
    FirstsMembers(delivered);
    AllowedAreKept(config, log[origin..reached]);
    AllowedAreKept(config, log[reached..to]);
    forall e | e in log[reached..to] ensures e !in log[origin..reached] {
      var j :| reached <= j < to && log[j] == e;
      assert forall i :: origin <= i < reached ==> log[i].id != log[j].id;
    }
    FirstsOfNew(delivered, Filter(config, log[reached..to]));
  }

  /**
   The first deliveries are the allowed events of one stretch of the chain, from the start of
   responsibility up to `reached`, in order; no position lies beyond it.
   */
  ghost predicate InOrder(config: Config, s: System, reached: nat) {
    && Origin(config, s.log) <= reached <= |s.log|
    && Firsts(s.delivered) == Filter(config, s.log[Origin(config, s.log)..reached])
    && Consumed(s.log, Effective(config, s)) <= reached
    && Consumed(s.log, Restored(config, s.durable)) <= reached
  }

  /** Chain growth moves neither a sound position nor the start, unless the start is still ahead of the chain. */
  lemma AppendKeepsConsumed(config: Config, s: System, events: seq<Event>, newHead: nat, p: Position)
    requires WellFormed(s.log, s.head) && Possible(s, Append(events, newHead)) && Sound(config, s.log, s.head, p)
    ensures config.startLedger <= s.head + 1 ==>
              && Origin(config, s.log + events) == Origin(config, s.log)
              && Consumed(s.log + events, p) == Consumed(s.log, p)
    ensures config.startLedger > s.head + 1 ==>
              && Origin(config, s.log) == |s.log|
              && Consumed(s.log + events, p) == Origin(config, s.log + events)
  {
    if config.startLedger <= s.head + 1 {
      FirstAtAppend(s.log, events, config.startLedger);
      if p.token.Some? {
        IndexAfterAppend(s.log, events, p.token.value);
      } else if p != Position(config.startLedger, None) {
        FirstAtAppend(s.log, events, p.cursor);
      }
    } else {
      FirstAtBeyondHead(s.log, s.head, config.startLedger);
    }
  }

  // ---------- one step ----------

  /** How many events of its page a step hands out. */
  function Dispatched(config: Config, s: System, step: Step): nat {
    if step.Poll? then |NextPage(config, s)|
    else if step.Interrupted? then Min(step.k, |NextPage(config, s)|)
    else 0
  }

  /** How far deliveries have reached after a step. */
  ghost function ReachedBy(config: Config, s: System, step: Step, reached: nat): nat {
    if step.Append? then if config.startLedger <= s.head + 1 then reached else Origin(config, s.log + step.events)
    else if step.Poll? || step.Interrupted? then
      Max(reached, Consumed(s.log, Effective(config, s)) + Dispatched(config, s, step))
    else reached
  }

  /** Allowed events a step hands out although they were reached before. */
  ghost function RepeatedBy(config: Config, s: System, step: Step, reached: nat): nat {
    var from := Consumed(s.log, Effective(config, s));
    var to := Min(from + Dispatched(config, s, step), reached);
    if (step.Poll? || step.Interrupted?) && from <= to <= |s.log| then |Filter(config, s.log[from..to])| else 0
  }

  /** Deliveries beyond the first ones. */
  ghost function Surplus(s: System): int {
    |s.delivered| - |Firsts(s.delivered)|
  }

  lemma AppendKeepsOrder(config: Config, s: System, events: seq<Event>, newHead: nat, reached: nat)
    requires Consistent(config, s) && InOrder(config, s, reached) && Possible(s, Append(events, newHead))
    ensures InOrder(config, Next(config, s, Append(events, newHead)),
                    ReachedBy(config, s, Append(events, newHead), reached))
  {
    EffectiveIsSound(config, s);
    AppendKeepsConsumed(config, s, events, newHead, Effective(config, s));
    AppendKeepsConsumed(config, s, events, newHead, Restored(config, s.durable));
    hide Sound, Filter, Firsts, Consumed, WellFormed;
    var origin := Origin(config, s.log);
    if config.startLedger <= s.head + 1 {
      assert (s.log + events)[origin..reached] == s.log[origin..reached];
    } else {
      var reached' := Origin(config, s.log + events);
      assert s.log[origin..reached] == [] && (s.log + events)[reached'..reached'] == [];
    }
  }

  lemma PagePrefix(log: seq<Event>, from: nat, limit: nat, n: nat)
    requires from <= |log| && n <= |Page(log, from, limit)|
    ensures from + n <= |log| && Page(log, from, limit)[..n] == log[from..from + n]
  {
  }

  lemma DispatchKeepsOrder(config: Config, s: System, reached: nat, n: nat)
    requires Consistent(config, s) && InOrder(config, s, reached) && n <= |NextPage(config, s)|
    ensures
      var from, origin := Consumed(s.log, Effective(config, s)), Origin(config, s.log);
      && from + n <= |s.log|
      && Firsts(s.delivered + Filter(config, NextPage(config, s)[..n]))
         == Filter(config, s.log[origin..Max(reached, from + n)])
      && from <= Min(from + n, reached)
      && |Filter(config, NextPage(config, s)[..n])| + |Firsts(s.delivered)|
         == |Firsts(s.delivered + Filter(config, NextPage(config, s)[..n]))|
            + |Filter(config, s.log[from..Min(from + n, reached)])|
  {
    hide Filter, Firsts, Sound, Consumed, WellFormed, Page, Origin;
    EffectiveIsSound(config, s);
    SoundStartsAtOrigin(config, s.log, s.head, Effective(config, s));
    hide Effective, Restored, Known;
    DispatchPageInOrder(config, s.log, s.head, Origin(config, s.log), reached, Consumed(s.log, Effective(config, s)), n,
                        s.delivered);
  }

  lemma DispatchPageInOrder(config: Config, log: seq<Event>, head: nat, origin: nat, reached: nat, from: nat, n: nat,
                            delivered: seq<Event>)
    requires WellFormed(log, head) && origin <= from <= reached <= |log| && n <= |Page(log, from, config.pageSize)|
    requires Firsts(delivered) == Filter(config, log[origin..reached])
    ensures from + n <= |log|
    ensures Firsts(delivered + Filter(config, Page(log, from, config.pageSize)[..n]))
            == Filter(config, log[origin..Max(reached, from + n)])
    ensures |Filter(config, Page(log, from, config.pageSize)[..n])| + |Firsts(delivered)|
            == |Firsts(delivered + Filter(config, Page(log, from, config.pageSize)[..n]))|
               + |Filter(config, log[from..Min(from + n, reached)])|
  {
    hide Filter, Firsts, WellFormed, Page;
    PagePrefix(log, from, config.pageSize, n);
    DispatchInOrder(config, log, head, origin, reached, from, from + n, delivered);
  }

  /** A step keeps the first deliveries in order, and adds to the surplus exactly what it repeats. */
  lemma StepKeepsOrder(config: Config, s: System, step: Step, reached: nat)
    requires Consistent(config, s) && InOrder(config, s, reached) && Possible(s, step) && config.pageSize >= 1
    ensures InOrder(config, Next(config, s, step), ReachedBy(config, s, step, reached))
    ensures Surplus(Next(config, s, step)) == Surplus(s) + RepeatedBy(config, s, step, reached)
  {
    match step
    case Append(events, newHead) =>
      hide Sound, Filter, Firsts, Page, WellFormed, Polled, InOrder;
      AppendKeepsOrder(config, s, events, newHead, reached);
    case Poll(saved) =>
      hide Sound, Filter, Firsts, Page, WellFormed, Polled, InOrder, Next, ReachedBy, RepeatedBy;
      PollKeepsOrder(config, s, saved, reached);
    case Interrupted(k, crashed) =>
      hide Sound, Filter, Firsts, Page, WellFormed, Polled, InOrder, Next, ReachedBy, RepeatedBy;
      InterruptionKeepsOrder(config, s, k, crashed, reached);
    case _ =>
      hide Sound, Filter, Firsts, Page, WellFormed, Polled;
      EffectiveIsSound(config, s);
  }

  /** Where a poll's new position stands. */
  lemma PolledPosition(config: Config, s: System)
    requires Consistent(config, s) && config.pageSize >= 1
    ensures
      var next := Polled(config, s.log, s.head, Effective(config, s));
      && Sound(config, s.log, s.head, next)
      && Consumed(s.log, next) == Consumed(s.log, Effective(config, s)) + |NextPage(config, s)|
  {
    EffectiveIsSound(config, s);
    hide Sound, WellFormed, Polled, Covered, Consumed, Effective;
    PollConsumesPage(config, s.log, s.head, Effective(config, s));
  }

  lemma PollKeepsOrder(config: Config, s: System, saved: bool, reached: nat)
    requires Consistent(config, s) && InOrder(config, s, reached) && config.pageSize >= 1
    ensures InOrder(config, Next(config, s, Poll(saved)), ReachedBy(config, s, Poll(saved), reached))
    ensures Surplus(Next(config, s, Poll(saved))) == Surplus(s) + RepeatedBy(config, s, Poll(saved), reached)
  {
    hide Sound, Filter, Firsts, Polled, Covered, Consumed, Consistent, Effective, Restored, NextPage, Next;
    var page := NextPage(config, s);
    DispatchKeepsOrder(config, s, reached, |page|);
    PolledPosition(config, s);
    PolledInOrder(config, s, saved, ReachedBy(config, s, Poll(saved), reached));
  }

  lemma InterruptionKeepsOrder(config: Config, s: System, k: nat, crashed: bool, reached: nat)
    requires Consistent(config, s) && InOrder(config, s, reached)
    ensures
      InOrder(config, Next(config, s, Interrupted(k, crashed)), ReachedBy(config, s, Interrupted(k, crashed), reached))
    ensures Surplus(Next(config, s, Interrupted(k, crashed)))
            == Surplus(s) + RepeatedBy(config, s, Interrupted(k, crashed), reached)
  {
    hide Sound, Filter, Firsts, Consumed, WellFormed, Page, Consistent, Restored, NextPage;
    DispatchKeepsOrder(config, s, reached, Min(k, |NextPage(config, s)|));
  }

  lemma PolledInOrder(config: Config, s: System, saved: bool, reached: nat)
    requires Sound(config, s.log, s.head, Polled(config, s.log, s.head, Effective(config, s)))
    requires Consumed(s.log, Polled(config, s.log, s.head, Effective(config, s))) <= reached <= |s.log|
    requires Consumed(s.log, Restored(config, s.durable)) <= reached && Origin(config, s.log) <= reached
    requires Firsts(s.delivered + Filter(config, NextPage(config, s)[..|NextPage(config, s)|]))
             == Filter(config, s.log[Origin(config, s.log)..reached])
    ensures InOrder(config, Next(config, s, Poll(saved)), reached)
    ensures Next(config, s, Poll(saved)).delivered
            == s.delivered + Filter(config, NextPage(config, s)[..|NextPage(config, s)|])
  {
    hide Filter, Firsts, Consumed, WellFormed, Page, Polled;
    var page := NextPage(config, s);
    assert page[..|page|] == page;
  }

  // ---------- whole runs ----------

  /** How far deliveries reach over a run. */
  ghost function Reached(config: Config, s: System, steps: seq<Step>): nat {
    if steps == [] then Origin(config, s.log)
    else
      var init := steps[..|steps| - 1];
      ReachedBy(config, Run(config, s, init), steps[|steps| - 1], Reached(config, s, init))
  }

  /** Allowed events handed out again over a run. */
  ghost function Redelivered(config: Config, s: System, steps: seq<Step>): nat {
    if steps == [] then 0
    else
      var init := steps[..|steps| - 1];
      Redelivered(config, s, init)
      + RepeatedBy(config, Run(config, s, init), steps[|steps| - 1], Reached(config, s, init))
  }

  /**
   In every run, with any crashes, failed saves and lost checkpoints: the first deliveries are exactly
   the allowed events of a prefix of the stream from the configured start, each once and in order, and
   that prefix reaches at least as far as the running process and the stored checkpoint. The surplus
   is exactly what was handed out again.
   */
  lemma {:induction false} FirstDeliveriesInOrder(config: Config, s: System, steps: seq<Step>)
    requires Initial(s) && AllPossible(config, s, steps) && config.pageSize >= 1
    ensures InOrder(config, Run(config, s, steps), Reached(config, s, steps))
    ensures Surplus(Run(config, s, steps)) == Redelivered(config, s, steps)
  {
    if steps == [] {
      var origin := Origin(config, s.log);
      assert s.log[origin..origin] == [];
    } else {
      hide InOrder, Next, Consistent, Possible, Surplus, ReachedBy, RepeatedBy;
      var init := steps[..|steps| - 1];
      FirstDeliveriesInOrder(config, s, init);
      NoRunLosesEvents(config, s, init);
      StepKeepsOrder(config, Run(config, s, init), steps[|steps| - 1], Reached(config, s, init));
    }
  }

  /**
   The exact condition for the promise of once, over every run: no event is delivered twice, and the
   deliveries are the allowed events of the prefix reached, if and only if no dispatch went over
   allowed events that had been reached before. The number of repetitions is the number of those.
   */
  lemma EachOnceExactly(config: Config, s: System, steps: seq<Step>)
    requires Initial(s) && AllPossible(config, s, steps) && config.pageSize >= 1
    ensures
      var end, reached := Run(config, s, steps), Reached(config, s, steps);
      && Origin(config, end.log) <= reached <= |end.log|
      && var prefix := Filter(config, end.log[Origin(config, end.log)..reached]);
         && |end.delivered| == |prefix| + Redelivered(config, s, steps)
         && (end.delivered == prefix <==> Redelivered(config, s, steps) == 0)
         && (NoRepeats(end.delivered) <==> Redelivered(config, s, steps) == 0)
  {
    FirstDeliveriesInOrder(config, s, steps);
    FirstsCount(Run(config, s, steps).delivered);
    hide Run, Filter, Firsts, Redelivered, Reached, Consumed, Effective, Restored;
  }

  /** A failed save and a restart deliver an event twice as well: no interruption is needed. */
  lemma FailedSaveRedelivers(config: Config, s: System, e: Event)
    requires config == Config(1, 10, {}) && e == Event(7, 1, 0) && s == System([e], 1, None, None, [])
    ensures
      var steps := [Poll(false), Restart, Poll(true)];
      && Initial(s) && AllPossible(config, s, steps)
      && Run(config, s, steps).delivered == [e, e]
  {
    OneEventStart(config, s, e);
    var unsaved := Next(config, s, Poll(false));
    DeliversFromStart(config, s, e, false);
    var restarted := Next(config, unsaved, Restart);
    StillAtStart(config, restarted);
    DeliversFromStart(config, restarted, e, true);
    hide Next, Effective, Restored, Initial, Run, AllPossible;
    assert [] + [e] + [e] == [e, e];
    RunOfThree(config, s, Poll(false), Restart, Poll(true));
  }

  lemma RunOfThree(config: Config, s: System, a: Step, b: Step, c: Step)
    requires !a.Append? && !b.Append? && !c.Append?
    ensures Run(config, s, [a, b, c]) == Next(config, Next(config, Next(config, s, a), b), c)
    ensures AllPossible(config, s, [a, b, c])
  {
    hide Next, Run, AllPossible;
    RunOfTwo(config, s, a, b);
    OneMoreStep(config, s, [a, b], c);
    assert [a, b] + [c] == [a, b, c];
  }
}
