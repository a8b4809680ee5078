/**
 The requested event stream, what a listener position denotes in it, and how one page moves it.

 The stream is what the RPC node returns for the listener's filter. Events carry ids.
 */
module EventStream {
  import opened Wrappers
  import opened Integers

  datatype Event = Event(id: nat, ledger: nat, contract: Address)

  /** Next ledger to read, and the paging token of the last event of a page that came back full. */
  datatype Position = Position(cursor: nat, token: Option<nat>)

  /** Listener settings: where it starts, its page size and its allow-list (empty means all). */
  datatype Config = Config(startLedger: nat, pageSize: nat, allowed: set<Address>)
  {
    predicate Allows(e: Event) {
      allowed == {} || e.contract in allowed
    }
  }

  /** Ordered by ledger, unique ids, and nothing beyond the node's head. */
  ghost predicate WellFormed(log: seq<Event>, head: nat) {
    && (forall i, j :: 0 <= i <= j < |log| ==> log[i].ledger <= log[j].ledger)
    && (forall i, j :: 0 <= i < j < |log| ==> log[i].id != log[j].id)
    && (forall i :: 0 <= i < |log| ==> log[i].ledger <= head)
  }

  /** Index of the first event at or after `ledger`. */
  function FirstAt(log: seq<Event>, ledger: nat): (k: nat)
    ensures k <= |log|
  {
    if log == [] || log[|log| - 1].ledger < ledger then |log| else FirstAt(log[..|log| - 1], ledger)
  }

  lemma {:induction false} FirstAtSplits(log: seq<Event>, head: nat, ledger: nat)
    requires WellFormed(log, head)
    ensures forall i :: 0 <= i < FirstAt(log, ledger) ==> log[i].ledger < ledger
    ensures forall i :: FirstAt(log, ledger) <= i < |log| ==> log[i].ledger >= ledger
  {
    if log != [] && log[|log| - 1].ledger >= ledger {
      FirstAtSplits(log[..|log| - 1], head, ledger);
    }
  }

  /** Number of events up to and including the one with this id; 0 when there is none. */
  function IndexAfter(log: seq<Event>, id: nat): (k: nat)
    ensures k <= |log|
    ensures k > 0 ==> log[k - 1].id == id
    ensures k == 0 ==> forall i :: 0 <= i < |log| ==> log[i].id != id
  {
    if log == [] then 0
    else if log[|log| - 1].id == id then |log|
    else IndexAfter(log[..|log| - 1], id)
  }

  /** How much of the stream a position has consumed. */
  function Consumed(log: seq<Event>, pos: Position): (k: nat)
    ensures k <= |log|
  {
    match pos.token
    case None => FirstAt(log, pos.cursor)
    case Some(id) => IndexAfter(log, id)
  }

  /** The page the node returns: at most `limit` events from the given index. */
  function Page(log: seq<Event>, from: nat, limit: nat): seq<Event>
    requires from <= |log|
  {
    log[from..Min(from + limit, |log|)]
  }

  /** The events handlers get to see. */
  function Filter(config: Config, events: seq<Event>): seq<Event> {
    if events == [] then []
    else
      Filter(config, events[..|events| - 1])
      + if config.Allows(events[|events| - 1]) then [events[|events| - 1]] else []
  }

  lemma {:induction false} FilterConcat(config: Config, a: seq<Event>, b: seq<Event>)
    ensures Filter(config, a + b) == Filter(config, a) + Filter(config, b)
    decreases |b|
  {
    if b == [] {
      assert a + b == a;
    } else {
      assert (a + b)[..|a + b| - 1] == a + b[..|b| - 1];
      FilterConcat(config, a, b[..|b| - 1]);
    }
  }

  lemma FilterLength(config: Config, events: seq<Event>)
    ensures |Filter(config, events)| <= |events|
  {
  }

  /** Highest ledger among the delivered events, -1 when none was delivered. */
  function HighestDelivered(config: Config, events: seq<Event>): int {
    if events == [] then -1
    else
      var rest, last := HighestDelivered(config, events[..|events| - 1]), events[|events| - 1];
      if config.Allows(last) && last.ledger > rest then last.ledger else rest
  }

  lemma HighestWithin(config: Config, events: seq<Event>, head: nat)
    requires forall e :: e in events ==> e.ledger <= head
    ensures -1 <= HighestDelivered(config, events) <= head
  {
  }

  /** The position after a page: the token of a full page, the head after one that was not full. */
  function Advance(config: Config, pos: Position, page: seq<Event>, head: nat): Position {
    var drained := |page| < config.pageSize;
    var highest := HighestDelivered(config, page);
    var through := if drained then Max(highest, head) else highest;
    Position(
      if through < 0 then pos.cursor else Max(pos.cursor, through + 1),
      if drained || page == [] then None else Some(page[|page| - 1].id))
  }

  /** Where a poll from `pos` leads on this stream. */
  function Polled(config: Config, log: seq<Event>, head: nat, pos: Position): Position {
    Advance(config, pos, Page(log, Consumed(log, pos), config.pageSize), head)
  }

  /** Start of the part of the stream the listener is responsible for. */
  function Origin(config: Config, log: seq<Event>): nat {
    FirstAt(log, config.startLedger)
  }

  /** A position the listener can be in: never before its start, never past what the node has reported. */
  ghost predicate Sound(config: Config, log: seq<Event>, head: nat, pos: Position) {
    && pos.cursor >= config.startLedger
    && (pos == Position(config.startLedger, None) || (pos.cursor <= head + 1 && config.startLedger <= head + 1))
    && (pos.token.Some? ==> IndexAfter(log, pos.token.value) > Origin(config, log))
  }

  /** Everything from the start of responsibility up to the position. */
  ghost function Covered(config: Config, log: seq<Event>, pos: Position): seq<Event> {
    if Origin(config, log) <= Consumed(log, pos) then log[Origin(config, log)..Consumed(log, pos)] else []
  }

  lemma {:induction false} FirstAtMonotone(log: seq<Event>, a: nat, b: nat)
    requires a <= b
    ensures FirstAt(log, a) <= FirstAt(log, b)
  {
    if log != [] && log[|log| - 1].ledger >= b {
      FirstAtMonotone(log[..|log| - 1], a, b);
    }
  }

  lemma SoundStartsAtOrigin(config: Config, log: seq<Event>, head: nat, pos: Position)
    requires Sound(config, log, head, pos)
    ensures Origin(config, log) <= Consumed(log, pos)
  {
    FirstAtMonotone(log, config.startLedger, pos.cursor);
  }

  lemma {:induction false} IndexOfUnique(log: seq<Event>, i: nat)
    requires i < |log| && forall a, b :: 0 <= a < b < |log| ==> log[a].id != log[b].id
    ensures IndexAfter(log, log[i].id) == i + 1
  {
    if i < |log| - 1 {
      IndexOfUnique(log[..|log| - 1], i);
    }
  }

  /** A ledger past the head lies past the whole stream. */
  lemma FirstAtBeyondHead(log: seq<Event>, head: nat, ledger: nat)
    requires WellFormed(log, head) && ledger > head
    ensures FirstAt(log, ledger) == |log|
  {
  }

  lemma DrainedPoll(config: Config, log: seq<Event>, head: nat, pos: Position)
    requires WellFormed(log, head) && Sound(config, log, head, pos)
    requires |log| - Consumed(log, pos) < config.pageSize
    ensures Polled(config, log, head, pos) == Position(Max(pos.cursor, head + 1), None)
    ensures Consumed(log, Polled(config, log, head, pos)) == |log|
    ensures Page(log, Consumed(log, pos), config.pageSize) == log[Consumed(log, pos)..]
  {
    HighestWithin(config, Page(log, Consumed(log, pos), config.pageSize), head);
    FirstAtBeyondHead(log, head, Max(pos.cursor, head + 1));
  }

  lemma FullPoll(config: Config, log: seq<Event>, head: nat, pos: Position)
    requires WellFormed(log, head) && Sound(config, log, head, pos)
    requires |log| - Consumed(log, pos) >= config.pageSize >= 1
    ensures
      var end, next := Consumed(log, pos) + config.pageSize, Polled(config, log, head, pos);
      && next.token == Some(log[end - 1].id) && pos.cursor <= next.cursor <= head + 1
      && Consumed(log, next) == end && config.startLedger <= head
  {
    var from := Consumed(log, pos);
    CursorWithinFullPage(config, log, head, pos, from);
    FullPageToken(config, log, head, pos, from);
    IndexOfUnique(log, from + config.pageSize - 1);
  }

  lemma FullPageToken(config: Config, log: seq<Event>, head: nat, pos: Position, from: nat)
    requires WellFormed(log, head) && from == Consumed(log, pos) && |log| - from >= config.pageSize >= 1
    requires pos.cursor <= head + 1
    ensures Polled(config, log, head, pos).token == Some(log[from + config.pageSize - 1].id)
    ensures pos.cursor <= Polled(config, log, head, pos).cursor <= head + 1
  {
    var page := Page(log, from, config.pageSize);
    HighestWithin(config, page, head);
    assert page[|page| - 1] == log[from + config.pageSize - 1];
  }

  lemma CursorWithinFullPage(config: Config, log: seq<Event>, head: nat, pos: Position, from: nat)
    requires WellFormed(log, head) && Sound(config, log, head, pos)
    requires from == Consumed(log, pos) < |log|
    ensures pos.cursor <= head + 1 && config.startLedger <= head
  {
    SoundStartsAtOrigin(config, log, head, pos);
    FirstAtSplits(log, head, config.startLedger);
    assert config.startLedger <= log[from].ledger <= head;
  }

  /**
   One poll consumes exactly its page: nothing is skipped, nothing is read twice, and the cursor
   never moves back. A page that is not full leads to the end of the stream and past the head.
   */
  lemma PollConsumesPage(config: Config, log: seq<Event>, head: nat, pos: Position)
    requires WellFormed(log, head) && Sound(config, log, head, pos) && config.pageSize >= 1
    ensures
      var page, next := Page(log, Consumed(log, pos), config.pageSize), Polled(config, log, head, pos);
      && Sound(config, log, head, next)
      && Consumed(log, next) == Consumed(log, pos) + |page|
      && next.cursor >= pos.cursor
      && Covered(config, log, next) == Covered(config, log, pos) + page
      && (|page| == config.pageSize <==> next.token.Some?)
      && (|page| < config.pageSize ==>
            Consumed(log, next) == |log| && next == Position(Max(pos.cursor, head + 1), None))
  {
    var from := Consumed(log, pos);
    var page := Page(log, from, config.pageSize);
    if |log| - from < config.pageSize {
      DrainedPoll(config, log, head, pos);
    } else {
      FullPoll(config, log, head, pos);
    }
    SoundStartsAtOrigin(config, log, head, pos);
    GrowStretch(log, Origin(config, log), from, config.pageSize);
    hide WellFormed, FirstAt, IndexAfter, Polled;
  }

  lemma GrowStretch(log: seq<Event>, a: nat, from: nat, limit: nat)
    requires a <= from <= |log|
    ensures
      var page := Page(log, from, limit);
      from + |page| <= |log| && log[a..from + |page|] == log[a..from] + page
  {
  }

  lemma {:induction false} FirstAtAppend(log: seq<Event>, more: seq<Event>, ledger: nat)
    requires forall i :: 0 <= i < |more| ==> more[i].ledger >= ledger
    ensures FirstAt(log + more, ledger) == FirstAt(log, ledger)
    decreases |more|
  {
    if more == [] {
      assert log + more == log;
    } else {
      assert (log + more)[..|log + more| - 1] == log + more[..|more| - 1];
      FirstAtAppend(log, more[..|more| - 1], ledger);
    }
  }

  lemma {:induction false} IndexAfterAppend(log: seq<Event>, more: seq<Event>, id: nat)
    requires IndexAfter(log, id) > 0
    requires forall a, b :: 0 <= a < b < |log + more| ==> (log + more)[a].id != (log + more)[b].id
    ensures IndexAfter(log + more, id) == IndexAfter(log, id)
  {
    var i := IndexAfter(log, id) - 1;
    assert (log + more)[i] == log[i];
    IndexOfUnique(log + more, i);
  }

  /** New events beyond the reported head change neither a position's meaning nor what it covers. */
  lemma AppendKeepsCovered(config: Config, log: seq<Event>, head: nat, more: seq<Event>, head': nat, pos: Position)
    requires WellFormed(log, head) && WellFormed(log + more, head') && head <= head'
    requires forall i :: 0 <= i < |more| ==> more[i].ledger > head
    requires Sound(config, log, head, pos)
    ensures Sound(config, log + more, head', pos)
    ensures Covered(config, log + more, pos) == Covered(config, log, pos)
  {
    SoundStartsAtOrigin(config, log, head, pos);
    if pos != Position(config.startLedger, None) {
      AppendKeepsIndices(config, log, head, more, head', pos);
      SameStretch(log, more, Origin(config, log), Consumed(log, pos));
    }
    hide Origin, Consumed, WellFormed;
  }

  lemma AppendKeepsIndices(config: Config, log: seq<Event>, head: nat, more: seq<Event>, head': nat, pos: Position)
    requires WellFormed(log + more, head') && forall i :: 0 <= i < |more| ==> more[i].ledger > head
    requires Sound(config, log, head, pos) && pos != Position(config.startLedger, None)
    ensures Origin(config, log + more) == Origin(config, log) && Consumed(log + more, pos) == Consumed(log, pos)
    ensures pos.token.Some? ==> IndexAfter(log + more, pos.token.value) == IndexAfter(log, pos.token.value)
  {
    FirstAtAppend(log, more, config.startLedger);
    if pos.token.None? {
      FirstAtAppend(log, more, pos.cursor);
    } else {
      IndexAfterAppend(log, more, pos.token.value);
    }
    hide FirstAt, IndexAfter;
  }

  lemma SameStretch(log: seq<Event>, more: seq<Event>, a: nat, b: nat)
    requires a <= b <= |log|
    ensures (log + more)[a..b] == log[a..b]
  {
  }

  /**
   The cursor after a full page: one past the highest ledger of the allowed events on it, unless it
   already stood further on.
   */
  lemma CursorAfterFullPage(config: Config, pos: Position, page: seq<Event>, head: nat)
    requires |page| == config.pageSize >= 1
    ensures
      var next := Advance(config, pos, page, head).cursor;
      && next >= pos.cursor
      && (forall e :: e in page && (config.allowed == {} || e.contract in config.allowed) ==> next >= e.ledger + 1)
      && (next == pos.cursor
          || exists e :: e in page && (config.allowed == {} || e.contract in config.allowed) && next == e.ledger + 1)
  {
    HighestIsReached(config, page);
  }

  lemma {:induction false} HighestIsReached(config: Config, events: seq<Event>)
    ensures forall e :: e in events && (config.allowed == {} || e.contract in config.allowed) ==>
              e.ledger <= HighestDelivered(config, events)
    ensures HighestDelivered(config, events) == -1
            || exists e :: && e in events && (config.allowed == {} || e.contract in config.allowed)
                           && e.ledger == HighestDelivered(config, events)
  {
    if events != [] {
      HighestIsReached(config, events[..|events| - 1]);
      assert events == events[..|events| - 1] + [events[|events| - 1]];
    }
  }

  // ---------- catching up ----------

  function PolledTimes(config: Config, log: seq<Event>, head: nat, pos: Position, n: nat): Position {
    if n == 0 then pos else Polled(config, log, head, PolledTimes(config, log, head, pos, n - 1))
  }

  /** While at least a page is left, every poll consumes exactly one page. */
  lemma {:induction false} FullPagesWhileBehind(config: Config, log: seq<Event>, head: nat, pos: Position, n: nat)
    requires WellFormed(log, head) && Sound(config, log, head, pos) && config.pageSize >= 1
    requires Consumed(log, pos) + n * config.pageSize <= |log|
    ensures Sound(config, log, head, PolledTimes(config, log, head, pos, n))
    ensures Consumed(log, PolledTimes(config, log, head, pos, n)) == Consumed(log, pos) + n * config.pageSize
    ensures n > 0 ==> pos.cursor <= PolledTimes(config, log, head, pos, n).cursor <= head + 1
  {
    if n > 0 {
      assert n * config.pageSize == (n - 1) * config.pageSize + config.pageSize;
      FullPagesWhileBehind(config, log, head, pos, n - 1);
      FullPoll(config, log, head, PolledTimes(config, log, head, pos, n - 1));
      PollConsumesPage(config, log, head, PolledTimes(config, log, head, pos, n - 1));
    }
  }

  /** `full` whole pages are unread, that is `full` is the number of unread events divided by the page size. */
  ghost predicate PagesBehind(config: Config, log: seq<Event>, pos: Position, full: nat) {
    full * config.pageSize <= |log| - Consumed(log, pos) < full * config.pageSize + config.pageSize
  }

  /** The end of the stream: nothing unread, and the cursor past the head. */
  ghost predicate Drained(config: Config, log: seq<Event>, head: nat, pos: Position) {
    && Sound(config, log, head, pos) && pos.token.None? && pos.cursor > head
    && Consumed(log, pos) == |log| && Page(log, Consumed(log, pos), config.pageSize) == []
  }

  /**
   With the head fixed and `full` whole pages unread, `full + 1` polls drain the stream, and every
   further poll gets an empty page and stays there.
   */
  lemma CatchUp(config: Config, log: seq<Event>, head: nat, pos: Position, full: nat, n: nat)
    requires WellFormed(log, head) && Sound(config, log, head, pos) && config.pageSize >= 1
    requires PagesBehind(config, log, pos, full) && n > full
    ensures Drained(config, log, head, PolledTimes(config, log, head, pos, n))
    ensures PolledTimes(config, log, head, pos, n) == Position(Max(pos.cursor, head + 1), None)
  {
    FullPagesWhileBehind(config, log, head, pos, full);
    var last := PolledTimes(config, log, head, pos, full);
    DrainedPoll(config, log, head, last);
    DrainedIsSound(config, log, head, last);
    DrainedOnwards(config, log, head, pos, full + 1, n);
  }

  lemma {:induction false} DrainedOnwards(config: Config, log: seq<Event>, head: nat, pos: Position, first: nat, n: nat)
    requires WellFormed(log, head) && config.pageSize >= 1 && first <= n
    requires Drained(config, log, head, PolledTimes(config, log, head, pos, first))
    ensures PolledTimes(config, log, head, pos, n) == PolledTimes(config, log, head, pos, first)
  {
    if first < n {
      hide Drained, WellFormed, Polled;
      DrainedOnwards(config, log, head, pos, first, n - 1);
      StaysDrained(config, log, head, PolledTimes(config, log, head, pos, n - 1));
    }
  }

  lemma StaysDrained(config: Config, log: seq<Event>, head: nat, pos: Position)
    requires WellFormed(log, head) && Drained(config, log, head, pos) && config.pageSize >= 1
    ensures Polled(config, log, head, pos) == pos
  {
    DrainedPoll(config, log, head, pos);
  }

  lemma DrainedIsSound(config: Config, log: seq<Event>, head: nat, pos: Position)
    requires Sound(config, log, head, pos)
    ensures Sound(config, log, head, Position(Max(pos.cursor, head + 1), None))
  {
  }
}
