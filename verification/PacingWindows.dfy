/**
 Fixed-length budget windows, as used for withdrawals and for rebalances.

 A window opens with the first charge that finds none open or the old one expired, and charges
 are admitted while its cap holds. The theorem here bounds what any interval of one window
 length can see, wherever it lies relative to the windows.
 */
module PacingWindows {
  import opened Integers

  datatype Window = Window(open: bool, startedAt: nat, used: int, cap: int)

  predicate Expired(w: Window, length: nat, now: nat) {
    !w.open || SaturatingSub(now, w.startedAt) >= length
  }

  /** The window a charge at `now` falls into; `cap` is the budget of a window opening at `now`. */
  function Rolled(w: Window, length: nat, now: nat, cap: int): Window {
    if Expired(w, length, now) then Window(true, now, 0, cap) else w
  }

  function Charged(w: Window, length: nat, now: nat, cap: int, amount: int): Window {
    var r := Rolled(w, length, now, cap);
    r.(used := r.used + amount)
  }

  predicate Admits(w: Window, length: nat, now: nat, cap: int, amount: int) {
    var r := Rolled(w, length, now, cap);
    r.used + amount <= r.cap
  }

  /** One admitted charge, with the opening time and cap of the window it was charged to. */
  datatype Charge = Charge(time: nat, amount: int, openedAt: nat, cap: int)

  function ChargeAt(w: Window, length: nat, now: nat, cap: int, amount: int): Charge {
    var r := Rolled(w, length, now, cap);
    Charge(now, amount, r.startedAt, r.cap)
  }

  /** Total charged to the window opened at `opened`. */
  ghost function WindowSum(log: seq<Charge>, openedAt: nat): int {
    if log == [] then 0
    else WindowSum(log[..|log| - 1], openedAt) + if log[|log| - 1].openedAt == openedAt then log[|log| - 1].amount else 0
  }

  /** Total charged at times in the half-open interval from `from` to `to`. */
  ghost function SumBetween(log: seq<Charge>, from: nat, to: nat): int {
    if log == [] then 0
    else SumBetween(log[..|log| - 1], from, to) + if from <= log[|log| - 1].time < to then log[|log| - 1].amount else 0
  }

  /** A charge lies inside its own window. */
  ghost predicate InsideWindow(c: Charge, length: nat) {
    0 <= c.amount && c.openedAt <= c.time < c.openedAt + length
  }

  /** Two charges belong to one window or to windows that do not overlap. */
  ghost predicate Separate(a: Charge, b: Charge, length: nat) {
    || (a.openedAt == b.openedAt && a.cap == b.cap)
    || a.openedAt + length <= b.openedAt
    || b.openedAt + length <= a.openedAt
  }

  /** Charges lie inside their windows, distinct windows do not overlap, and no window is overdrawn. */
  ghost predicate Paced(log: seq<Charge>, length: nat) {
    && (forall i :: 0 <= i < |log| ==> InsideWindow(log[i], length))
    && (forall i, j :: 0 <= i < |log| && 0 <= j < |log| ==> Separate(log[i], log[j], length))
    && (forall i :: 0 <= i < |log| ==> WindowSum(log, log[i].openedAt) <= log[i].cap)
  }

  /** What the window at the start of a log contributes to the window opened at `openedAt`. */
  function Carried(base: Window, openedAt: nat): int {
    if base.open && base.startedAt == openedAt then base.used else 0
  }

  /**
   The recorded usage is the true sum since the window opened: everything logged for it, and what it
   had already used when the log starts with the window `base`.
   */
  ghost predicate Exact(log: seq<Charge>, w: Window, base: Window, now: nat) {
    && (w.open ==> w.startedAt <= now && w.used == WindowSum(log, w.startedAt) + Carried(base, w.startedAt))
    && (base.open ==> w.open && base.startedAt <= w.startedAt)
    && (!w.open ==> log == [])
    && (forall i :: 0 <= i < |log| ==> log[i].openedAt <= w.startedAt && log[i].time <= now)
  }

  /** Every charge lies inside the window it is labelled with: the one now open, or one that ended before it opened. */
  ghost predicate Labelled(log: seq<Charge>, w: Window, length: nat) {
    forall i :: 0 <= i < |log| ==>
      && InsideWindow(log[i], length)
      && (log[i].openedAt == w.startedAt || log[i].openedAt + length <= w.startedAt)
  }

  /** The window state agrees with the charges logged since the window `base`. */
  ghost predicate Tracks(log: seq<Charge>, w: Window, length: nat, now: nat, base: Window) {
    && Paced(log, length) && Exact(log, w, base, now)
    && (base.open ==> base.used >= 0)
    && (forall i :: 0 <= i < |log| ==>
          (log[i].openedAt == w.startedAt && log[i].cap == w.cap) || log[i].openedAt + length <= w.startedAt)
  }

  lemma WindowSumOfUnopened(log: seq<Charge>, openedAt: nat)
    requires forall i :: 0 <= i < |log| ==> log[i].openedAt != openedAt
    ensures WindowSum(log, openedAt) == 0
  {
  }

  lemma WindowSumAppend(log: seq<Charge>, c: Charge, openedAt: nat)
    ensures WindowSum(log + [c], openedAt) == WindowSum(log, openedAt) + if c.openedAt == openedAt then c.amount else 0
  {
    assert (log + [c])[..|log|] == log;
  }

  lemma PacedAppend(log: seq<Charge>, c: Charge, length: nat)
    requires Paced(log, length) && InsideWindow(c, length)
    requires forall i :: 0 <= i < |log| ==> Separate(log[i], c, length)
    requires WindowSum(log, c.openedAt) + c.amount <= c.cap
    requires 0 < length
    ensures Paced(log + [c], length)
  {
    var log' := log + [c];
    forall i | 0 <= i < |log'| ensures WindowSum(log', log'[i].openedAt) <= log'[i].cap {
      WindowSumAppend(log, c, log'[i].openedAt);
      assert i < |log| ==> Separate(log[i], c, length) && WindowSum(log, log[i].openedAt) <= log[i].cap;
    }
    forall i, j | 0 <= i < |log'| && 0 <= j < |log'| ensures Separate(log'[i], log'[j], length) {
      if i < |log| && j < |log| {
        assert Separate(log[i], log[j], length);
      } else if i < |log| {
        assert Separate(log[i], c, length);
      } else if j < |log| {
        assert Separate(log[j], c, length);
      }
    }
  }

  /** A charge keeps the recorded usage exact, whatever the window length in force when it is made. */
  lemma ChargeStaysExact(log: seq<Charge>, w: Window, base: Window, length: nat, before: nat, now: nat, cap: int,
                         amount: int)
    requires Exact(log, w, base, before) && before <= now && 0 < length
    ensures Exact(log + [ChargeAt(w, length, now, cap, amount)], Charged(w, length, now, cap, amount), base, now)
  {
    var c := ChargeAt(w, length, now, cap, amount);
    if Expired(w, length, now) {
      assert forall i :: 0 <= i < |log| ==> log[i].openedAt < now;
      WindowSumOfUnopened(log, now);
    }
    WindowSumAppend(log, c, c.openedAt);
  }

  /** While the window length does not change, a charge keeps the labels in step with the times. */
  lemma ChargeStaysLabelled(log: seq<Charge>, w: Window, base: Window, length: nat, before: nat, now: nat, cap: int,
                            amount: int)
    requires Labelled(log, w, length) && Exact(log, w, base, before) && before <= now && 0 < length && 0 <= amount
    ensures Labelled(log + [ChargeAt(w, length, now, cap, amount)], Charged(w, length, now, cap, amount), length)
  {
  }

  /** A window's charges are those made since it opened: their labels can be read off the clock. */
  lemma WindowSumIsSinceOpened(log: seq<Charge>, w: Window, base: Window, length: nat, now: nat)
    requires Labelled(log, w, length) && Exact(log, w, base, now) && w.open
    ensures SumBetween(log, w.startedAt, now + 1) == WindowSum(log, w.startedAt)
  {
    LabelsMatchTimes(log, w.startedAt, now + 1);
  }

  lemma {:induction false} LabelsMatchTimes(log: seq<Charge>, from: nat, to: nat)
    requires forall i :: 0 <= i < |log| ==> (log[i].openedAt == from <==> from <= log[i].time < to)
    ensures SumBetween(log, from, to) == WindowSum(log, from)
  {
    if log != [] {
      LabelsMatchTimes(log[..|log| - 1], from, to);
    }
  }

  /** Admitting a charge keeps the log paced and the window's record true. */
  lemma ChargeIsTracked(log: seq<Charge>, w: Window, length: nat, before: nat, now: nat, cap: int, amount: int,
                        base: Window)
    requires Tracks(log, w, length, before, base) && before <= now && 0 < length && 0 <= amount
    requires Admits(w, length, now, cap, amount)
    ensures Tracks(log + [ChargeAt(w, length, now, cap, amount)], Charged(w, length, now, cap, amount), length, now, base)
  {
    var c := ChargeAt(w, length, now, cap, amount);
    if Expired(w, length, now) {
      assert forall i :: 0 <= i < |log| ==> log[i].openedAt + length <= now;
      WindowSumOfUnopened(log, now);
    }
    PacedAppend(log, c, length);
    ChargeStaysExact(log, w, base, length, before, now, cap, amount);
  }

  lemma {:induction false} SumCoveredByTwoWindows(log: seq<Charge>, from: nat, to: nat, o1: nat, o2: nat)
    requires forall i :: 0 <= i < |log| ==> 0 <= log[i].amount
    requires forall i :: 0 <= i < |log| && from <= log[i].time < to ==> log[i].openedAt == o1 || log[i].openedAt == o2
    ensures SumBetween(log, from, to) <= WindowSum(log, o1) + WindowSum(log, o2)
    ensures o1 == o2 ==> SumBetween(log, from, to) <= WindowSum(log, o1)
  {
    if log != [] {
      SumCoveredByTwoWindows(log[..|log| - 1], from, to, o1, o2);
    }
  }

  /** An interval as long as a window meets at most two windows. */
  lemma AtMostTwoWindows(log: seq<Charge>, length: nat, from: nat, i: nat, j: nat, k: nat)
    requires Paced(log, length) && i < |log| && j < |log| && k < |log|
    requires from <= log[i].time < from + length && from <= log[j].time < from + length
    requires from <= log[k].time < from + length
    ensures log[i].openedAt == log[j].openedAt || log[j].openedAt == log[k].openedAt || log[i].openedAt == log[k].openedAt
  {
    assert Separate(log[i], log[j], length) && Separate(log[j], log[k], length) && Separate(log[i], log[k], length);
  }

  /**
   Whatever happened, an interval of one window length saw at most the caps of two windows that
   were charged inside it.
   */
  lemma IntervalBound(log: seq<Charge>, length: nat, from: nat)
    requires Paced(log, length)
    ensures SumBetween(log, from, from + length) <= 0 ||
            exists i, j :: && 0 <= i < |log| && 0 <= j < |log|
                           && from <= log[i].time < from + length && from <= log[j].time < from + length
                           && SumBetween(log, from, from + length)
                              <= if log[i].openedAt == log[j].openedAt then log[i].cap else log[i].cap + log[j].cap
  {
    if i :| 0 <= i < |log| && from <= log[i].time < from + length {
      if j :| 0 <= j < |log| && from <= log[j].time < from + length && log[j].openedAt != log[i].openedAt {
        forall k | 0 <= k < |log| && from <= log[k].time < from + length
          ensures log[k].openedAt == log[i].openedAt || log[k].openedAt == log[j].openedAt
        {
          AtMostTwoWindows(log, length, from, i, j, k);
        }
        SumCoveredByTwoWindows(log, from, from + length, log[i].openedAt, log[j].openedAt);
      } else {
        SumCoveredByTwoWindows(log, from, from + length, log[i].openedAt, log[i].openedAt);
      }
    } else {
      SumOfNothing(log, from, from + length);
    }
  }

  lemma SumOfNothing(log: seq<Charge>, from: nat, to: nat)
    requires forall i :: 0 <= i < |log| ==> !(from <= log[i].time < to)
    ensures SumBetween(log, from, to) == 0
  {
  }
}
