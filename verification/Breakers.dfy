/** The rebalance history and the circuit-breaker rules as statements about it. */
module Breakers {
  import opened Wrappers

  datatype HistoryEntry = HistoryEntry(timestamp: nat, fromPool: Address, toPool: Address, amountMoved: int, success: bool)
  {
    predicate Touches(pools: set<Address>) {
      fromPool in pools || toPool in pools
    }
  }

  /** Retained history entries. */
  const HISTORY_CAPACITY: nat := 1000

  /** Consecutive failures that trip a breaker without a configured threshold. */
  const EMERGENCY_STOP_WINDOW: nat := 3

  ghost function Suffix<T>(s: seq<T>, n: nat): seq<T> {
    if |s| <= n then s else s[|s| - n..]
  }

  /** The entries that touch any of the pools, oldest first. */
  ghost function Touching(history: seq<HistoryEntry>, pools: set<Address>): seq<HistoryEntry> {
    if history == [] then []
    else
      var last := history[|history| - 1];
      Touching(history[..|history| - 1], pools) + if last.Touches(pools) then [last] else []
  }

  /** The pools a strategy's allocations name. */
  ghost function PoolsOf(allocations: seq<Address>): set<Address> {
    set p | p in allocations
  }

  /** At least `threshold` entries touch the pools and the latest `threshold` of those all failed. */
  ghost predicate Trips(history: seq<HistoryEntry>, pools: set<Address>, threshold: nat) {
    var t := Touching(history, pools);
    |t| >= threshold && forall i :: |t| - threshold <= i < |t| ==> !t[i].success
  }

  /** At least three entries, and the latest three all failed. */
  ghost predicate GlobalTrips(history: seq<HistoryEntry>) {
    && |history| >= EMERGENCY_STOP_WINDOW
    && forall i :: |history| - EMERGENCY_STOP_WINDOW <= i < |history| ==> !history[i].success
  }

  lemma {:induction false} TouchingConcat(a: seq<HistoryEntry>, b: seq<HistoryEntry>, pools: set<Address>)
    ensures Touching(a + b, pools) == Touching(a, pools) + Touching(b, pools)
    decreases |b|
  {
    if b == [] {
      assert a + b == a;
    } else {
      var init := b[..|b| - 1];
      assert (a + b)[..|a + b| - 1] == a + init;
      TouchingConcat(a, init, pools);
    }
  }

  lemma {:induction false} TouchingMembers(history: seq<HistoryEntry>, pools: set<Address>)
    ensures forall e :: e in Touching(history, pools) <==> e in history && (e.fromPool in pools || e.toPool in pools)
  {
    if history != [] {
      TouchingMembers(history[..|history| - 1], pools);
      assert history == history[..|history| - 1] + [history[|history| - 1]];
    }
  }

  /** Where the entries stand that move out of or into one of the pools, from `from` on. */
  ghost function Attempts(history: seq<HistoryEntry>, pools: set<Address>, from: nat): set<nat> {
    set i: nat | from <= i < |history| && (history[i].fromPool in pools || history[i].toPool in pools)
  }

  lemma {:induction false} AttemptsAreTouching(history: seq<HistoryEntry>, pools: set<Address>, from: nat)
    requires from <= |history|
    ensures |Attempts(history, pools, from)| == |Touching(history[from..], pools)|
    decreases |history| - from
  {
    if from == |history| {
      assert history[from..] == [] && Attempts(history, pools, from) == {};
    } else {
      AttemptsAreTouching(history, pools, from + 1);
      var entry := history[from];
      assert history[from..] == [entry] + history[from + 1..];
      TouchingConcat([entry], history[from + 1..], pools);
      assert [entry][..0] == [];
      assert Attempts(history, pools, from)
          == Attempts(history, pools, from + 1) + if entry.fromPool in pools || entry.toPool in pools then {from} else {};
    }
  }

  /** Somewhere exactly `threshold` attempts remain, if there are that many. */
  lemma {:induction false} CutAt(history: seq<HistoryEntry>, pools: set<Address>, threshold: nat, from: nat) returns (cut: nat)
    requires from <= |history| && |Touching(history[from..], pools)| >= threshold
    ensures from <= cut <= |history| && |Touching(history[cut..], pools)| == threshold
    decreases |history| - from
  {
    if |Touching(history[from..], pools)| == threshold {
      cut := from;
    } else {
      assert history[from..] != [];
      var entry := history[from];
      assert history[from..] == [entry] + history[from + 1..];
      TouchingConcat([entry], history[from + 1..], pools);
      assert [entry][..0] == [];
      cut := CutAt(history, pools, threshold, from + 1);
    }
  }

  lemma TailIsLatest(history: seq<HistoryEntry>, pools: set<Address>, cut: nat)
    requires cut <= |history|
    ensures
      var all, tail := Touching(history, pools), Touching(history[cut..], pools);
      |tail| <= |all| && all[|all| - |tail|..] == tail
  {
    assert history == history[..cut] + history[cut..];
    TouchingConcat(history[..cut], history[cut..], pools);
  }

  lemma TailFails(history: seq<HistoryEntry>, pools: set<Address>, cut: nat)
    requires cut <= |history|
    ensures (forall e :: e in Touching(history[cut..], pools) ==> !e.success)
            <==> (forall i :: i in Attempts(history, pools, cut) ==> !history[i].success)
  {
    TouchingMembers(history[cut..], pools);
    if forall e :: e in Touching(history[cut..], pools) ==> !e.success {
      forall i | i in Attempts(history, pools, cut) ensures !history[i].success {
        assert history[cut..][i - cut] == history[i];
      }
    }
    if forall i :: i in Attempts(history, pools, cut) ==> !history[i].success {
      forall e | e in Touching(history[cut..], pools) ensures !e.success {
        var j :| 0 <= j < |history| - cut && history[cut..][j] == e;
        assert cut + j in Attempts(history, pools, cut);
      }
    }
  }

  /**
   The breaker rule on the history itself: from some point on there are exactly `threshold` attempts on
   the pools, as source or as target, and all of them failed.
   */
  lemma TripsExactly(history: seq<HistoryEntry>, pools: set<Address>, threshold: nat)
    ensures Trips(history, pools, threshold)
            <==> exists cut :: && 0 <= cut <= |history| && |Attempts(history, pools, cut)| == threshold
                               && forall i :: i in Attempts(history, pools, cut) ==> !history[i].success
  {
    var t := Touching(history, pools);
    if Trips(history, pools, threshold) {
      assert history[0..] == history;
      var cut := CutAt(history, pools, threshold, 0);
      AttemptsAreTouching(history, pools, cut);
      TailIsLatest(history, pools, cut);
      TailFails(history, pools, cut);
      forall e | e in Touching(history[cut..], pools) ensures !e.success {
        var k :| 0 <= k < threshold && Touching(history[cut..], pools)[k] == e;
        assert t[|t| - threshold + k] == e;
      }
    }
    if cut :| && 0 <= cut <= |history| && |Attempts(history, pools, cut)| == threshold
              && forall i :: i in Attempts(history, pools, cut) ==> !history[i].success {
      AttemptsAreTouching(history, pools, cut);
      TailIsLatest(history, pools, cut);
      TailFails(history, pools, cut);
      forall i | |t| - threshold <= i < |t| ensures !t[i].success {
        assert t[i] == Touching(history[cut..], pools)[i - (|t| - threshold)];
      }
    }
  }

  // ---------- scanning backwards ----------

  /** Of the newest `scanned` entries, `count` touch the pools, and all of those failed. */
  ghost predicate Scanned(history: seq<HistoryEntry>, pools: set<Address>, scanned: nat, count: nat) {
    var t := Touching(history, pools);
    && scanned <= |history| && count <= |t|
    && Touching(history[..|history| - scanned], pools) == t[..|t| - count]
    && forall k :: |t| - count <= k < |t| ==> !t[k].success
  }

  lemma NothingScanned(history: seq<HistoryEntry>, pools: set<Address>)
    ensures Scanned(history, pools, 0, 0)
  {
    assert history[..|history|] == history;
  }

  lemma NewestUnscanned(history: seq<HistoryEntry>, pools: set<Address>, scanned: nat, count: nat)
    requires Scanned(history, pools, scanned, count) && scanned < |history|
    ensures
      var entry, t := history[|history| - 1 - scanned], Touching(history, pools);
      Touching(history[..|history| - scanned - 1], pools)
      == if entry.Touches(pools) then t[..|t| - count - 1] else t[..|t| - count]
    ensures
      var entry, t := history[|history| - 1 - scanned], Touching(history, pools);
      entry.Touches(pools) ==> count < |t| && t[|t| - count - 1] == entry
  {
    var rest, t := history[..|history| - scanned], Touching(history, pools);
    assert rest[..|rest| - 1] == history[..|history| - scanned - 1];
    TouchingLast(rest, pools);
    hide Touching, HistoryEntry.Touches;
    var entry := rest[|rest| - 1];
    if entry.Touches(pools) {
      DropLast(Touching(rest[..|rest| - 1], pools), entry, t, |t| - count);
    }
  }

  lemma TouchingLast(history: seq<HistoryEntry>, pools: set<Address>)
    requires history != []
    ensures
      var init, last := history[..|history| - 1], history[|history| - 1];
      Touching(history, pools) == if last.Touches(pools) then Touching(init, pools) + [last] else Touching(init, pools)
  {
    assert Touching(history[..|history| - 1], pools) + [] == Touching(history[..|history| - 1], pools);
  }

  lemma DropLast(init: seq<HistoryEntry>, last: HistoryEntry, t: seq<HistoryEntry>, n: nat)
    requires n <= |t| && init + [last] == t[..n]
    ensures n > 0 && init == t[..n - 1] && t[n - 1] == last
  {
    assert |init + [last]| == n && (init + [last])[n - 1] == last;
    assert (init + [last])[..n - 1] == init && t[..n][..n - 1] == t[..n - 1];
  }

  lemma OneMoreScanned(history: seq<HistoryEntry>, pools: set<Address>, scanned: nat, count: nat)
    requires Scanned(history, pools, scanned, count) && scanned < |history|
    ensures
      var entry := history[|history| - 1 - scanned];
      && (!entry.Touches(pools) ==> Scanned(history, pools, scanned + 1, count))
      && (entry.Touches(pools) && !entry.success ==> Scanned(history, pools, scanned + 1, count + 1))
  {
    NewestUnscanned(history, pools, scanned, count);
    hide Touching, HistoryEntry.Touches;
  }

  lemma SuccessEndsScan(history: seq<HistoryEntry>, pools: set<Address>, scanned: nat, count: nat, threshold: nat)
    requires Scanned(history, pools, scanned, count) && scanned < |history| && count < threshold
    requires history[|history| - 1 - scanned].Touches(pools) && history[|history| - 1 - scanned].success
    ensures !Trips(history, pools, threshold)
  {
    NewestUnscanned(history, pools, scanned, count);
    hide Touching, HistoryEntry.Touches;
  }

  lemma EnoughScanned(history: seq<HistoryEntry>, pools: set<Address>, scanned: nat, threshold: nat)
    requires Scanned(history, pools, scanned, threshold)
    ensures Trips(history, pools, threshold)
  {
    hide Touching;
  }

  lemma AllScanned(history: seq<HistoryEntry>, pools: set<Address>, count: nat, threshold: nat)
    requires Scanned(history, pools, |history|, count) && count < threshold
    ensures !Trips(history, pools, threshold)
  {
    assert history[..0] == [];
  }

  /**
   On the retained entries a breaker trips exactly when it would trip on the full log and enough
   entries touching the pools are still retained.
   */
  lemma RetainedTripsExactly(log: seq<HistoryEntry>, capacity: nat, pools: set<Address>, threshold: nat)
    ensures Trips(Suffix(log, capacity), pools, threshold)
            <==> Trips(log, pools, threshold) && |Touching(Suffix(log, capacity), pools)| >= threshold
  {
    var kept := Suffix(log, capacity);
    var dropped := log[..|log| - |kept|];
    assert log == dropped + kept;
    TouchingConcat(dropped, kept, pools);
    var t, all := Touching(kept, pools), Touching(log, pools);
    var shift := |Touching(dropped, pools)|;
    if |t| >= threshold {
      assert forall i :: 0 <= i < |t| ==> all[shift + i] == t[i];
      if Trips(kept, pools, threshold) {
        forall i | |all| - threshold <= i < |all| ensures !all[i].success {
          assert all[i] == t[i - shift];
        }
      }
    }
  }

  /** The global breaker never depends on dropped entries. */
  lemma GlobalTripIgnoresDropped(log: seq<HistoryEntry>)
    ensures GlobalTrips(Suffix(log, HISTORY_CAPACITY)) <==> GlobalTrips(log)
  {
    var kept := Suffix(log, HISTORY_CAPACITY);
    var shift := |log| - |kept|;
    assert forall i :: 0 <= i < |kept| ==> log[shift + i] == kept[i];
    if |kept| >= EMERGENCY_STOP_WINDOW {
      assert GlobalTrips(kept) ==> forall i :: |log| - EMERGENCY_STOP_WINDOW <= i < |log| ==> log[i] == kept[i - shift];
    }
  }

  /** One success among the latest entries of a pool keeps its breaker closed for `threshold` more failures. */
  lemma SuccessHoldsBreaker(history: seq<HistoryEntry>, failures: seq<HistoryEntry>, ok: HistoryEntry,
                            pools: set<Address>, threshold: nat)
    requires ok.success && ok.Touches(pools) && threshold > 0
    ensures Trips(history + [ok] + failures, pools, threshold)
            <==> Trips(failures, pools, threshold)
  {
    var all := history + [ok] + failures;
    TouchingConcat(history + [ok], failures, pools);
    TouchingConcat(history, [ok], pools);
    assert Touching([ok], pools) == [ok] by { assert [ok][..0] == []; }
    var t, f := Touching(all, pools), Touching(failures, pools);
    var shift := |t| - |f|;
    assert t[shift - 1] == ok;
    assert forall i :: 0 <= i < |f| ==> t[shift + i] == f[i];
    if Trips(failures, pools, threshold) {
      forall i | |t| - threshold <= i < |t| ensures !t[i].success {
        assert t[i] == f[i - shift];
      }
    }
  }

  /** A strategy whose allocations all name one pool trips with that pool's own breaker at equal thresholds. */
  lemma OnePoolStrategyAgrees(history: seq<HistoryEntry>, allocations: seq<Address>, pool: Address, threshold: nat)
    requires allocations != [] && forall a :: a in allocations ==> a == pool
    ensures Trips(history, PoolsOf(allocations), threshold) <==> Trips(history, {pool}, threshold)
  {
    assert allocations[0] in allocations;
    assert PoolsOf(allocations) == {pool};
  }
}
