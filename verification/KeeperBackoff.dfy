/** The backoff object around a keeper's task: it replaces its state and the stored copy together. */
module KeeperBackoff {
  import opened Wrappers
  import opened BackoffRuns

  /** A number read back from a store; NaN, infinities and anything that is not a number are not finite. */
  datatype StoredNumber = Finite(value: real) | NotFinite

  /** A state as a store may hold it, whatever has happened to it there. */
  datatype StoredState = StoredState(
    consecutiveFailures: StoredNumber, nextAttemptAt: StoredNumber, lastError: Option<string>, updatedAt: StoredNumber)

  function ValueOr0(n: StoredNumber): real {
    if n.Finite? then n.value else 0.0
  }

  /** What a stored state counts as: corrupt numbers as zero, failures as a whole number of at least zero. */
  function Repaired(s: StoredState): BackoffState {
    var failures := ValueOr0(s.consecutiveFailures).Floor;
    BackoffState(if failures < 0 then 0 else failures, ValueOr0(s.nextAttemptAt), s.lastError, ValueOr0(s.updatedAt))
  }

  function Written(s: BackoffState): StoredState {
    StoredState(Finite(s.consecutiveFailures as real), Finite(s.nextAttemptAt), s.lastError, Finite(s.updatedAt))
  }

  /** What a keeper writes is read back as it was. */
  lemma WrittenIsKept(s: BackoffState)
    ensures Repaired(Written(s)) == s
  {
  }

  class BackoffStore {
    var state: Option<StoredState>

    constructor ()
      ensures state == None
    {
      state := None;
    }

    function Saved(): Option<BackoffState>
      reads this
    {
      if state.None? then None else Some(Repaired(state.value))
    }
  }

  method ValidatePolicy(p: BackoffPolicy) returns (ok: bool)
    ensures ok <==> p.Accepted()
    ensures ok <==> && p.baseMs > 0.0 && p.maxMs >= p.baseMs && p.factor >= 1.0 && p.startAfterFailures >= 1
                    && 0.0 <= p.jitterRatio <= 1.0
  {
    if !(p.baseMs > 0.0) || !(p.maxMs >= p.baseMs) || !(p.factor >= 1.0) {
      return false;
    }
    if p.startAfterFailures < 1 {
      return false;
    }
    return !(p.jitterRatio < 0.0 || p.jitterRatio > 1.0);
  }

  class KeeperBackoff {
    const policy: BackoffPolicy
    const store: BackoffStore
    var state: BackoffState
    var loaded: bool

    /** A new process: nothing restored yet, whatever the store holds. */
    constructor (policy: BackoffPolicy, store: BackoffStore)
      requires policy.Accepted()
      ensures this.policy == policy && this.store == store
      ensures View() == Restart(Keeper(EMPTY, false, store.Saved()))
    {
      this.policy, this.store := policy, store;
      state, loaded := EMPTY, false;
    }

    function View(): Keeper
      reads this, store
    {
      Keeper(state, loaded, store.Saved())
    }

    /**
     Restores once; a store that cannot be read counts as empty, corrupt numbers are repaired, and no
     stored wait reaches further than one maximum from now.
     */
    method Init(now: real, loadSucceeds: bool)
      modifies this
      ensures loaded
      ensures loadSucceeds || old(loaded) ==> View() == BackoffRuns.Init(policy, old(View()), now)
      ensures !loadSucceeds ==> state == old(state)
      ensures !old(loaded) && loadSucceeds && store.state.Some? ==>
                0.0 <= state.nextAttemptAt <= MaxReal(0.0, now + policy.maxMs)
      ensures !old(loaded) && loadSucceeds && store.state.Some? ==>
                var stored := store.state.value;
                && (stored.consecutiveFailures.NotFinite? ==> state.consecutiveFailures == 0)
                && (stored.consecutiveFailures.Finite? ==>
                      state.consecutiveFailures
                      == if stored.consecutiveFailures.value < 0.0 then 0 else stored.consecutiveFailures.value.Floor)
                && (stored.nextAttemptAt.NotFinite? ==> state.nextAttemptAt == 0.0 || now + policy.maxMs < 0.0)
                && (stored.nextAttemptAt.Finite? && 0.0 <= stored.nextAttemptAt.value <= now + policy.maxMs ==>
                      state.nextAttemptAt == stored.nextAttemptAt.value)
                && (stored.nextAttemptAt.Finite? && stored.nextAttemptAt.value > now + policy.maxMs >= 0.0 ==>
                      state.nextAttemptAt == now + policy.maxMs)
    {
      if loaded {
        return;
      }
      loaded := true;
      var stored: Option<StoredState> := if loadSucceeds then store.state else None;
      if stored.None? {
        return;
      }
      var failures := 0;
      if stored.value.consecutiveFailures.Finite? {
        failures := stored.value.consecutiveFailures.value.Floor;
        if failures < 0 {
          failures := 0;
        }
      }
      var nextAttemptAt := if stored.value.nextAttemptAt.Finite? then stored.value.nextAttemptAt.value else 0.0;
      nextAttemptAt := MinReal(nextAttemptAt, now + policy.maxMs);
      state := BackoffState(failures, MaxReal(0.0, nextAttemptAt), stored.value.lastError,
                            if stored.value.updatedAt.Finite? then stored.value.updatedAt.value else 0.0);
    }

    method RemainingMs(now: real) returns (wait: real)
      ensures wait == MaxReal(0.0, state.nextAttemptAt - now)
    {
      return MaxReal(0.0, state.nextAttemptAt - now);
    }

    /** A failing save keeps the process running on its in-memory state. */
    method Persist(saveSucceeds: bool)
      modifies store
      ensures store.Saved() == if saveSucceeds then Some(state) else old(store.Saved())
      ensures !saveSucceeds ==> store.state == old(store.state)
    {
      if saveSucceeds {
        store.state := Some(Written(state));
        WrittenIsKept(state);
      }
    }

    method RecordSuccess(now: real, saveSucceeds: bool)
      modifies this, store
      ensures loaded == old(loaded) && state == BackoffRuns.RecordSuccess(old(View()), now).state
      ensures saveSucceeds ==> View() == BackoffRuns.RecordSuccess(old(View()), now)
      ensures state.consecutiveFailures == 0 && state.nextAttemptAt == 0.0
      ensures !saveSucceeds ==> store.state == old(store.state)
    {
      var previous := state.consecutiveFailures;
      if previous == 0 && state.nextAttemptAt == 0.0 {
        return;
      }
      state := BackoffState(0, 0.0, None, now);
      Persist(saveSucceeds);
    }

    method RecordFailure(message: string, now: real, random: real, saveSucceeds: bool) returns (delayMs: int)
      modifies this, store
      ensures loaded == old(loaded) && state == FailedState(policy, old(state), now, message, random)
      ensures delayMs == BackoffDelayMs(old(state).consecutiveFailures + 1, policy, random)
      ensures state.consecutiveFailures == old(state).consecutiveFailures + 1 && state.updatedAt == now
      ensures state.nextAttemptAt == if delayMs > 0 then now + delayMs as real else 0.0
      ensures state.lastError == Some(if |message| > 300 then message[..300] else message)
      ensures store.Saved() == if saveSucceeds then Some(state) else old(store.Saved())
      ensures !saveSucceeds ==> store.state == old(store.state)
    {
      var failures := state.consecutiveFailures + 1;
      delayMs := BackoffDelayMs(failures, policy, random);
      var shortened := if |message| > 300 then message[..300] else message;
      state := BackoffState(failures, if delayMs > 0 then now + delayMs as real else 0.0, Some(shortened), now);
      Persist(saveSucceeds);
    }

    /** One keeper tick; with a working store it is exactly one tick of the run model. */
    method Tick(input: TickInput, loadSucceeds: bool, saveSucceeds: bool) returns (result: TickResult)
      modifies this, store
      ensures loaded
      ensures (loadSucceeds || old(loaded)) ==>
                && result == BackoffRuns.Tick(policy, old(View()), input).1
                && state == BackoffRuns.Tick(policy, old(View()), input).0.state
                && (saveSucceeds ==> View() == BackoffRuns.Tick(policy, old(View()), input).0)
      ensures !saveSucceeds ==> store.state == old(store.state)
    {
      Init(input.initAt, loadSucceeds);
      var wait := RemainingMs(input.checkAt);
      if wait > 0.0 {
        return Skipped(wait);
      }
      match input.task {
        case Succeeds =>
          RecordSuccess(input.recordAt, saveSucceeds);
          return Ran;
        case Fails(message) =>
          var delayMs := RecordFailure(message, input.recordAt, input.random, saveSucceeds);
          return RanAndFailed(delayMs);
      }
    }
  }
}
