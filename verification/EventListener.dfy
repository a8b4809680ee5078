/** The listener object: restore, request, dispatch, advance and persist, one poll at a time. */
module EventListener {
  import opened Wrappers
  import opened Integers
  import opened EventStream
  import opened ListenerRuns

  datatype Checkpoint = Checkpoint(nextLedger: nat, updatedAt: int, eventCursor: Option<nat>)

  /** A request names either a paging token or a start ledger, never both. */
  datatype Request = FromLedger(startLedger: nat, limit: nat) | AfterToken(cursor: nat, limit: nat)

  datatype Response = Response(events: seq<Event>, latestLedger: nat)

  datatype PollFault = NoFault | SourceFails | HandlerThrows(at: nat)

  /** The RPC node, answering as the protocol promises: the first `limit` events from the requested place. */
  class EventSource {
    var log: seq<Event>
    var head: nat

    constructor ()
      ensures log == [] && head == 0
    {
      log, head := [], 0;
    }

    method GetEvents(request: Request) returns (response: Response)
      ensures response.latestLedger == head
      ensures request.FromLedger? ==>
                response.events == Page(log, Consumed(log, Position(request.startLedger, None)), request.limit)
      ensures request.AfterToken? ==> response.events == Page(log, IndexAfter(log, request.cursor), request.limit)
    {
      var from := if request.FromLedger? then FirstAt(log, request.startLedger) else IndexAfter(log, request.cursor);
      return Response(Page(log, from, request.limit), head);
    }
  }

  class CheckpointStore {
    var saved: Option<Checkpoint>

    constructor ()
      ensures saved == None
    {
      saved := None;
    }

    function Stored(): Option<Position>
      reads this
    {
      if saved.None? then None else Some(Position(saved.value.nextLedger, saved.value.eventCursor))
    }
  }

  /** What handlers have been given, across restarts of the process. */
  class Handlers {
    var received: seq<Event>

    constructor ()
      ensures received == []
    {
      received := [];
    }
  }

  class ContractEventListener {
    const source: EventSource
    const config: Config
    const store: CheckpointStore
    const handlers: Handlers

    var cursor: nat
    var pagingCursor: Option<nat>
    var restoreAttempted: bool
    var restoredCheckpoint: Option<Checkpoint>
    var resumedFromLedger: Option<nat>

    constructor (source: EventSource, config: Config, store: CheckpointStore, handlers: Handlers)
      ensures this.source == source && this.config == config && this.store == store && this.handlers == handlers
      ensures Valid()
      ensures State() == System(source.log, source.head, None, store.Stored(), handlers.received)
    {
      this.source, this.config, this.store, this.handlers := source, config, store, handlers;
      cursor, pagingCursor := config.startLedger, None;
      restoreAttempted, restoredCheckpoint, resumedFromLedger := false, None, None;
    }

    /** Before the first restore the listener stands at its configured start. */
    ghost predicate Valid()
      reads this
    {
      !restoreAttempted ==> cursor == config.startLedger && pagingCursor == None
    }

    /** The whole system as seen from this process. */
    ghost function State(): System
      reads this, source, store, handlers
    {
      System(source.log, source.head, if restoreAttempted then Some(Position(cursor, pagingCursor)) else None,
             store.Stored(), handlers.received)
    }

    /** Take over the stored position, if the store can be read and holds one. */
    method Restore(loadSucceeds: bool) returns (applied: bool)
      requires Valid() && !restoreAttempted
      modifies this
      ensures Valid() && restoreAttempted
      ensures applied <==> loadSucceeds && store.saved.Some?
      ensures Position(cursor, pagingCursor)
              == if loadSucceeds then Restored(config, store.Stored()) else Position(config.startLedger, None)
      ensures applied ==>
                && cursor == Max(config.startLedger, store.saved.value.nextLedger)
                && pagingCursor == (if store.saved.value.nextLedger >= config.startLedger
                                    then store.saved.value.eventCursor else None)
      ensures restoredCheckpoint == if applied then store.saved else old(restoredCheckpoint)
    {
      restoreAttempted := true;
      if !loadSucceeds || store.saved.None? {
        return false;
      }
      var checkpoint := store.saved.value;
      cursor := Max(config.startLedger, checkpoint.nextLedger);
      pagingCursor := if checkpoint.nextLedger >= config.startLedger then checkpoint.eventCursor else None;
      restoredCheckpoint := Some(checkpoint);
      resumedFromLedger := Some(cursor);
      return true;
    }

    method Persist(now: int)
      requires restoreAttempted
      modifies store
      ensures store.Stored() == Some(Position(cursor, pagingCursor)) && store.saved.value.updatedAt == now
    {
      store.saved := Some(Checkpoint(cursor, now, pagingCursor));
    }

    method BuildRequest() returns (request: Request)
      ensures request == match pagingCursor
                         case Some(token) => AfterToken(token, config.pageSize)
                         case None => FromLedger(cursor, config.pageSize)
    {
      if pagingCursor.Some? {
        return AfterToken(pagingCursor.value, config.pageSize);
      }
      return FromLedger(cursor, config.pageSize);
    }

    /**
     Dispatch a page in order. A throwing handler at some index stops the dispatch there, and the
     position then stays where it was.
     */
    method ProcessResponse(response: Response, fault: PollFault) returns (completed: bool)
      requires Valid() && restoreAttempted && |response.events| <= config.pageSize
      modifies this, handlers
      ensures Valid() && restoreAttempted
      ensures completed <==> !(fault.HandlerThrows? && fault.at < |response.events|)
      ensures completed ==>
                && handlers.received == old(handlers.received) + Filter(config, response.events)
                && Position(cursor, pagingCursor)
                   == Advance(config, old(Position(cursor, pagingCursor)), response.events, response.latestLedger)
      ensures !completed ==>
                && handlers.received == old(handlers.received) + Filter(config, response.events[..fault.at])
                && cursor == old(cursor) && pagingCursor == old(pagingCursor)
    {
      var events := response.events;
      var highestEventLedger: int := -1;
      for i := 0 to |events|
        invariant handlers.received == old(handlers.received) + Filter(config, events[..i])
        invariant highestEventLedger == HighestDelivered(config, events[..i])
        invariant cursor == old(cursor) && pagingCursor == old(pagingCursor) && restoreAttempted
        invariant fault.HandlerThrows? ==> i <= fault.at
      {
        assert events[..i + 1][..i] == events[..i];
        if fault == HandlerThrows(i) {
          return false;
        }
        var raw := events[i];
        if !config.Allows(raw) {
          continue;
        }
        handlers.received := handlers.received + [raw];
        if raw.ledger > highestEventLedger {
          highestEventLedger := raw.ledger;
        }
      }
      assert events[..|events|] == events;
      AdvanceCursor(events, highestEventLedger, response.latestLedger);
      return true;
    }

    method AdvanceCursor(events: seq<Event>, highestEventLedger: int, latestLedger: nat)
      requires highestEventLedger == HighestDelivered(config, events)
      modifies this`cursor, this`pagingCursor
      ensures Position(cursor, pagingCursor)
              == Advance(config, old(Position(cursor, pagingCursor)), events, latestLedger)
    {
      var drained := |events| < config.pageSize;
      pagingCursor := if !drained && |events| > 0 then Some(events[|events| - 1].id) else None;
      var consumedThrough := if drained then Max(highestEventLedger, latestLedger) else highestEventLedger;
      if consumedThrough < 0 {
        return;
      }
      var next := consumedThrough + 1;
      if next > cursor {
        cursor := next;
      }
    }

    /** The first poll restores; a checkpoint that cannot be read leaves the configured start. */
    method RestoreIfNeeded(loadSucceeds: bool)
      requires Valid()
      modifies this
      ensures Valid() && restoreAttempted
      ensures State() == BeforeFetch(config, old(State()), loadSucceeds)
    {
      if !restoreAttempted {
        var _ := Restore(loadSucceeds);
      }
    }

    /** Fetch, dispatch and persist: one step of the system model. */
    method FetchAndDispatch(saveSucceeds: bool, fault: PollFault, now: int)
      requires Valid() && restoreAttempted
      modifies this, store, handlers
      ensures Valid() && restoreAttempted
      ensures State() == Next(config, old(State()), StepFor(config, old(State()), fault, saveSucceeds))
    {
      ghost var s := State();
      var request := BuildRequest();
      if fault.SourceFails? {
        return;
      }
      var response := source.GetEvents(request);
      assert response.events == NextPage(config, s);
      var completed := ProcessResponse(response, fault);
      if completed {
        if saveSucceeds {
          Persist(now);
        }
      }
    }

    /**
     One poll is one step of the system model; a first poll whose checkpoint cannot be read is the
     loss of the checkpoint followed by that step.
     */
    method RunPoll(loadSucceeds: bool, saveSucceeds: bool, fault: PollFault, now: int)
      requires Valid()
      modifies this, store, handlers
      ensures Valid() && restoreAttempted
      ensures loadSucceeds || old(restoreAttempted) ==>
                State() == Next(config, old(State()), StepFor(config, old(State()), fault, saveSucceeds))
      ensures !loadSucceeds && !old(restoreAttempted) ==>
                var s := Next(config, old(State()), LostCheckpoint);
                State() == Next(config, s, StepFor(config, s, fault, saveSucceeds))
    {
      if loadSucceeds || restoreAttempted {
        RestoreThenStep(config, State(), loadSucceeds, fault, saveSucceeds);
      }
      hide Next, StepFor;
      RestoreIfNeeded(loadSucceeds);
      FetchAndDispatch(saveSucceeds, fault, now);
    }
  }

  /** The system once the position has been restored, or the restore has failed. */
  function BeforeFetch(config: Config, s: System, loadSucceeds: bool): System {
    if s.memory.None? && !loadSucceeds then Next(config, s, LostCheckpoint) else s.(memory := Some(Effective(config, s)))
  }

  /** The step a poll performs under these faults. */
  function StepFor(config: Config, s: System, fault: PollFault, saveSucceeds: bool): Step {
    match fault
    case SourceFails => PollRefused
    case HandlerThrows(at) => if at < |NextPage(config, s)| then Interrupted(at, false) else Poll(saveSucceeds)
    case NoFault => Poll(saveSucceeds)
  }

  /** Restoring first makes no difference to the step that follows. */
  lemma RestoreThenStep(config: Config, s: System, loadSucceeds: bool, fault: PollFault, saveSucceeds: bool)
    requires loadSucceeds || s.memory.Some?
    ensures
      var restored := BeforeFetch(config, s, loadSucceeds);
      Next(config, restored, StepFor(config, restored, fault, saveSucceeds))
      == Next(config, s, StepFor(config, s, fault, saveSucceeds))
  {
  }
}
