/**
The command router over the in-memory repositories. Each method is proved to make the step that
the lemmas of this project are about, and to reply as that step's decision does.
*/
module Router {
  import opened Common
  import opened Entities
  import opened CommandTable
  import opened UseCases
  import opened Pipeline
  import opened Runs
  import opened Lifecycle
  import opened Incidents
  import opened Delivery
  import opened InMemory

  class CommandRouterUseCases {
    const cfg: Settings
    const store: InMemoryStore
    const commands: InMemoryCommandRepository
    const incidents: InMemoryIncidentHookRepository
    const locks: InMemoryBatchLockRepository

    constructor (cfg: Settings, store: InMemoryStore)
      requires store.Valid()
      ensures Valid() && this.cfg == cfg && this.store == store
    {
      var commands := new InMemoryCommandRepository(store);
      var incidents := new InMemoryIncidentHookRepository(store);
      var locks := new InMemoryBatchLockRepository(store);
      this.cfg, this.store := cfg, store;
      this.commands, this.incidents, this.locks := commands, incidents, locks;
    }

    /** The repositories share the store, and ids identify its rows. */
    ghost predicate Valid()
      reads store
    {
      commands.store == store && incidents.store == store && locks.store == store && store.Valid()
    }

    method SubmitCommand(req: SubmitRequest, now: Time, draws: Draws) returns (reply: Outcome<SubmissionResult>)
      requires Valid()
      modifies store
      ensures Valid()
      ensures reply == SubmitReply(cfg, old(store.commands), req, now, draws)
      ensures store.State() == Next(cfg, old(store.State()), Submit(req, now, draws))
    {
      hide First, FindInflightForPoint, NextQueueSeq, CountPendingForPoint, Put, NewCommand;
      hide FindRecentByIdempotency, FindRecentByCorrelation;
      if req.commandClass == SafetyCritical && Missing(req.idempotencyKey) {
        return Err(ValidationError);
      }
      if req.commandClass == SafetyCritical && Missing(req.correlationId) {
        return Err(ValidationError);
      }
      var generatedIdempotencyKey: Option<string>, generatedCorrelationId: Option<string> := None, None;
      var idempotencyKey, correlationId := draws.idempotencyKey, draws.correlationId;
      if Missing(req.idempotencyKey) {
        generatedIdempotencyKey := Some(idempotencyKey);
      } else {
        idempotencyKey := req.idempotencyKey.value;
      }
      if Missing(req.correlationId) {
        generatedCorrelationId := Some(correlationId);
      } else {
        correlationId := req.correlationId.value;
      }
      var duplicate := FindRecentByIdempotency(
        store.commands, req.point.siteId, idempotencyKey, now - cfg.IdempotencyWindow());
      if duplicate.Some? {
        return Ok(SubmissionResult(duplicate.value, Some(duplicate.value.commandId),
                                   generatedIdempotencyKey, generatedCorrelationId));
      }
      var conflicting := FindRecentByCorrelation(
        store.commands, req.point.siteId, correlationId, now - cfg.CorrelationWindow());
      if conflicting.Some? {
        return Err(CorrelationConflict(correlationId, conflicting.value.commandId));
      }
      var pendingDepth := commands.CountPending(req.point);
      if pendingDepth >= cfg.queueMaxDepthPerPoint {
        return Err(QueueOverflow(pendingDepth, cfg.queueRetryAfterSeconds));
      }
      var inflight := commands.FindInflight(req.point);
      var nextSeq := commands.NextSeq(req.point);
      var queries := SubmitQueries(duplicate, conflicting, pendingDepth, inflight, nextSeq);
      var persisted := commands.Add(NewCommand(cfg, req, now, draws, queries));
      return Ok(SubmissionResult(persisted, None, generatedIdempotencyKey, generatedCorrelationId));
    }

    method GetCommand(commandId: Id) returns (reply: Outcome<Command>)
      ensures reply == if Get(store.commands, commandId).Some? then Ok(Get(store.commands, commandId).value)
                       else Err(NotFound)
    {
      var row := Get(store.commands, commandId);
      if row.None? {
        return Err(NotFound);
      }
      return Ok(row.value);
    }

    method CancelCommand(commandId: Id, now: Time) returns (reply: Outcome<Command>)
      requires Valid()
      modifies store
      ensures Valid()
      ensures reply == RowReply(old(store.State()), Cancel(commandId, now))
      ensures store.State() == Next(cfg, old(store.State()), Cancel(commandId, now))
    {
      var row := Get(store.commands, commandId);
      if row.None? {
        return Err(NotFound);
      }
      if row.value.status !in {Accepted, Queued} {
        return Err(CancelNotAllowed);
      }
      var persisted := commands.Update(row.value.(status := Canceled, updatedAt := now));
      return Ok(persisted);
    }

    /** A read and then a submission; here with nothing between the two. */
    method ReissueCommand(commandId: Id, actorRole: string, reason: string, now: Time, draws: Draws)
      returns (reply: Outcome<SubmissionResult>)
      requires Valid()
      modifies store
      ensures Valid()
      ensures var decision := ReissueDecision(Get(old(store.commands), commandId), actorRole, reason);
        if decision.Ok? then
          && reply == SubmitReply(cfg, old(store.commands), decision.value, now, draws)
          && store.State() == Next(cfg, old(store.State()), Submit(decision.value, now, draws))
        else
          reply == Err(decision.error) && store.State() == old(store.State())
    {
      if actorRole !in {"org_admin", "site_admin", "operations_override"} {
        return Err(OverrideNotAllowed);
      }
      if Strip(reason) == "" {
        return Err(ValidationError);
      }
      var read := GetCommand(commandId);
      if read.Err? {
        return Err(read.error);
      }
      var current := read.value;
      if current.status !in {Failed, Canceled} {
        return Err(ValidationError);
      }
      reply := SubmitCommand(
        SubmitRequest(current.organizationId, current.PointOf(), current.commandClass,
                      current.payload.(reissueReason := Some(reason)), None, None, Some(current.commandId)),
        now, draws);
    }

    method OverrideChannel(commandId: Id, actorRole: string, reason: string, channel: Channel, now: Time)
      returns (reply: Outcome<Command>)
      requires Valid()
      modifies store
      ensures Valid()
      ensures reply == RowReply(old(store.State()), Override(commandId, actorRole, reason, channel, now))
      ensures store.State() == Next(cfg, old(store.State()), Override(commandId, actorRole, reason, channel, now))
    {
      if actorRole !in {"org_admin", "operations_override"} {
        return Err(OverrideNotAllowed);
      }
      if Strip(reason) == "" {
        return Err(ValidationError);
      }
      var row := Get(store.commands, commandId);
      if row.None? {
        return Err(NotFound);
      }
      var persisted := commands.Update(
        row.value.(effectiveChannel := channel, overrideReason := Some(reason), updatedAt := now));
      return Ok(persisted);
    }

    method DispatchNext(p: Point, now: Time) returns (reply: Outcome<Command>)
      requires Valid()
      modifies store
      ensures Valid()
      ensures reply == RowReply(old(store.State()), Dispatch(p, now))
      ensures store.State() == Next(cfg, old(store.State()), Dispatch(p, now))
    {
      var inflight := commands.FindInflight(p);
      if inflight.Some? {
        return Err(DispatchNotAllowed);
      }
      var accepted := FindAcceptedForPoint(store.commands, p);
      var candidate: Command;
      if accepted.Some? {
        candidate := accepted.value;
      } else {
        var queued := commands.ListQueued(p);
        if queued == [] {
          return Err(NotFound);
        }
        candidate := queued[0];
      }
      var persisted := commands.Update(
        candidate.(status := Dispatched, dispatchedAt := Some(now), updatedAt := now));
      return Ok(persisted);
    }

    method ReconcileCommand(commandId: Id, observedMatch: bool, now: Time) returns (reply: Outcome<Command>)
      requires Valid()
      modifies store
      ensures Valid()
      ensures reply == RowReply(old(store.State()), Reconcile(commandId, observedMatch, now))
      ensures store.State() == Next(cfg, old(store.State()), Reconcile(commandId, observedMatch, now))
    {
      var row := Get(store.commands, commandId);
      if row.None? {
        return Err(NotFound);
      }
      if row.value.status != Dispatched {
        return Err(ReconciliationNotAllowed);
      }
      var status := if observedMatch then AppliedConfirmed else Failed;
      var reason := if observedMatch then None else Some(ObservedStateMismatch);
      var persisted := commands.Update(
        row.value.(status := status, completedAt := Some(now), resultReason := reason, updatedAt := now));
      return Ok(persisted);
    }

    /** Fails the row, as it was read, and raises the incident of a safety command. */
    method MarkFailedForSla(row: Command, now: Time, eventId: Id)
      returns (persisted: Command, alert: bool, manual: bool)
      requires Valid()
      modifies store`commands, store`incidents
      ensures Valid()
      ensures persisted == Breached(row, now) && alert == manual == row.IsSafety()
      ensures store.commands == Put(old(store.commands), Breached(row, now))
      ensures store.incidents == if row.IsSafety() then PutEvent(old(store.incidents), SlaIncident(row, now, eventId))
                                 else old(store.incidents)
    {
      persisted := commands.Update(
        row.(status := Failed, completedAt := Some(now), resultReason := Some(ReconciliationSlaBreach),
             updatedAt := now));
      var isSafety := persisted.commandClass == SafetyCritical;
      if isSafety {
        incidents.Add(Incident(
          eventId, persisted.commandId, persisted.organizationId, persisted.siteId,
          IncidentPayload(persisted.reconciliationDeadlineAt, now, persisted.payload),
          0, now, None, None, now));
      }
      return persisted, isSafety, isSafety;
    }

    method CheckSla(commandId: Id, now: Time, eventId: Id) returns (reply: Outcome<SlaCheckResult>)
      requires Valid() && FreshEvents(store.State(), [eventId])
      modifies store
      ensures Valid()
      ensures reply == SlaDecision(Get(old(store.commands), commandId), now)
      ensures store.State() == Next(cfg, old(store.State()), Runs.CheckSla(commandId, now, eventId))
    {
      var row := Get(store.commands, commandId);
      if row.None? {
        return Err(NotFound);
      }
      if row.value.status !in {Accepted, Queued, Dispatched} || now <= row.value.reconciliationDeadlineAt {
        return Ok(SlaCheckResult(false, row.value, false, false));
      }
      assert FindEvent(store.incidents, eventId).None? by {
        assert [eventId][0] == eventId;
      }
      var persisted, alert, manual := MarkFailedForSla(row.value, now, eventId);
      return Ok(SlaCheckResult(true, persisted, alert, manual));
    }

    method EvaluateSlaBatch(limit: nat, now: Time, owner: Id, eventIds: seq<Id>) returns (reply: SlaBatchResult)
      requires Valid()
      requires limit <= |eventIds| && FreshEvents(store.State(), eventIds)
      modifies store
      ensures Valid()
      ensures store.State() == SlaBatch(cfg, old(store.State()), limit, now, owner, eventIds)
      ensures reply == SlaBatchReply(old(store.State()), limit, now, owner)
    {
      hide FindEvent, PutEvent, Put, Find, ListOverdue, Take, BreachRows, SlaBatch, FreshEvents;
      hide Breached, SlaIncident, IsOverdue, Acquired, Released, Grantable;
      BatchUnfolds(cfg, store.State(), limit, now, owner, eventIds);
      var acquired := locks.TryAcquire(SLA_LEASE, owner, now, cfg.slaBatchLockTtlSeconds);
      if !acquired {
        return SlaBatchResult(false, []);
      }
      ghost var held := store.State();
      ghost var r := Take(ListOverdue(store.commands, now), limit);
      OverdueTaken(store.commands, limit, now);
      assert FreshEvents(held, eventIds) by {
        SameEvents(old(store.State()), held, eventIds);
      }
      var results := [];
      assert BreachRows(held, r[..0], now, eventIds) == held by {
        NoBreaches(held, r, now, eventIds);
      }
      var rows := commands.ListActiveWithDeadlineBefore(now, limit);
      for k := 0 to |rows|
        invariant Valid() && store.State() == BreachRows(held, r[..k], now, eventIds)
        invariant |results| == k && forall j :: 0 <= j < k ==> results[j] == BreachResult(rows[j], now)
      {
        BatchRow(held, r, k, now, eventIds);
        var persisted, alert, manual := MarkFailedForSla(rows[k], now, eventIds[k]);
        results := results + [SlaCheckResult(true, persisted, alert, manual)];
      }
      assert r[..|rows|] == r;
      locks.Release(SLA_LEASE, owner);
      return SlaBatchResult(true, results);
    }

    method DeliverIncidentHooksBatch(limit: nat, now: Time, owner: Id) returns (reply: DeliveryBatchResult)
      requires Valid()
      modifies store
      ensures Valid()
      ensures store.State() == DeliveryBatch(cfg, old(store.State()), limit, now, owner)
      ensures reply == DeliveryReply(old(store.State()), limit, now, owner)
    {
      hide FindEvent, ListDue, Take, AttemptRows, Backoff, Count;
      var acquired := locks.TryAcquire(DELIVERY_LEASE, owner, now, cfg.incidentDeliveryLockTtlSeconds);
      if !acquired {
        return DeliveryBatchResult(false, 0, 0);
      }
      ghost var held := store.State();
      ghost var es := store.incidents;
      ghost var r := Take(ListDue(es, now), limit);
      DueTaken(es, limit, now);
      var deliveredCount, failedCount := 0, 0;
      assert AttemptRows(cfg, es, r[..0], now) == es by {
        NoAttempts(cfg, es, r, now);
      }
      var rows := incidents.ListPendingForDelivery(now, limit);
      for k := 0 to |rows|
        invariant Valid() && store.commands == held.commands && store.leases == held.leases
        invariant store.incidents == AttemptRows(cfg, es, r[..k], now)
        invariant deliveredCount == Count(DeliveredFlags(es, r[..k]))
        invariant failedCount == Count(FailedFlags(es, r[..k]))
      {
        var row := rows[k];
        DeliveryRow(cfg, es, r, k, now);
        var shouldFail := row.payload.commandPayload.simulateDeliveryFailure;
        if shouldFail {
          var attempt := row.attemptCount + 1;
          incidents.MarkDeliveryFailed(row.eventId, attempt, now + Backoff(cfg, attempt) * SECOND, DELIVERY_ERROR);
          failedCount := failedCount + 1;
        } else {
          incidents.MarkDelivered(row.eventId, now);
          deliveredCount := deliveredCount + 1;
        }
      }
      assert r[..|rows|] == r;
      locks.Release(DELIVERY_LEASE, owner);
      return DeliveryBatchResult(true, deliveredCount, failedCount);
    }
  }

  lemma {:induction false} BreachRowsKeepEvents(s: Store, r: seq<nat>, now: Time, eventIds: seq<Id>)
    requires DistinctEvents(s.incidents) && FreshEvents(s, eventIds)
    requires |r| <= |eventIds| && forall k :: 0 <= k < |r| ==> r[k] < |s.commands|
    ensures DistinctEvents(BreachRows(s, r, now, eventIds).incidents)
  {
    if r != [] {
      var last := |r| - 1;
      BreachRowsKeepEvents(s, r[..last], now, eventIds);
      BreachRowsEventIds(s, r[..last], now, eventIds);
    }
  }

  /** Steps that draw fresh ids keep ids distinct, as the batches' in-place writes need. */
  lemma StepKeepsEvents(cfg: Settings, s: Store, step: Step)
    requires ValidStep(s, step) && DistinctIds(s.commands) && DistinctEvents(s.incidents)
    ensures DistinctIds(Next(cfg, s, step).commands)
    ensures DistinctEvents(Next(cfg, s, step).incidents)
  {
    hide SubmitReply, RowReply, Put, Written, DeliveryBatch, Find;
    StepMoves(cfg, s, step);
    match step
    case CheckSla(_, _, eventId) => assert [eventId][0] == eventId;
    case EvaluateSla(limit, now, owner, eventIds) =>
      var held := s.(leases := Acquired(s.leases, SLA_LEASE, owner, now, cfg.slaBatchLockTtlSeconds));
      BreachRowsKeepEvents(held, Take(ListOverdue(s.commands, now), limit), now, eventIds);
    case _ => QuietStep(cfg, s, step);
  }

  /** Every state a run of calls reaches meets the methods' requirement. */
  lemma {:induction false} ReachableValid(cfg: Settings, r: Run, k: nat)
    requires FromEmpty(cfg, r) && k <= |r.steps|
    ensures DistinctIds(r.states[k].commands) && DistinctEvents(r.states[k].incidents)
  {
    hide Next;
    if k > 0 {
      ReachableValid(cfg, r, k - 1);
      assert Takes(cfg, r, k - 1);
      StepKeepsEvents(cfg, r.states[k - 1], r.steps[k - 1]);
    }
  }

  /** The k-th row of a deadline batch, as it was listed, is still what the table holds; writing it
      and its incident makes the batch's next step. */
  lemma BatchRow(s: Store, r: seq<nat>, k: nat, now: Time, eventIds: seq<Id>)
    requires DistinctIds(s.commands) && FreshEvents(s, eventIds)
    requires NoRepeats(r) && k < |r| <= |eventIds|
    requires forall j :: 0 <= j < |r| ==> r[j] < |s.commands| && IsOverdue(s.commands[r[j]], now)
    ensures var mid, c := BreachRows(s, r[..k], now, eventIds), s.commands[r[k]];
      BreachRows(s, r[..k + 1], now, eventIds)
      == mid.(commands := Put(mid.commands, Breached(c, now)),
              incidents := if c.IsSafety() then PutEvent(mid.incidents, SlaIncident(c, now, eventIds[k]))
                           else mid.incidents)
  {
    var mid := BreachRows(s, r[..k], now, eventIds);
    assert r[..k + 1][..k] == r[..k];
    BatchRowStands(s, r, k, now, eventIds);
    BatchEventIsNew(s, r, k, now, eventIds);
    PutAt(mid.commands, r[k], Breached(s.commands[r[k]], now));
  }

  lemma BatchRowStands(s: Store, r: seq<nat>, k: nat, now: Time, eventIds: seq<Id>)
    requires DistinctIds(s.commands) && NoRepeats(r) && k < |r| <= |eventIds|
    requires forall j :: 0 <= j < |r| ==> r[j] < |s.commands|
    ensures var t' := BreachRows(s, r[..k], now, eventIds).commands;
      DistinctIds(t') && |t'| == |s.commands| && t'[r[k]] == s.commands[r[k]]
  {
    BreachRowsCommands(s, r[..k], now, eventIds);
    var t' := BreachRows(s, r[..k], now, eventIds).commands;
    assert forall i :: 0 <= i < |t'| ==> t'[i].commandId == s.commands[i].commandId;
  }

  lemma BatchEventIsNew(s: Store, r: seq<nat>, k: nat, now: Time, eventIds: seq<Id>)
    requires FreshEvents(s, eventIds) && k < |r| <= |eventIds|
    requires forall j :: 0 <= j < |r| ==> r[j] < |s.commands|
    ensures FindEvent(BreachRows(s, r[..k], now, eventIds).incidents, eventIds[k]).None?
  {
    BreachRowsEventIds(s, r[..k], now, eventIds);
  }

  /** Every event after the batch so far was there before it, or has one of the ids drawn. */
  lemma {:induction false} BreachRowsEventIds(s: Store, r: seq<nat>, now: Time, eventIds: seq<Id>)
    requires |r| <= |eventIds| && forall k :: 0 <= k < |r| ==> r[k] < |s.commands|
    ensures forall k :: 0 <= k < |BreachRows(s, r, now, eventIds).incidents| ==>
      || BreachRows(s, r, now, eventIds).incidents[k] in s.incidents
      || BreachRows(s, r, now, eventIds).incidents[k].eventId in eventIds[..|r|]
  {
    if r != [] {
      var last := |r| - 1;
      BreachRowsEventIds(s, r[..last], now, eventIds);
      assert eventIds[..|r|] == eventIds[..last] + [eventIds[last]];
    }
  }

  lemma SameEvents(s: Store, s': Store, eventIds: seq<Id>)
    requires s'.incidents == s.incidents && FreshEvents(s, eventIds)
    ensures FreshEvents(s', eventIds)
  {}

  lemma BatchUnfolds(cfg: Settings, s: Store, limit: nat, now: Time, owner: Id, eventIds: seq<Id>)
    requires limit <= |eventIds|
    ensures var held := s.(leases := Acquired(s.leases, SLA_LEASE, owner, now, cfg.slaBatchLockTtlSeconds));
      var done := BreachRows(held, Take(ListOverdue(s.commands, now), limit), now, eventIds);
      SlaBatch(cfg, s, limit, now, owner, eventIds) ==
        if Grantable(s.leases, SLA_LEASE, owner, now)
        then done.(leases := Released(done.leases, SLA_LEASE, owner)) else held
  {}

  lemma NoBreaches(s: Store, r: seq<nat>, now: Time, eventIds: seq<Id>)
    ensures BreachRows(s, r[..0], now, eventIds) == s
  {}

  lemma NoAttempts(cfg: Settings, es: seq<Incident>, r: seq<nat>, now: Time)
    ensures AttemptRows(cfg, es, r[..0], now) == es
  {}

  /** The same for a delivery batch, with its two counts. */
  lemma DeliveryRow(cfg: Settings, es: seq<Incident>, r: seq<nat>, k: nat, now: Time)
    requires DistinctEvents(es) && NoRepeats(r) && k < |r|
    requires forall j :: 0 <= j < |r| ==> r[j] < |es|
    ensures var mid := AttemptRows(cfg, es, r[..k], now);
      && FindEvent(mid, es[r[k]].eventId) == Some(r[k])
      && mid[r[k]] == es[r[k]]
      && AttemptRows(cfg, es, r[..k + 1], now) == mid[r[k] := Attempted(cfg, es[r[k]], now)]
    ensures Count(DeliveredFlags(es, r[..k + 1]))
         == Count(DeliveredFlags(es, r[..k])) + if FailsDelivery(es[r[k]]) then 0 else 1
    ensures Count(FailedFlags(es, r[..k + 1]))
         == Count(FailedFlags(es, r[..k])) + if FailsDelivery(es[r[k]]) then 1 else 0
  {
    var mid := AttemptRows(cfg, es, r[..k], now);
    assert r[..k + 1][..k] == r[..k];
    AttemptRowsAt(cfg, es, r[..k], now);
    AttemptedSameOrigin(cfg, es, r[..k], now);
    assert DistinctEvents(mid);
    FindEventAt(mid, r[k]);
    assert DeliveredFlags(es, r[..k + 1])[..k] == DeliveredFlags(es, r[..k]);
    assert FailedFlags(es, r[..k + 1])[..k] == FailedFlags(es, r[..k]);
  }
}
