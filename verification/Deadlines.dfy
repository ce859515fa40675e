/** Deadlines and time stamps: what every reachable row says about when things happened. */
module Deadlines {
  import opened Common
  import opened Entities
  import opened CommandTable
  import opened UseCases
  import opened Pipeline
  import opened Runs
  import opened Lifecycle
  import opened Incidents
  import opened Delivery

  /** The deadline is the class's allowance after creation, moved by the configured offset; and a
      command is failed for missing it only after it. */
  predicate OnDeadline(cfg: Settings, c: Command) {
    && c.reconciliationDeadlineAt
       == c.createdAt + (PolicyOf(c.commandClass).reconciliationSlaSeconds + cfg.slaDeadlineOffsetSeconds) * SECOND
    && (c.resultReason == Some(ReconciliationSlaBreach) ==>
          c.completedAt.Some? && c.completedAt.value > c.reconciliationDeadlineAt)
  }

  ghost predicate AllOnDeadline(cfg: Settings, t: Table) {
    forall i :: 0 <= i < |t| ==> OnDeadline(cfg, t[i])
  }

  /** Whatever a step changes in a row, it stamps with its clock. */
  predicate Stamped(c: Command, c': Command, now: Time) {
    c' != c ==>
      && c'.updatedAt == now
      && (c'.dispatchedAt != c.dispatchedAt ==> c'.dispatchedAt == Some(now))
      && (c'.completedAt != c.completedAt ==> c'.completedAt == Some(now))
      && (Breaches(c, c') ==> IsOverdue(c, now))
  }

  ghost predicate AllStamped(t: Table, t': Table, now: Time) {
    |t| <= |t'| && forall i :: 0 <= i < |t| ==> Stamped(t[i], t'[i], now)
  }

  lemma BatchStamps(s: Store, limit: nat, now: Time, eventIds: seq<Id>)
    requires limit <= |eventIds|
    ensures AllStamped(s.commands, SlaBody(s, limit, now, eventIds).commands, now)
  {
    OverdueTaken(s.commands, limit, now);
    BreachRowsCommands(s, Take(ListOverdue(s.commands, now), limit), now, eventIds);
  }

  lemma RowReplyStamps(s: Store, step: Step)
    requires DistinctIds(s.commands)
    requires step.Cancel? || step.Override? || step.Reconcile?
    ensures AllStamped(s.commands, Written(s.commands, RowReply(s, step)), step.now)
  {
    if RowReply(s, step).Ok? {
      PutAt(s.commands, Find(s.commands, step.commandId).value, RowReply(s, step).value);
    }
  }

  lemma SubmitStamps(cfg: Settings, s: Store, step: Step)
    requires ValidStep(s, step) && step.Submit?
    ensures AllStamped(s.commands, Next(cfg, s, step).commands, step.now)
  {
    hide First, FindInflightForPoint, NextQueueSeq, CountPendingForPoint;
    if Admitted(SubmitReply(cfg, s.commands, step.req, step.now, step.draws)) {
      SubmitStep(cfg, s, step);
    }
  }

  /** Every change carries the time of the step that made it, and only overdue commands breach. */
  lemma StepStamps(cfg: Settings, s: Store, step: Step)
    requires ValidStep(s, step) && DistinctIds(s.commands)
    ensures AllStamped(s.commands, Next(cfg, s, step).commands, step.now)
  {
    match step
    case Submit(_, _, _) => SubmitStamps(cfg, s, step);
    case Dispatch(p, now) => DispatchCase(s.commands, p, now);
    case Cancel(_, _) => RowReplyStamps(s, step);
    case Override(_, _, _, _, _) => RowReplyStamps(s, step);
    case Reconcile(_, _, _) => RowReplyStamps(s, step);
    case EvaluateSla(limit, now, owner, eventIds) =>
      var held := s.(leases := Acquired(s.leases, SLA_LEASE, owner, now, cfg.slaBatchLockTtlSeconds));
      BatchStamps(held, limit, now, eventIds);
    case _ =>
  }

  lemma NewRowOnDeadline(cfg: Settings, t: Table, req: SubmitRequest, now: Time, draws: Draws)
    requires Admitted(SubmitReply(cfg, t, req, now, draws))
    ensures OnDeadline(cfg, SubmitReply(cfg, t, req, now, draws).value.command)
  {}

  lemma MoveKeepsDeadline(cfg: Settings, c: Command, c': Command, now: Time)
    requires OnDeadline(cfg, c) && Consistent(c) && RowMoves(c, c') && Stamped(c, c', now)
    ensures OnDeadline(cfg, c')
  {}

  lemma StepKeepsDeadlines(cfg: Settings, s: Store, step: Step)
    requires ValidStep(s, step) && DistinctIds(s.commands)
    requires AllOnDeadline(cfg, s.commands) && AllConsistent(s.commands)
    ensures AllOnDeadline(cfg, Next(cfg, s, step).commands)
  {
    hide Next;
    var t, t' := s.commands, Next(cfg, s, step).commands;
    StepMoves(cfg, s, step);
    StepStamps(cfg, s, step);
    forall i | 0 <= i < |t'| ensures OnDeadline(cfg, t'[i]) {
      if i < |t| {
        MoveKeepsDeadline(cfg, t[i], t'[i], step.now);
      } else {
        StepCases(cfg, s, step);
        NewRowOnDeadline(cfg, t, step.req, step.now, step.draws);
      }
    }
  }

  /** In every reachable state every command's deadline is its class's, and none was failed early. */
  lemma {:induction false} ReachableOnDeadline(cfg: Settings, r: Run, k: nat)
    requires FromEmpty(cfg, r) && k <= |r.steps|
    ensures AllOnDeadline(cfg, r.states[k].commands)
  {
    hide Next;
    if k > 0 {
      ReachableOnDeadline(cfg, r, k - 1);
      ReachableConsistent(cfg, r, k - 1);
      ReachableEvolves(cfg, r, k - 1, k - 1);
      assert Takes(cfg, r, k - 1);
      StepKeepsDeadlines(cfg, r.states[k - 1], r.steps[k - 1]);
    }
  }

  // What an incident says about its command.

  /** The incident was raised by the failing of this command, and tells its story. */
  predicate Describes(e: Incident, c: Command) {
    && e.commandId == c.commandId
    && BreachedSafety(c)
    && e.organizationId == c.organizationId && e.siteId == c.siteId
    && e.payload == IncidentPayload(c.reconciliationDeadlineAt, e.createdAt, c.payload)
    && c.completedAt == Some(e.createdAt)
  }

  ghost predicate DescribesSome(e: Incident, t: Table) {
    exists i :: 0 <= i < |t| && Describes(e, t[i])
  }

  ghost predicate AllDescribe(es: seq<Incident>, t: Table) {
    forall k :: 0 <= k < |es| ==> DescribesSome(es[k], t)
  }

  /** A failed command keeps its outcome, so what was said of it stays true. */
  lemma DescribesLater(e: Incident, e': Incident, c: Command, c': Command)
    requires Describes(e, c) && Evolves(c, c')
    requires e'.commandId == e.commandId && e'.createdAt == e.createdAt && e'.payload == e.payload
    requires e'.organizationId == e.organizationId && e'.siteId == e.siteId
    ensures Describes(e', c')
  {}

  lemma BreachDescribes(s: Store, i: nat, now: Time, eventId: Id)
    requires AllDescribe(s.incidents, s.commands) && i < |s.commands| && s.commands[i].IsPending()
    ensures AllDescribe(BreachRow(s, i, now, eventId).incidents, BreachRow(s, i, now, eventId).commands)
  {
    var s' := BreachRow(s, i, now, eventId);
    var c := s.commands[i];
    forall k | 0 <= k < |s'.incidents| ensures DescribesSome(s'.incidents[k], s'.commands) {
      if k < |s.incidents| {
        assert DescribesSome(s.incidents[k], s.commands);
        var j :| 0 <= j < |s.commands| && Describes(s.incidents[k], s.commands[j]);
        assert Describes(s'.incidents[k], s'.commands[j]);
      } else {
        assert Describes(s'.incidents[k], s'.commands[i]);
      }
    }
  }

  lemma {:induction false} BatchDescribes(s: Store, r: seq<nat>, now: Time, eventIds: seq<Id>)
    requires AllDescribe(s.incidents, s.commands) && NoRepeats(r) && |r| <= |eventIds|
    requires forall k :: 0 <= k < |r| ==> r[k] < |s.commands| && s.commands[r[k]].IsPending()
    ensures AllDescribe(BreachRows(s, r, now, eventIds).incidents, BreachRows(s, r, now, eventIds).commands)
  {
    if r != [] {
      var k := |r| - 1;
      BatchDescribes(s, r[..k], now, eventIds);
      BreachRowsPending(s, r, now, eventIds, k);
      BreachDescribes(BreachRows(s, r[..k], now, eventIds), r[k], now, eventIds[k]);
    }
  }

  lemma QuietDescribes(t: Table, t': Table, es: seq<Incident>, es': seq<Incident>, cfg: Settings, step: Step)
    requires AllDescribe(es, t) && TableEvolves(t, t')
    requires |es'| == |es| && forall k :: 0 <= k < |es| ==> IncidentMoves(cfg, es[k], es'[k], step)
    ensures AllDescribe(es', t')
  {
    forall k | 0 <= k < |es'| ensures DescribesSome(es'[k], t') {
      assert DescribesSome(es[k], t);
      var i :| 0 <= i < |t| && Describes(es[k], t[i]);
      assert IncidentMoves(cfg, es[k], es'[k], step);
      DescribesLater(es[k], es'[k], t[i], t'[i]);
    }
  }

  lemma StepDescribes(cfg: Settings, s: Store, step: Step)
    requires ValidStep(s, step) && DistinctIds(s.commands) && AllDescribe(s.incidents, s.commands)
    ensures AllDescribe(Next(cfg, s, step).incidents, Next(cfg, s, step).commands)
  {
    match step
    case CheckSla(id, now, eventId) =>
      var p := Find(s.commands, id);
      if p.Some? && IsOverdue(s.commands[p.value], now) {
        BreachDescribes(s, p.value, now, eventId);
      }
    case EvaluateSla(limit, now, owner, eventIds) =>
      var held := s.(leases := Acquired(s.leases, SLA_LEASE, owner, now, cfg.slaBatchLockTtlSeconds));
      OverdueTaken(s.commands, limit, now);
      BatchDescribes(held, Take(ListOverdue(s.commands, now), limit), now, eventIds);
    case _ => QuietStepDescribes(cfg, s, step);
  }

  lemma QuietStepDescribes(cfg: Settings, s: Store, step: Step)
    requires ValidStep(s, step) && DistinctIds(s.commands) && AllDescribe(s.incidents, s.commands)
    requires !step.CheckSla? && !step.EvaluateSla?
    ensures AllDescribe(Next(cfg, s, step).incidents, Next(cfg, s, step).commands)
  {
    hide Next;
    QuietStep(cfg, s, step);
    StepMoves(cfg, s, step);
    StepMovesIncidents(cfg, s, step);
    QuietDescribes(s.commands, Next(cfg, s, step).commands, s.incidents, Next(cfg, s, step).incidents, cfg, step);
  }

  /** In every reachable state each incident describes the command it names: same place and payload,
      raised at the moment the command was failed, with the deadline it missed. */
  lemma {:induction false} ReachableIncidentsDescribe(cfg: Settings, r: Run, k: nat)
    requires FromEmpty(cfg, r) && k <= |r.steps|
    ensures AllDescribe(r.states[k].incidents, r.states[k].commands)
  {
    hide Next;
    if k > 0 {
      ReachableIncidentsDescribe(cfg, r, k - 1);
      ReachableEvolves(cfg, r, k - 1, k - 1);
      assert Takes(cfg, r, k - 1);
      StepDescribes(cfg, r.states[k - 1], r.steps[k - 1]);
    }
  }
}
