/**
One step on the two repositories: what it takes for the database to end on the rows the in-memory
store ends on, and that the database can always answer.
*/
module PostgresSteps {
  import opened Entities
  import opened CommandTable
  import opened UseCases
  import opened Pipeline
  import opened Runs
  import opened Lifecycle
  import opened Incidents
  import opened Leases
  import opened Postgres
  import opened PostgresBatch

  lemma SubmitStepAgrees(cfg: Settings, db: Database, s: Store, step: Step, rows': Rows)
    requires Represents(db.commands, s.commands) && NoChoice(s.commands) && ValidStep(s, step)
    requires step.Submit? && PgCommandStep(cfg, db, step, rows')
    ensures Represents(rows', Next(cfg, s, step).commands)
  {
    hide Represents, NoChoice, First, FindInflightForPoint, NextQueueSeq, CountPendingForPoint;
    var reply :| PgSubmit(cfg, db.commands, step.req, step.now, step.draws, reply, rows');
    SubmitAgrees(cfg, db.commands, s.commands, step.req, step.now, step.draws, reply, rows');
    if Admitted(reply) {
      SubmitStep(cfg, s, step);
    }
  }

  lemma SlaStepAgrees(cfg: Settings, db: Database, s: Store, step: Step, rows': Rows)
    requires Represents(db.commands, s.commands) && step.CheckSla? && PgCommandStep(cfg, db, step, rows')
    ensures Represents(rows', Next(cfg, s, step).commands)
  {
    var t, p := s.commands, Find(s.commands, step.commandId);
    GetAgrees(db.commands, t, step.commandId);
    if p.Some? && IsOverdue(t[p.value], step.now) {
      UpdateRepresents(db.commands, t, p.value, Breached(t[p.value], step.now));
    }
  }

  lemma RepresentedIds(db: Rows, t: Table)
    requires Represents(db, t)
    ensures DistinctIds(t)
  {}

  lemma RowStepReply(cfg: Settings, db: Database, step: Step, rows': Rows) returns (reply: Outcome<Command>)
    requires step.Cancel? || step.Override? || step.Dispatch? || step.Reconcile?
    requires PgCommandStep(cfg, db, step, rows')
    ensures PgRowReply(db.commands, step, reply) && rows' == PgWritten(db.commands, reply)
  {
    hide PgRowReply, PgWritten;
    reply :| PgRowReply(db.commands, step, reply) && rows' == PgWritten(db.commands, reply);
  }

  lemma RowStepTable(cfg: Settings, s: Store, step: Step)
    requires step.Cancel? || step.Override? || step.Dispatch? || step.Reconcile?
    ensures Next(cfg, s, step).commands == Written(s.commands, RowReply(s, step))
  {
    hide RowReply, Written;
  }

  lemma RowStepAgrees(cfg: Settings, db: Database, s: Store, step: Step, rows': Rows)
    requires Represents(db.commands, s.commands) && NoChoice(s.commands)
    requires step.Cancel? || step.Override? || step.Dispatch? || step.Reconcile?
    requires PgCommandStep(cfg, db, step, rows')
    ensures Represents(rows', Next(cfg, s, step).commands)
  {
    RepresentedIds(db.commands, s.commands);
    hide Represents, NoChoice, PgCommandStep, PgRowReply, RowReply, Next;
    var reply := RowStepReply(cfg, db, step, rows');
    RowReplyAgrees(db.commands, s, step, reply);
    RowStepTable(cfg, s, step);
    if reply.Ok? {
      var i := WrittenRow(s, step);
      UpdateRepresents(db.commands, s.commands, i, reply.value);
    }
  }

  // The deadline batch.

  /** The batch gets its lease on both, or on neither. */
  ghost predicate SameGrant(cfg: Settings, db: Database, s: Store, step: Step)
    requires step.EvaluateSla?
  {
    PgGranted(cfg, db.leases, step) <==> Grantable(s.leases, SLA_LEASE, step.owner, step.now)
  }

  /** The batch has nothing to do: nothing is overdue, or its limit is 0. */
  predicate Idle(t: Table, limit: nat, now: Time) {
    Take(ListOverdue(t, now), limit) == []
  }

  /** A deadline batch has to do the same on both: nothing; or it gets its lease or not alike, and if
      it does, no tie runs across its limit. */
  ghost predicate SameBatch(cfg: Settings, db: Database, s: Store, step: Step) {
    step.EvaluateSla? ==>
      || Idle(s.commands, step.limit, step.now)
      || (SameGrant(cfg, db, s, step)
          && (Grantable(s.leases, SLA_LEASE, step.owner, step.now) ==> CleanCut(s.commands, step.limit, step.now)))
  }

  lemma BatchCommands(cfg: Settings, s: Store, step: Step)
    requires step.EvaluateSla? && ValidStep(s, step)
    ensures Next(cfg, s, step).commands ==
      if Grantable(s.leases, SLA_LEASE, step.owner, step.now)
      then SlaBody(s, step.limit, step.now, step.eventIds).commands else s.commands
  {
    if Grantable(s.leases, SLA_LEASE, step.owner, step.now) {
      SlaBatchBody(cfg, s, step.limit, step.now, step.owner, step.eventIds);
      BodyFails(s, step.limit, step.now, step.eventIds);
      BodyFails(s.(leases := s.leases - {SLA_LEASE}), step.limit, step.now, step.eventIds);
    }
  }

  /** A batch with nothing to do leaves the commands as they are. */
  lemma IdleBody(s: Store, limit: nat, now: Time, eventIds: seq<Id>)
    requires limit <= |eventIds| && Idle(s.commands, limit, now)
    ensures SlaBody(s, limit, now, eventIds).commands == s.commands
    ensures CleanCut(s.commands, limit, now)
  {}

  /** A batch with something to do does not. */
  lemma BusyBody(db: Rows, s: Store, limit: nat, now: Time, eventIds: seq<Id>)
    requires limit <= |eventIds| && !Idle(s.commands, limit, now)
    ensures !(Represents(db, s.commands) && Represents(db, SlaBody(s, limit, now, eventIds).commands))
  {
    var r := Take(ListOverdue(s.commands, now), limit);
    BodyFails(s, limit, now, eventIds);
    OverdueTaken(s.commands, limit, now);
    assert r[0] in r;
    var i := r[0];
    assert Failing(s.commands, r, now)[i] == Breached(s.commands[i], now);
  }

  lemma BatchStepAgrees(cfg: Settings, db: Database, s: Store, step: Step, rows': Rows)
    requires Represents(db.commands, s.commands) && ValidStep(s, step)
    requires step.EvaluateSla? && SameBatch(cfg, db, s, step) && PgCommandStep(cfg, db, step, rows')
    ensures Represents(rows', Next(cfg, s, step).commands)
  {
    hide Next, Represents, SlaBody, CleanCut, PgBatchBody, Idle;
    BatchCommands(cfg, s, step);
    if Idle(s.commands, step.limit, step.now) {
      IdleBody(s, step.limit, step.now, step.eventIds);
    }
    if PgGranted(cfg, db.leases, step) {
      CleanBatchAgrees(db.commands, s, step.limit, step.now, step.eventIds, rows');
    }
  }

  /** After a deadline batch the database holds the in-memory commands, whatever it answers, if and
      only if the batch has to do the same on both. */
  lemma BatchStepAgreesExactly(cfg: Settings, db: Database, s: Store, step: Step)
    requires Represents(db.commands, s.commands) && ValidStep(s, step) && step.EvaluateSla?
    ensures (forall rows' :: PgCommandStep(cfg, db, step, rows') ==> Represents(rows', Next(cfg, s, step).commands))
       <==> SameBatch(cfg, db, s, step)
  {
    if SameBatch(cfg, db, s, step) {
      forall rows' | PgCommandStep(cfg, db, step, rows') ensures Represents(rows', Next(cfg, s, step).commands) {
        BatchStepAgrees(cfg, db, s, step, rows');
      }
    } else {
      var rows' := BatchStepParts(cfg, db, s, step);
    }
  }

  lemma BatchStepParts(cfg: Settings, db: Database, s: Store, step: Step) returns (rows': Rows)
    requires Represents(db.commands, s.commands) && ValidStep(s, step)
    requires step.EvaluateSla? && !SameBatch(cfg, db, s, step)
    ensures PgCommandStep(cfg, db, step, rows') && !Represents(rows', Next(cfg, s, step).commands)
  {
    hide Next, Represents, SlaBody, CleanCut, PgBatchBody, Idle, PgGranted;
    BatchCommands(cfg, s, step);
    if !PgGranted(cfg, db.leases, step) {
      rows' := db.commands;
      BusyBody(rows', s, step.limit, step.now, step.eventIds);
    } else if !Grantable(s.leases, SLA_LEASE, step.owner, step.now) {
      rows' := BatchPossible(db.commands, s, step.limit, step.now, step.eventIds);
      BusyBody(rows', s, step.limit, step.now, step.eventIds);
    } else {
      rows' := UncleanBatchDiverges(db.commands, s, step.limit, step.now, step.eventIds);
    }
  }

  lemma StepAgrees(cfg: Settings, db: Database, s: Store, step: Step, rows': Rows)
    requires Represents(db.commands, s.commands) && NoChoice(s.commands) && ValidStep(s, step)
    requires SameBatch(cfg, db, s, step) && PgCommandStep(cfg, db, step, rows')
    ensures Represents(rows', Next(cfg, s, step).commands)
  {
    match step
    case Submit(_, _, _) => SubmitStepAgrees(cfg, db, s, step, rows');
    case CheckSla(_, _, _) => SlaStepAgrees(cfg, db, s, step, rows');
    case EvaluateSla(_, _, _, _) => BatchStepAgrees(cfg, db, s, step, rows');
    case DeliverIncidents(_, _, _) =>
    case AcquireLease(_, _, _, _) =>
    case ReleaseLease(_, _, _) =>
    case _ => RowStepAgrees(cfg, db, s, step, rows');
  }

  // Leases.

  lemma DeleteIsRelease(leases: LeaseTable, name: string, owner: Id)
    ensures DeleteLease(leases, name, owner) == Released(leases, name, owner)
  {}

  /** Whatever the statements leave in the lease table is what a step of the lease protocol may
      leave there when the batches' releases do not last. */
  lemma LeaseStepAgrees(cfg: Settings, leases: LeaseTable, step: Step, leases': LeaseTable)
    requires PgLeaseStep(cfg, leases, step, leases')
    ensures LeaseStep(cfg, false, leases, step, leases')
  {
    if step.ReleaseLease? {
      DeleteIsRelease(leases, step.name, step.owner);
    }
  }

  /** The batch gets its lease as the in-memory repository would grant it on the same table. */
  lemma GrantAgrees(cfg: Settings, leases: LeaseTable, step: Step)
    requires step.EvaluateSla?
    ensures PgGranted(cfg, leases, step) <==> Grantable(leases, SLA_LEASE, step.owner, step.now)
  {}

  // The database can answer.

  lemma RowReplyPossible(db: Rows, s: Store, step: Step)
    requires Represents(db, s.commands) && NoChoice(s.commands)
    requires step.Cancel? || step.Override? || step.Dispatch? || step.Reconcile?
    ensures PgRowReply(db, step, RowReply(s, step))
  {
    if step.Dispatch? {
      DispatchIsAnswered(db, s.commands, step.point);
    } else {
      GetAgrees(db, s.commands, step.commandId);
    }
  }

  lemma BatchPossible(db: Rows, s: Store, limit: nat, now: Time, eventIds: seq<Id>) returns (db': Rows)
    requires Represents(db, s.commands) && limit <= |eventIds|
    ensures PgBatchBody(db, limit, now, db') && Represents(db', SlaBody(s, limit, now, eventIds).commands)
  {
    hide Represents, SelectAll, SlaBody, PgBreached;
    var t, r := s.commands, ListOverdue(s.commands, now);
    ListedIsSelected(db, t, Overdue(now));
    TakeRows(t, r, RowsAt(t, r), limit);
    OverdueNoRepeats(t, now);
    TakeNoRepeats(r, limit);
    db' := PgBreached(db, RowsAt(t, Take(r, limit)), now);
    assert SelectTop(db, Overdue(now), limit, RowsAt(t, Take(r, limit)));
    PgBreachedRepresents(db, t, Take(r, limit), now);
    BodyFails(s, limit, now, eventIds);
  }

  lemma CommandStepPossible(cfg: Settings, db: Database, s: Store, step: Step) returns (rows': Rows)
    requires Represents(db.commands, s.commands) && NoChoice(s.commands) && ValidStep(s, step)
    ensures PgCommandStep(cfg, db, step, rows')
    ensures (step.EvaluateSla? ==> SameGrant(cfg, db, s, step) || Idle(s.commands, step.limit, step.now)) ==>
      Represents(rows', Next(cfg, s, step).commands)
  {
    hide Next, Represents, NoChoice, SlaBody, PgBatchBody, PgGranted, Idle;
    rows' := db.commands;
    match step {
      case Submit(req, now, draws) =>
        SubmitIsAnswered(db.commands, s.commands, ProbeOf(cfg, req, now, draws));
        var reply := SubmitReply(cfg, s.commands, req, now, draws);
        rows' := if Admitted(reply) then Insert(db.commands, reply.value.command) else db.commands;
        assert PgSubmit(cfg, db.commands, req, now, draws, reply, rows');
      case EvaluateSla(limit, now, owner, eventIds) =>
        BatchCommands(cfg, s, step);
        if Idle(s.commands, limit, now) {
          IdleBody(s, limit, now, eventIds);
        }
        if PgGranted(cfg, db.leases, step) {
          rows' := BatchPossible(db.commands, s, limit, now, eventIds);
        }
        return;
      case CheckSla(id, now, _) =>
        rows' := PgSlaWritten(db.commands, SlaDecision(SelectById(db.commands, id), now));
      case DeliverIncidents(_, _, _) =>
      case AcquireLease(_, _, _, _) =>
      case ReleaseLease(_, _, _) =>
      case _ =>
        RowReplyPossible(db.commands, s, step);
        rows' := PgWritten(db.commands, RowReply(s, step));
    }
    StepAgrees(cfg, db, s, step, rows');
  }

  lemma LeaseStepPossible(cfg: Settings, leases: LeaseTable, step: Step) returns (leases': LeaseTable)
    ensures PgLeaseStep(cfg, leases, step, leases')
  {
    match step
    case AcquireLease(name, owner, now, ttl) => leases' := UpsertLease(leases, name, owner, now, ttl).0;
    case EvaluateSla(_, now, owner, _) =>
      leases' := UpsertLease(leases, SLA_LEASE, owner, now, cfg.slaBatchLockTtlSeconds).0;
    case DeliverIncidents(_, now, owner) =>
      leases' := UpsertLease(leases, DELIVERY_LEASE, owner, now, cfg.incidentDeliveryLockTtlSeconds).0;
    case _ => leases' := leases;
  }

  /** Whatever its leases, a database that holds the in-memory commands can take any valid step; and
      it can take it to the in-memory commands, unless a batch with something to do gets its lease on
      one of the two only. */
  lemma DatabaseAnswers(cfg: Settings, db: Database, s: Store, step: Step) returns (db': Database)
    requires Represents(db.commands, s.commands) && NoChoice(s.commands) && ValidStep(s, step)
    ensures PgStep(cfg, db, step, db')
    ensures (step.EvaluateSla? ==> SameGrant(cfg, db, s, step) || Idle(s.commands, step.limit, step.now)) ==>
      Represents(db'.commands, Next(cfg, s, step).commands)
  {
    hide Next, Represents, NoChoice, PgLeaseStep, PgCommandStep, SameGrant, Idle;
    var rows' := CommandStepPossible(cfg, db, s, step);
    var leases' := LeaseStepPossible(cfg, db.leases, step);
    db' := Database(rows', leases');
  }
}
