/**
What the deadline checks and the delivery batch answer and change, column by column, told from the
store before and after.
*/
module BatchOutcomes {
  import opened Common
  import opened Entities
  import opened Ranking
  import opened CommandTable
  import opened UseCases
  import opened Pipeline
  import opened Runs
  import opened Lifecycle
  import opened Leases
  import opened Incidents
  import opened Delivery
  import opened Outcomes

  // Deadlines.

  predicate PastDeadline(c: Command, now: Time) {
    Active(c) && c.reconciliationDeadlineAt < now
  }

  /** c' is c failed at the time for missing its deadline, with every other column as it was. */
  predicate FailedFrom(c: Command, c': Command, now: Time) {
    && c'.status == Failed && c'.resultReason == Some(ReconciliationSlaBreach)
    && c'.completedAt == Some(now) && c'.updatedAt == now
    && c == c'.(status := c.status, resultReason := c.resultReason, completedAt := c.completedAt,
                updatedAt := c.updatedAt)
  }

  /** The incident tells of the command as it was, and is due at once. */
  predicate Tells(e: Incident, c: Command, now: Time, eventId: Id) {
    && e.eventId == eventId && e.commandId == c.commandId
    && e.organizationId == c.organizationId && e.siteId == c.siteId
    && e.payload.deadline == c.reconciliationDeadlineAt && e.payload.checkedAt == now
    && e.payload.commandPayload == c.payload
    && e.createdAt == e.nextAttemptAt == now && e.attemptCount == 0
    && e.deliveredAt == None && e.lastError == None
  }

  /** The step from es to es' raised an incident for the command. */
  ghost predicate Raises(es: seq<Incident>, es': seq<Incident>, id: Id) {
    exists k :: |es| <= k < |es'| && es'[k].commandId == id
  }

  /** check_sla fails its command if and only if that is past its deadline, and raises an incident if
      and only if it is a safety command besides. Its reply holds the row that is now in the table. */
  lemma CheckSlaOutcomes(cfg: Settings, s: Store, id: Id, now: Time, eventId: Id)
    requires DistinctIds(s.commands)
    ensures var reply, s' := SlaDecision(Get(s.commands, id), now), Next(cfg, s, CheckSla(id, now, eventId));
      && (reply == Err(NotFound) <==> !HasId(s.commands, id))
      && (reply.Ok? <==> HasId(s.commands, id))
      && (reply.Err? ==> s' == s)
      && s'.leases == s.leases
      && forall i: nat :: i < |s.commands| && s.commands[i].commandId == id ==>
           var c, v := s.commands[i], reply.value;
           && s'.commands == s.commands[i := v.command]
           && (v.breached <==> PastDeadline(c, now))
           && (if v.breached then FailedFrom(c, v.command, now) else v.command == c)
           && (v.alertRequired <==> v.breached && c.commandClass == SafetyCritical)
           && v.manualActionRequired == v.alertRequired
           && (v.alertRequired <==> Raises(s.incidents, s'.incidents, id))
           && (if v.alertRequired
               then exists e :: s'.incidents == s.incidents + [e] && Tells(e, c, now, eventId)
               else s'.incidents == s.incidents)
  {
    var t, s' := s.commands, Next(cfg, s, CheckSla(id, now, eventId));
    forall i: nat | i < |t| && t[i].commandId == id
      ensures Get(t, id) == Some(t[i]) && Find(t, id) == Some(i)
    {
      FindAt(t, i);
    }
    if i: nat :| i < |t| && t[i].commandId == id && PastDeadline(t[i], now) && t[i].commandClass == SafetyCritical {
      var e := SlaIncident(t[i], now, eventId);
      assert s'.incidents == s.incidents + [e] && Tells(e, t[i], now, eventId);
      assert s'.incidents[|s.incidents|] == e;
    }
  }

  /** Row j comes before row i: an earlier deadline, or the same one and inserted earlier. */
  predicate DeadlineBefore(t: Table, j: nat, i: nat)
    requires j < |t| && i < |t|
  {
    || t[j].reconciliationDeadlineAt < t[i].reconciliationDeadlineAt
    || (t[j].reconciliationDeadlineAt == t[i].reconciliationDeadlineAt && j < i)
  }

  /** The rows past their deadline that come before row i. */
  ghost function LateBefore(t: Table, now: Time, i: nat): set<nat>
    requires i < |t|
  {
    set j: nat | j < |t| && PastDeadline(t[j], now) && DeadlineBefore(t, j, i)
  }

  /** Row i is among the first rows, up to the limit, of those past their deadline. */
  ghost predicate TakenLate(t: Table, limit: nat, now: Time, i: nat) {
    i < |t| && PastDeadline(t[i], now) && |LateBefore(t, now, i)| < limit
  }

  lemma LateIsTaken(t: Table, limit: nat, now: Time, i: nat)
    ensures i in Take(ListOverdue(t, now), limit) <==> TakenLate(t, limit, now, i)
  {
    var m := MarksOf(t, Overdue(now));
    RankedTaken(m, limit, i);
    if Kept(m, i) {
      forall j: nat ensures j in Before(m, i) <==> j in LateBefore(t, now, i) {
        assert Kept(m, j) <==> j < |t| && PastDeadline(t[j], now);
      }
      assert Before(m, i) == LateBefore(t, now, i);
    }
  }

  /** The rows a deadline batch takes, in the order of its reply. */
  lemma LateOrder(t: Table, limit: nat, now: Time)
    ensures var r := Take(ListOverdue(t, now), limit);
      && (forall k :: 0 <= k < |r| ==> r[k] < |t|)
      && (forall j, k :: 0 <= j < k < |r| ==> DeadlineBefore(t, r[j], r[k]))
  {
    var m := MarksOf(t, Overdue(now));
    RankedIsRanking(m);
    var r := Take(ListOverdue(t, now), limit);
    forall j, k | 0 <= j < k < |r| ensures DeadlineBefore(t, r[j], r[k]) {
      assert Precedes(m, Ranked(m)[j], Ranked(m)[k]);
    }
  }

  /** One of the incidents from the given place on tells of the command. */
  ghost predicate ToldFrom(es: seq<Incident>, from: nat, c: Command, now: Time, eventId: Id) {
    exists j :: from <= j < |es| && Tells(es[j], c, now, eventId)
  }

  /** The incident tells of one of the safety rows listed, under the id drawn for it. */
  ghost predicate TellsListed(t: Table, r: seq<nat>, e: Incident, now: Time, eventIds: seq<Id>)
    requires |r| <= |eventIds| && forall k :: 0 <= k < |r| ==> r[k] < |t|
  {
    exists k :: 0 <= k < |r| && t[r[k]].commandClass == SafetyCritical && Tells(e, t[r[k]], now, eventIds[k])
  }

  /** Incidents are added for the safety rows listed, for all of them and for no other. */
  ghost predicate RaisedFor(
    t: Table, es: seq<Incident>, es': seq<Incident>, r: seq<nat>, now: Time, eventIds: seq<Id>)
    requires |r| <= |eventIds| && forall k :: 0 <= k < |r| ==> r[k] < |t|
  {
    && es <= es'
    && (forall k :: 0 <= k < |r| && t[r[k]].commandClass == SafetyCritical ==>
          ToldFrom(es', |es|, t[r[k]], now, eventIds[k]))
    && (forall j :: |es| <= j < |es'| ==> TellsListed(t, r, es'[j], now, eventIds))
  }

  lemma {:induction false} BreachRowsRaise(s: Store, r: seq<nat>, now: Time, eventIds: seq<Id>)
    requires NoRepeats(r) && |r| <= |eventIds| && forall k :: 0 <= k < |r| ==> r[k] < |s.commands|
    ensures RaisedFor(s.commands, s.incidents, BreachRows(s, r, now, eventIds).incidents, r, now, eventIds)
  {
    hide RaisedFor, BreachRow;
    if r == [] {
      NoneRaised(s, r, now, eventIds);
    } else {
      var k := |r| - 1;
      var mid := BreachRows(s, r[..k], now, eventIds);
      BreachRowsRaise(s, r[..k], now, eventIds);
      BreachRowsCommands(s, r[..k], now, eventIds);
      assert mid.commands[r[k]] == s.commands[r[k]];
      OneMoreRaised(s.commands, s.incidents, mid, r, k, now, eventIds);
    }
  }

  lemma NoneRaised(s: Store, r: seq<nat>, now: Time, eventIds: seq<Id>)
    requires r == []
    ensures RaisedFor(s.commands, s.incidents, s.incidents, r, now, eventIds)
  {}

  /** The next row listed adds its incident, or none. */
  lemma RowRaises(mid: Store, i: nat, now: Time, eventId: Id)
    requires i < |mid.commands|
    ensures var c, es, es' := mid.commands[i], mid.incidents, BreachRow(mid, i, now, eventId).incidents;
      if c.commandClass == SafetyCritical then |es'| == |es| + 1 && es <= es' && Tells(es'[|es|], c, now, eventId)
      else es' == es
  {}

  lemma ListedMore(t: Table, r: seq<nat>, k: nat, e: Incident, now: Time, eventIds: seq<Id>)
    requires k <= |r| <= |eventIds| && forall j :: 0 <= j < |r| ==> r[j] < |t|
    requires TellsListed(t, r[..k], e, now, eventIds)
    ensures TellsListed(t, r, e, now, eventIds)
  {
    hide Tells;
    var n :| 0 <= n < k && t[r[..k][n]].commandClass == SafetyCritical && Tells(e, t[r[..k][n]], now, eventIds[n]);
    assert r[n] == r[..k][n];
  }

  lemma ToldLater(es: seq<Incident>, es': seq<Incident>, from: nat, c: Command, now: Time, eventId: Id)
    requires es <= es' && ToldFrom(es, from, c, now, eventId)
    ensures ToldFrom(es', from, c, now, eventId)
  {
    hide Tells;
    var j :| from <= j < |es| && Tells(es[j], c, now, eventId);
    assert es'[j] == es[j];
  }

  lemma OneMoreRaised(
    t: Table, es: seq<Incident>, mid: Store, r: seq<nat>, k: nat, now: Time, eventIds: seq<Id>)
    requires k + 1 == |r| <= |eventIds| && forall j :: 0 <= j < |r| ==> r[j] < |t|
    requires |mid.commands| == |t| && mid.commands[r[k]] == t[r[k]]
    requires RaisedFor(t, es, mid.incidents, r[..k], now, eventIds)
    ensures RaisedFor(t, es, BreachRow(mid, r[k], now, eventIds[k]).incidents, r, now, eventIds)
  {
    var es', es'' := mid.incidents, BreachRow(mid, r[k], now, eventIds[k]).incidents;
    RowRaises(mid, r[k], now, eventIds[k]);
    hide Tells, BreachRow, ToldFrom, TellsListed;
    forall n | 0 <= n < |r| && t[r[n]].commandClass == SafetyCritical
      ensures ToldFrom(es'', |es|, t[r[n]], now, eventIds[n])
    {
      if n < k {
        assert r[..k][n] == r[n];
        ToldLater(es', es'', |es|, t[r[n]], now, eventIds[n]);
      } else {
        ToldAt(es'', |es|, |es'|, t[r[n]], now, eventIds[n]);
      }
    }
    forall j | |es| <= j < |es''| ensures TellsListed(t, r, es''[j], now, eventIds) {
      if j < |es'| {
        assert es''[j] == es'[j];
        ListedMore(t, r, k, es''[j], now, eventIds);
      } else {
        ListedAt(t, r, k, es''[j], now, eventIds);
      }
    }
  }

  lemma ToldAt(es: seq<Incident>, from: nat, j: nat, c: Command, now: Time, eventId: Id)
    requires from <= j < |es| && Tells(es[j], c, now, eventId)
    ensures ToldFrom(es, from, c, now, eventId)
  {}

  lemma ListedAt(t: Table, r: seq<nat>, k: nat, e: Incident, now: Time, eventIds: seq<Id>)
    requires k < |r| <= |eventIds| && forall j :: 0 <= j < |r| ==> r[j] < |t|
    requires t[r[k]].commandClass == SafetyCritical && Tells(e, t[r[k]], now, eventIds[k])
    ensures TellsListed(t, r, e, now, eventIds)
  {}

  /** An item tells of the row at i: failed, with an alert for a safety command. */
  ghost predicate ItemTells(t: Table, t': Table, i: nat, item: SlaCheckResult)
    requires i < |t| == |t'|
  {
    && item.breached && item.command == t'[i]
    && item.manualActionRequired == item.alertRequired
    && (item.alertRequired <==> t[i].commandClass == SafetyCritical)
  }

  /** A deadline batch is refused if and only if another owner's lease has not expired, and then does
      nothing. Otherwise it fails exactly the rows it has room for, those longest past their deadline;
      its items are those rows in that order; and each safety row among them, and no other, leaves an
      incident. r is the rows by place. */
  lemma SlaBatchOutcomes(cfg: Settings, s: Store, step: Step) returns (r: seq<nat>)
    requires step.EvaluateSla? && ValidStep(s, step) && DistinctIds(s.commands)
    ensures NoRepeats(r) && forall k :: 0 <= k < |r| ==> r[k] < |s.commands|
    ensures forall i: nat :: i in r <==> TakenLate(s.commands, step.limit, step.now, i)
    ensures forall j, k :: 0 <= j < k < |r| ==> DeadlineBefore(s.commands, r[j], r[k])
    ensures var reply, s', t := SlaBatchReply(s, step.limit, step.now, step.owner), Next(cfg, s, step), s.commands;
      && (reply.lockAcquired <==> LeaseOpen(s.leases, SLA_LEASE, step.owner, step.now))
      && (!reply.lockAcquired ==> reply.items == [] && s' == s)
      && (reply.lockAcquired ==>
            && |s'.commands| == |t| && |reply.items| == |r| <= |step.eventIds|
            && (forall i: nat :: i < |t| ==>
                  if i in r then FailedFrom(t[i], s'.commands[i], step.now) else s'.commands[i] == t[i])
            && (forall k :: 0 <= k < |r| ==> ItemTells(t, s'.commands, r[k], reply.items[k]))
            && RaisedFor(t, s.incidents, s'.incidents, r, step.now, step.eventIds)
            && s'.leases == s.leases - {SLA_LEASE})
  {
    var t := s.commands;
    r := Take(ListOverdue(t, step.now), step.limit);
    OverdueTaken(t, step.limit, step.now);
    LateOrder(t, step.limit, step.now);
    forall i: nat ensures i in r <==> TakenLate(t, step.limit, step.now, i) {
      LateIsTaken(t, step.limit, step.now, i);
    }
    hide TakenLate, ListOverdue, Take;
    if Grantable(s.leases, SLA_LEASE, step.owner, step.now) {
      var bare := s.(leases := s.leases - {SLA_LEASE});
      SlaBatchBody(cfg, s, step.limit, step.now, step.owner, step.eventIds);
      BreachRowsCommands(bare, r, step.now, step.eventIds);
      BreachRowsRaise(bare, r, step.now, step.eventIds);
    }
  }

  /** The alerts of a batch are for the commands it raised incidents for. */
  lemma AlertsAreRaised(cfg: Settings, s: Store, step: Step, item: SlaCheckResult)
    requires step.EvaluateSla? && ValidStep(s, step) && DistinctIds(s.commands)
    requires item in SlaBatchReply(s, step.limit, step.now, step.owner).items
    ensures item.alertRequired <==> Raises(s.incidents, Next(cfg, s, step).incidents, item.command.commandId)
  {
    hide Next, SlaBatchReply, RaisedFor, TakenLate;
    var t, s', reply := s.commands, Next(cfg, s, step), SlaBatchReply(s, step.limit, step.now, step.owner);
    var r := SlaBatchOutcomes(cfg, s, step);
    var k :| 0 <= k < |reply.items| && reply.items[k] == item;
    assert ItemTells(t, s'.commands, r[k], item);
    assert r[k] in r;
    RaisedExactly(t, s.incidents, s'.incidents, r, k, step.now, step.eventIds);
  }

  lemma RaisedExactly(
    t: Table, es: seq<Incident>, es': seq<Incident>, r: seq<nat>, k: nat, now: Time, eventIds: seq<Id>)
    requires DistinctIds(t) && k < |r| <= |eventIds| && forall j :: 0 <= j < |r| ==> r[j] < |t|
    requires RaisedFor(t, es, es', r, now, eventIds)
    ensures Raises(es, es', t[r[k]].commandId) <==> t[r[k]].commandClass == SafetyCritical
  {
    if Raises(es, es', t[r[k]].commandId) {
      var j :| |es| <= j < |es'| && es'[j].commandId == t[r[k]].commandId;
      assert TellsListed(t, r, es'[j], now, eventIds);
      var n :| 0 <= n < |r| && t[r[n]].commandClass == SafetyCritical && Tells(es'[j], t[r[n]], now, eventIds[n]);
      assert t[r[n]].commandId == t[r[k]].commandId;
      assert r[n] == r[k];
    }
    if t[r[k]].commandClass == SafetyCritical {
      assert ToldFrom(es', |es|, t[r[k]], now, eventIds[k]);
      var j :| |es| <= j < |es'| && Tells(es'[j], t[r[k]], now, eventIds[k]);
      assert es'[j].commandId == t[r[k]].commandId;
    }
  }

  // Delivery.

  predicate Waiting(e: Incident, now: Time) {
    e.deliveredAt == None && e.nextAttemptAt <= now
  }

  predicate DueBefore(es: seq<Incident>, j: nat, i: nat)
    requires j < |es| && i < |es|
  {
    es[j].nextAttemptAt < es[i].nextAttemptAt || (es[j].nextAttemptAt == es[i].nextAttemptAt && j < i)
  }

  /** The waiting incidents that come before incident i. */
  ghost function WaitingBefore(es: seq<Incident>, now: Time, i: nat): set<nat>
    requires i < |es|
  {
    set j: nat | j < |es| && Waiting(es[j], now) && DueBefore(es, j, i)
  }

  /** Incident i is among the first, up to the limit, of those waiting. */
  ghost predicate TakenWaiting(es: seq<Incident>, limit: nat, now: Time, i: nat) {
    i < |es| && Waiting(es[i], now) && |WaitingBefore(es, now, i)| < limit
  }

  lemma WaitingIsTaken(es: seq<Incident>, limit: nat, now: Time, i: nat)
    ensures i in Take(ListDue(es, now), limit) <==> TakenWaiting(es, limit, now, i)
  {
    var m := DueMarks(es, now);
    RankedTaken(m, limit, i);
    if Kept(m, i) {
      forall j: nat ensures j in Before(m, i) <==> j in WaitingBefore(es, now, i) {
        assert Kept(m, j) <==> j < |es| && Waiting(es[j], now);
      }
      assert Before(m, i) == WaitingBefore(es, now, i);
    }
  }

  /** The delay after so many failures and one more: base doubled each time, up to max. */
  function Delay(cfg: Settings, failures: nat): int {
    var doubled := cfg.incidentDeliveryBackoffBaseSeconds * Pow2(failures);
    if doubled <= cfg.incidentDeliveryBackoffMaxSeconds then doubled else cfg.incidentDeliveryBackoffMaxSeconds
  }

  /** e' is e after a failed delivery at the time, with every other column as it was. */
  predicate PutOff(cfg: Settings, e: Incident, e': Incident, now: Time) {
    && e'.attemptCount == e.attemptCount + 1
    && e'.nextAttemptAt == now + Delay(cfg, e.attemptCount) * SECOND
    && e'.lastError == Some("simulated_delivery_failure")
    && e == e'.(attemptCount := e.attemptCount, nextAttemptAt := e.nextAttemptAt, lastError := e.lastError)
  }

  /** e' is e delivered at the time, with every other column as it was. */
  predicate DeliveredFrom(e: Incident, e': Incident, now: Time) {
    && e'.deliveredAt == Some(now) && e'.lastError == None
    && e == e'.(deliveredAt := e.deliveredAt, lastError := e.lastError)
  }

  /** What a delivery batch does to incident i. */
  ghost predicate Handled(cfg: Settings, es: seq<Incident>, es': seq<Incident>, limit: nat, now: Time, i: nat)
    requires i < |es| == |es'|
  {
    if !TakenWaiting(es, limit, now, i) then es'[i] == es[i]
    else if es[i].payload.commandPayload.simulateDeliveryFailure then PutOff(cfg, es[i], es'[i], now)
    else DeliveredFrom(es[i], es'[i], now)
  }

  ghost function NewlyDelivered(es: seq<Incident>, es': seq<Incident>): set<nat>
    requires |es| == |es'|
  {
    set i: nat | i < |es| && es[i].deliveredAt == None && es'[i].deliveredAt != None
  }

  ghost function NewlyFailed(es: seq<Incident>, es': seq<Incident>): set<nat>
    requires |es| == |es'|
  {
    set i: nat | i < |es| && es'[i].attemptCount > es[i].attemptCount
  }

  lemma BodyHandles(cfg: Settings, s: Store, limit: nat, now: Time)
    ensures var es, es' := s.incidents, DeliveryBody(cfg, s, limit, now).incidents;
      && |es'| == |es|
      && forall i: nat :: i < |es| ==>
           && Handled(cfg, es, es', limit, now, i)
           && (i in Take(ListDue(es, now), limit) <==> TakenWaiting(es, limit, now, i))
  {
    var es := s.incidents;
    DueTaken(es, limit, now);
    AttemptRowsAt(cfg, es, Take(ListDue(es, now), limit), now);
    forall i: nat | i < |es|
      ensures Handled(cfg, es, DeliveryBody(cfg, s, limit, now).incidents, limit, now, i)
      ensures i in Take(ListDue(es, now), limit) <==> TakenWaiting(es, limit, now, i)
    {
      hide TakenWaiting, Pow2;
      WaitingIsTaken(es, limit, now, i);
    }
  }

  /** The two counts are the incidents delivered and put off. */
  lemma CountsTell(cfg: Settings, es: seq<Incident>, es': seq<Incident>, limit: nat, now: Time)
    requires |es'| == |es| && forall i: nat :: i < |es| ==>
      && Handled(cfg, es, es', limit, now, i)
      && (i in Take(ListDue(es, now), limit) <==> TakenWaiting(es, limit, now, i))
    ensures var r := Take(ListDue(es, now), limit);
      && Count(DeliveredFlags(es, r)) == |NewlyDelivered(es, es')|
      && Count(FailedFlags(es, r)) == |NewlyFailed(es, es')|
  {
    var r := Take(ListDue(es, now), limit);
    DueTaken(es, limit, now);
    hide ListDue, Take, Delay;
    var fails := seq(|es|, i requires 0 <= i < |es| => FailsDelivery(es[i]));
    var delivers := seq(|es|, i requires 0 <= i < |es| => !FailsDelivery(es[i]));
    assert Picked(r, fails) == FailedFlags(es, r) && Picked(r, delivers) == DeliveredFlags(es, r);
    PickedCount(r, fails);
    PickedCount(r, delivers);
    forall i: nat
      ensures i in Among(r, fails) <==> i in NewlyFailed(es, es')
      ensures i in Among(r, delivers) <==> i in NewlyDelivered(es, es')
    {
      if i < |es| {
        assert Handled(cfg, es, es', limit, now, i);
      }
    }
    assert Among(r, fails) == NewlyFailed(es, es') && Among(r, delivers) == NewlyDelivered(es, es');
  }

  /** A delivery batch is refused if and only if another owner's lease has not expired, and then does
      nothing. Otherwise it handles exactly the incidents it has room for, those due longest: one that
      is to fail is put off by its delay from now, any other is delivered. Its counts tell how many. */
  lemma DeliveryOutcomes(cfg: Settings, s: Store, limit: nat, now: Time, owner: Id)
    ensures var reply, s' := DeliveryReply(s, limit, now, owner), Next(cfg, s, DeliverIncidents(limit, now, owner));
      && s'.commands == s.commands && |s'.incidents| == |s.incidents|
      && (reply.lockAcquired <==> LeaseOpen(s.leases, DELIVERY_LEASE, owner, now))
      && (!reply.lockAcquired ==> s' == s && reply.deliveredCount == reply.failedCount == 0)
      && (reply.lockAcquired ==>
            && (forall i: nat :: i < |s.incidents| ==> Handled(cfg, s.incidents, s'.incidents, limit, now, i))
            && reply.deliveredCount == |NewlyDelivered(s.incidents, s'.incidents)|
            && reply.failedCount == |NewlyFailed(s.incidents, s'.incidents)|
            && s'.leases == s.leases - {DELIVERY_LEASE})
  {
    if Grantable(s.leases, DELIVERY_LEASE, owner, now) {
      var bare := s.(leases := s.leases - {DELIVERY_LEASE});
      DeliveryBatchBody(cfg, s, limit, now, owner);
      BodyHandles(cfg, bare, limit, now);
      hide Handled, ListDue, Take, TakenWaiting;
      CountsTell(cfg, s.incidents, DeliveryBody(cfg, bare, limit, now).incidents, limit, now);
    }
  }

  // Over runs.

  lemma StepPutsOff(cfg: Settings, s: Store, step: Step, i: nat)
    requires i < |s.incidents|
    ensures var e, es' := s.incidents[i], Next(cfg, s, step).incidents;
      && i < |es'|
      && es'[i].nextAttemptAt >= e.nextAttemptAt
      && (es'[i].attemptCount > e.attemptCount ==> e.nextAttemptAt <= step.now && PutOff(cfg, e, es'[i], step.now))
  {
    hide Next;
    StepMovesIncidents(cfg, s, step);
    assert IncidentMoves(cfg, s.incidents[i], Next(cfg, s, step).incidents[i], step);
  }

  lemma {:induction false} NextAttemptRises(cfg: Settings, r: Run, j: nat, k: nat, i: nat)
    requires IsRun(cfg, r) && j <= k <= |r.steps| && i < |r.states[j].incidents|
    ensures i < |r.states[k].incidents|
    ensures r.states[k].incidents[i].nextAttemptAt >= r.states[j].incidents[i].nextAttemptAt
  {
    hide Next;
    if j < k {
      NextAttemptRises(cfg, r, j, k - 1, i);
      assert Takes(cfg, r, k - 1);
      StepPutsOff(cfg, r.states[k - 1], r.steps[k - 1], i);
    }
  }

  /** Step k is a failed attempt of the incident at position i. */
  ghost predicate FailsAt(r: Run, k: nat, i: nat) {
    && k < |r.steps| && k + 1 < |r.states|
    && i < |r.states[k].incidents| && i < |r.states[k + 1].incidents|
    && r.states[k + 1].incidents[i].attemptCount > r.states[k].incidents[i].attemptCount
  }

  /** Two failed attempts of one incident are at least the first one's delay apart, whatever the clock
      does in between. */
  lemma FailuresSpaced(cfg: Settings, r: Run, j: nat, k: nat, i: nat)
    requires IsRun(cfg, r) && j < k && FailsAt(r, j, i) && FailsAt(r, k, i)
    ensures r.steps[k].now >= r.steps[j].now + Delay(cfg, r.states[j].incidents[i].attemptCount) * SECOND
  {
    hide Next, Delay;
    assert Takes(cfg, r, j) && Takes(cfg, r, k);
    StepPutsOff(cfg, r.states[j], r.steps[j], i);
    NextAttemptRises(cfg, r, j + 1, k, i);
    StepPutsOff(cfg, r.states[k], r.steps[k], i);
  }
}
