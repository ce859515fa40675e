/** Incident delivery: retries keep to the schedule, and batches compose and drain. */
module Delivery {
  import opened Common
  import opened Entities
  import opened Ranking
  import opened CommandTable
  import opened UseCases
  import opened Pipeline
  import opened Runs
  import opened Incidents
  import opened BackoffSchedule

  // One batch.

  /** The batch attempts exactly the listed incidents, each once. */
  lemma {:induction false} AttemptRowsAt(cfg: Settings, es: seq<Incident>, r: seq<nat>, now: Time)
    requires NoRepeats(r) && forall k :: 0 <= k < |r| ==> r[k] < |es|
    ensures forall i :: 0 <= i < |es| ==>
      AttemptRows(cfg, es, r, now)[i] == if i in r then Attempted(cfg, es[i], now) else es[i]
  {
    if r != [] {
      var k := |r| - 1;
      AttemptRowsAt(cfg, es, r[..k], now);
      assert r == r[..k] + [r[k]];
      assert r[k] !in r[..k];
    }
  }

  lemma DueListed(es: seq<Incident>, now: Time)
    ensures forall i: nat :: i in ListDue(es, now) <==> i < |es| && IsDue(es[i], now)
    ensures NoRepeats(ListDue(es, now))
  {
    var m := DueMarks(es, now);
    RankedIsRanking(m);
    forall i: nat ensures i in Ranked(m) <==> i < |es| && IsDue(es[i], now) {
      assert Kept(m, i) <==> i < |es| && IsDue(es[i], now);
    }
    forall j, k | 0 <= j < k < |Ranked(m)| ensures Ranked(m)[j] != Ranked(m)[k] {
      assert Precedes(m, Ranked(m)[j], Ranked(m)[k]);
    }
  }

  lemma DueTaken(es: seq<Incident>, limit: nat, now: Time)
    ensures var r := Take(ListDue(es, now), limit);
      NoRepeats(r) && forall i: nat :: i in r ==> i < |es| && IsDue(es[i], now)
  {
    DueListed(es, now);
    var r := Take(ListDue(es, now), limit);
    forall i: nat | i in r ensures i in ListDue(es, now) {
    }
  }

  /** An attempt takes the incident out of the due list: it is delivered, or put off. */
  lemma AttemptedNotDue(cfg: Settings, e: Incident, now: Time)
    ensures !IsDue(Attempted(cfg, e, now), now)
  {}

  /** After a batch, what is due is the rest of what was due, in the same order. */
  lemma DueAfterBody(cfg: Settings, s: Store, limit: nat, now: Time)
    ensures ListDue(DeliveryBody(cfg, s, limit, now).incidents, now)
         == ListDue(s.incidents, now)[|Take(ListDue(s.incidents, now), limit)|..]
  {
    var es := s.incidents;
    var m := DueMarks(es, now);
    var r := Take(Ranked(m), limit);
    assert r == Ranked(m)[..|r|];
    RankedInRange(m);
    DueTaken(es, limit, now);
    AttemptRowsAt(cfg, es, r, now);
    var es' := AttemptRows(cfg, es, r, now);
    forall i | 0 <= i < |es|
      ensures DueMarks(es', now)[i] == if i in Ranked(m)[..|r|] then None else m[i]
    {
      AttemptedNotDue(cfg, es[i], now);
    }
    RankedDrop(m, |r|, DueMarks(es', now));
  }

  /** A batch with too small a limit takes the incidents that were due first. */
  lemma BatchTakesFirstDue(es: seq<Incident>, limit: nat, now: Time, i: nat, j: nat)
    requires i in Take(ListDue(es, now), limit)
    requires j < |es| && IsDue(es[j], now) && j !in Take(ListDue(es, now), limit)
    ensures i < |es| && IsDue(es[i], now)
    ensures es[i].nextAttemptAt < es[j].nextAttemptAt || (es[i].nextAttemptAt == es[j].nextAttemptAt && i < j)
  {
    var m := DueMarks(es, now);
    var r := Take(Ranked(m), limit);
    assert r == Ranked(m)[..|r|];
    assert Kept(m, j);
    RankedFront(m, |r|, i, j);
  }

  function DeliveredFlags(es: seq<Incident>, r: seq<nat>): (f: seq<bool>)
    requires forall k :: 0 <= k < |r| ==> r[k] < |es|
    ensures |f| == |r|
  {
    seq(|r|, k requires 0 <= k < |r| => !FailsDelivery(es[r[k]]))
  }

  function FailedFlags(es: seq<Incident>, r: seq<nat>): (f: seq<bool>)
    requires forall k :: 0 <= k < |r| ==> r[k] < |es|
    ensures |f| == |r|
  {
    seq(|r|, k requires 0 <= k < |r| => FailsDelivery(es[r[k]]))
  }

  /** The reply of a delivery batch. */
  function DeliveryReply(s: Store, limit: nat, now: Time, owner: Id): DeliveryBatchResult {
    if !Grantable(s.leases, DELIVERY_LEASE, owner, now) then DeliveryBatchResult(false, 0, 0)
    else
      var r := Take(ListDue(s.incidents, now), limit);
      DeliveryBatchResult(true, Count(DeliveredFlags(s.incidents, r)), Count(FailedFlags(s.incidents, r)))
  }

  lemma {:induction false} CountAll(n: nat)
    ensures Count(seq(n, _ => true)) == n
  {
    if n > 0 {
      CountAll(n - 1);
      assert seq(n, _ => true)[..n - 1] == seq(n - 1, _ => true);
    }
  }

  /** The two counts add up to the incidents taken, min(limit, due), and the due list shrinks by
      exactly that. */
  lemma DeliveryCounts(cfg: Settings, s: Store, limit: nat, now: Time, owner: Id)
    requires Grantable(s.leases, DELIVERY_LEASE, owner, now)
    ensures var reply := DeliveryReply(s, limit, now, owner);
      var taken := reply.deliveredCount + reply.failedCount;
      && taken == (if limit < |ListDue(s.incidents, now)| then limit else |ListDue(s.incidents, now)|)
      && |ListDue(DeliveryBatch(cfg, s, limit, now, owner).incidents, now)| == |ListDue(s.incidents, now)| - taken
  {
    var r := Take(ListDue(s.incidents, now), limit);
    CountSplit(seq(|r|, _ => true), DeliveredFlags(s.incidents, r), FailedFlags(s.incidents, r));
    CountAll(|r|);
    DueAfterBody(cfg, s, limit, now);
  }

  // Cutting a batch in two.

  lemma {:induction false} AttemptRowsConcat(cfg: Settings, es: seq<Incident>, a: seq<nat>, b: seq<nat>, now: Time)
    requires forall k :: 0 <= k < |a| ==> a[k] < |es|
    requires forall k :: 0 <= k < |b| ==> b[k] < |es|
    ensures AttemptRows(cfg, es, a + b, now) == AttemptRows(cfg, AttemptRows(cfg, es, a, now), b, now)
  {
    if b == [] {
      assert a + b == a;
    } else {
      var k := |b| - 1;
      AttemptRowsConcat(cfg, es, a, b[..k], now);
      assert (a + b)[..|a| + k] == a + b[..k];
    }
  }

  lemma SplitDeliveryBody(cfg: Settings, s: Store, a: nat, b: nat, now: Time)
    ensures DeliveryBody(cfg, DeliveryBody(cfg, s, a, now), b, now) == DeliveryBody(cfg, s, a + b, now)
  {
    var r := ListDue(s.incidents, now);
    var first := Take(r, a);
    DueAfterBody(cfg, s, a, now);
    TakeTwice(r, a, b);
    AttemptRowsConcat(cfg, s.incidents, first, Take(r[|first|..], b), now);
  }

  /** Under the lease the batch is its body, and the lease is gone afterwards. */
  lemma DeliveryBatchBody(cfg: Settings, s: Store, limit: nat, now: Time, owner: Id)
    requires Grantable(s.leases, DELIVERY_LEASE, owner, now)
    ensures DeliveryBatch(cfg, s, limit, now, owner)
         == DeliveryBody(cfg, s.(leases := s.leases - {DELIVERY_LEASE}), limit, now)
  {
    assert s.leases[DELIVERY_LEASE := Lease(owner, now + cfg.incidentDeliveryLockTtlSeconds * SECOND)]
           - {DELIVERY_LEASE} == s.leases - {DELIVERY_LEASE};
  }

  /** At one time, a batch of a and then a batch of b leave the store as a batch of a + b does. */
  lemma SplitDeliveryBatch(cfg: Settings, s: Store, a: nat, b: nat, now: Time, o1: Id, o2: Id, o: Id)
    requires DELIVERY_LEASE in s.leases ==> s.leases[DELIVERY_LEASE].ownerId !in {o1, o2, o}
    ensures DeliveryBatch(cfg, DeliveryBatch(cfg, s, a, now, o1), b, now, o2)
         == DeliveryBatch(cfg, s, a + b, now, o)
  {
    if Grantable(s.leases, DELIVERY_LEASE, o, now) {
      var bare := s.(leases := s.leases - {DELIVERY_LEASE});
      DeliveryBatchBody(cfg, s, a, now, o1);
      DeliveryBatchBody(cfg, DeliveryBatch(cfg, s, a, now, o1), b, now, o2);
      DeliveryBatchBody(cfg, s, a + b, now, o);
      var mid := DeliveryBody(cfg, bare, a, now);
      assert mid.(leases := mid.leases - {DELIVERY_LEASE}) == mid;
      SplitDeliveryBody(cfg, bare, a, b, now);
    }
  }

  /** Batches at one time, one per owner. */
  function DeliveryBatches(cfg: Settings, s: Store, limit: nat, now: Time, owners: seq<Id>): Store {
    if owners == [] then s
    else
      var last := |owners| - 1;
      DeliveryBatch(cfg, DeliveryBatches(cfg, s, limit, now, owners[..last]), limit, now, owners[last])
  }

  function Min(a: int, b: int): int {
    if a < b then a else b
  }

  lemma DropMore<T>(r: seq<T>, done: nat, limit: nat)
    ensures var rest := r[Min(done, |r|)..];
      rest[|Take(rest, limit)|..] == r[Min(done + limit, |r|)..]
  {}

  /** One more batch, at the same time and under a free lease. */
  lemma BatchLeavesRest(cfg: Settings, s: Store, limit: nat, now: Time, owner: Id, due: seq<nat>, done: nat)
    requires Grantable(s.leases, DELIVERY_LEASE, owner, now)
    requires ListDue(s.incidents, now) == due[Min(done, |due|)..]
    ensures var s' := DeliveryBatch(cfg, s, limit, now, owner);
      && DELIVERY_LEASE !in s'.leases
      && ListDue(s'.incidents, now) == due[Min(done + limit, |due|)..]
  {
    var bare := s.(leases := s.leases - {DELIVERY_LEASE});
    DeliveryBatchBody(cfg, s, limit, now, owner);
    DueAfterBody(cfg, bare, limit, now);
    DropMore(due, done, limit);
  }

  lemma {:induction false} BatchesLeaveRest(cfg: Settings, s: Store, limit: nat, now: Time, owners: seq<Id>)
    requires forall owner :: Grantable(s.leases, DELIVERY_LEASE, owner, now)
    ensures var s' := DeliveryBatches(cfg, s, limit, now, owners);
      && (forall owner :: Grantable(s'.leases, DELIVERY_LEASE, owner, now))
      && ListDue(s'.incidents, now)
         == ListDue(s.incidents, now)[Min(Product(|owners|, limit), |ListDue(s.incidents, now)|)..]
  {
    if owners != [] {
      var last := |owners| - 1;
      BatchesLeaveRest(cfg, s, limit, now, owners[..last]);
      BatchLeavesRest(cfg, DeliveryBatches(cfg, s, limit, now, owners[..last]), limit, now, owners[last],
                      ListDue(s.incidents, now), Product(last, limit));
      assert Product(|owners|, limit) == Product(last, limit) + limit;
    }
  }

  function Product(m: nat, limit: nat): (n: nat)
    ensures n == m * limit
  {
    if m == 0 then 0 else Product(m - 1, limit) + limit
  }

  /** n due incidents are gone after m batches exactly when m * limit >= n: it takes the ceiling of
      n / limit batches, and no fewer. */
  lemma BatchesDrain(cfg: Settings, s: Store, limit: nat, now: Time, owners: seq<Id>)
    requires forall owner :: Grantable(s.leases, DELIVERY_LEASE, owner, now)
    ensures (forall k :: 0 <= k < |DeliveryBatches(cfg, s, limit, now, owners).incidents| ==>
               !IsDue(DeliveryBatches(cfg, s, limit, now, owners).incidents[k], now))
       <==> |owners| * limit >= |ListDue(s.incidents, now)|
  {
    var es' := DeliveryBatches(cfg, s, limit, now, owners).incidents;
    BatchesLeaveRest(cfg, s, limit, now, owners);
    DueListed(es', now);
    if |owners| * limit < |ListDue(s.incidents, now)| {
      assert ListDue(es', now)[0] in ListDue(es', now);
    }
  }

  // Over runs.

  /** What a step may do to an incident that is there already. */
  predicate IncidentMoves(cfg: Settings, e: Incident, e': Incident, step: Step) {
    e' == e || (step.DeliverIncidents? && IsDue(e, step.now) && e' == Attempted(cfg, e, step.now))
  }

  predicate IsNew(e: Incident) {
    e.attemptCount == 0 && e.nextAttemptAt == e.createdAt && e.deliveredAt.None? && e.lastError.None?
  }

  ghost predicate IncidentsMove(cfg: Settings, es: seq<Incident>, es': seq<Incident>, step: Step) {
    && |es| <= |es'|
    && (forall k :: 0 <= k < |es| ==> IncidentMoves(cfg, es[k], es'[k], step))
    && (forall k :: |es| <= k < |es'| ==> IsNew(es'[k]))
  }

  lemma {:induction false} BreachRowsAppend(s: Store, r: seq<nat>, now: Time, eventIds: seq<Id>)
    requires |r| <= |eventIds| && forall k :: 0 <= k < |r| ==> r[k] < |s.commands|
    ensures var es, es' := s.incidents, BreachRows(s, r, now, eventIds).incidents;
      && |es| <= |es'| && es'[..|es|] == es
      && forall k :: |es| <= k < |es'| ==> IsNew(es'[k])
  {
    if r != [] {
      var last := |r| - 1;
      BreachRowsAppend(s, r[..last], now, eventIds);
    }
  }

  lemma StepMovesIncidents(cfg: Settings, s: Store, step: Step)
    ensures IncidentsMove(cfg, s.incidents, Next(cfg, s, step).incidents, step)
  {
    hide SubmitReply, RowReply, Put, Written, Find, Backoff, ListOverdue;
    match step
    case EvaluateSla(limit, now, owner, eventIds) =>
      if limit <= |eventIds| && Grantable(s.leases, SLA_LEASE, owner, now) {
        var held := s.(leases := Acquired(s.leases, SLA_LEASE, owner, now, cfg.slaBatchLockTtlSeconds));
        BreachRowsAppend(held, Take(ListOverdue(s.commands, now), limit), now, eventIds);
        assert forall k :: 0 <= k < |s.incidents| ==>
          s.incidents[k] == SlaBody(held, limit, now, eventIds).incidents[..|s.incidents|][k];
      }
    case DeliverIncidents(limit, now, owner) =>
      DueTaken(s.incidents, limit, now);
      AttemptRowsAt(cfg, s.incidents, Take(ListDue(s.incidents, now), limit), now);
    case _ =>
  }

  /** No attempt came early: the next one is due no sooner than all the delays so far allow, and a
      delivery no sooner than it was due. An incident that fails is never delivered, and carries the
      error of its last attempt; one that does not fail is never put off. */
  predicate OnSchedule(cfg: Settings, e: Incident) {
    && e.nextAttemptAt >= e.createdAt + BackoffSum(cfg, e.attemptCount) * SECOND
    && (e.deliveredAt.Some? ==> e.deliveredAt.value >= e.nextAttemptAt)
    && (FailsDelivery(e) ==> e.deliveredAt.None?)
    && (!FailsDelivery(e) ==> e.attemptCount == 0 && e.nextAttemptAt == e.createdAt)
    && e.lastError == if e.attemptCount == 0 then None else Some(DELIVERY_ERROR)
  }

  ghost predicate AllOnSchedule(cfg: Settings, es: seq<Incident>) {
    forall k :: 0 <= k < |es| ==> OnSchedule(cfg, es[k])
  }

  lemma AttemptOnSchedule(cfg: Settings, e: Incident, now: Time)
    requires OnSchedule(cfg, e) && IsDue(e, now)
    ensures OnSchedule(cfg, Attempted(cfg, e, now))
  {
    if FailsDelivery(e) {
      var n := e.attemptCount + 1;
      assert BackoffSum(cfg, n) * SECOND == BackoffSum(cfg, e.attemptCount) * SECOND + Backoff(cfg, n) * SECOND;
    }
  }

  lemma MovesKeepSchedule(cfg: Settings, es: seq<Incident>, es': seq<Incident>, step: Step)
    requires AllOnSchedule(cfg, es) && IncidentsMove(cfg, es, es', step)
    ensures AllOnSchedule(cfg, es')
  {
    forall k | 0 <= k < |es'| ensures OnSchedule(cfg, es'[k]) {
      if k < |es| && es'[k] != es[k] {
        assert IncidentMoves(cfg, es[k], es'[k], step);
        AttemptOnSchedule(cfg, es[k], step.now);
      }
    }
  }

  /** In every reachable state every incident keeps to the schedule, whatever the clock does. */
  lemma {:induction false} ReachableOnSchedule(cfg: Settings, r: Run, k: nat)
    requires FromEmpty(cfg, r) && k <= |r.steps|
    ensures AllOnSchedule(cfg, r.states[k].incidents)
  {
    hide Next;
    if k > 0 {
      ReachableOnSchedule(cfg, r, k - 1);
      assert Takes(cfg, r, k - 1);
      StepMovesIncidents(cfg, r.states[k - 1], r.steps[k - 1]);
      MovesKeepSchedule(cfg, r.states[k - 1].incidents, r.states[k].incidents, r.steps[k - 1]);
    }
  }

  /** Every delivery among the first k steps reads a clock of at most `now`. */
  ghost predicate DeliveredBy(r: Run, k: nat, now: Time) {
    forall j :: 0 <= j < k && j < |r.steps| && r.steps[j].DeliverIncidents? ==> r.steps[j].now <= now
  }

  /** The last failed attempt was made by the given time. */
  predicate LastFailedBy(cfg: Settings, e: Incident, now: Time) {
    e.attemptCount > 0 ==> e.nextAttemptAt <= now + Backoff(cfg, e.attemptCount) * SECOND
  }

  ghost predicate AllLastFailedBy(cfg: Settings, es: seq<Incident>, now: Time) {
    forall k :: 0 <= k < |es| ==> LastFailedBy(cfg, es[k], now)
  }

  lemma {:induction false} RunLastFailedBy(cfg: Settings, r: Run, k: nat, now: Time)
    requires FromEmpty(cfg, r) && k <= |r.steps| && DeliveredBy(r, k, now)
    ensures AllLastFailedBy(cfg, r.states[k].incidents, now)
  {
    hide Next;
    if k > 0 {
      RunLastFailedBy(cfg, r, k - 1, now);
      assert Takes(cfg, r, k - 1);
      StepMovesIncidents(cfg, r.states[k - 1], r.steps[k - 1]);
      MovesLastFailedBy(cfg, r.states[k - 1].incidents, r.states[k].incidents, r.steps[k - 1], now);
    }
  }

  lemma MovesLastFailedBy(cfg: Settings, es: seq<Incident>, es': seq<Incident>, step: Step, now: Time)
    requires IncidentsMove(cfg, es, es', step) && (step.DeliverIncidents? ==> step.now <= now)
    requires AllLastFailedBy(cfg, es, now)
    ensures AllLastFailedBy(cfg, es', now)
  {
    forall k | 0 <= k < |es'| ensures LastFailedBy(cfg, es'[k], now) {
      if k < |es| {
        assert IncidentMoves(cfg, es[k], es'[k], step) && LastFailedBy(cfg, es[k], now);
      }
    }
  }

  lemma DelaysWithinElapsed(cfg: Settings, r: Run, n: nat, now: Time, k: nat)
    requires FromEmpty(cfg, r) && n <= |r.steps| && DeliveredBy(r, n, now)
    requires k < |r.states[n].incidents| && r.states[n].incidents[k].attemptCount > 0
    ensures var e := r.states[n].incidents[k];
      ClosedSum(cfg.incidentDeliveryBackoffBaseSeconds, cfg.incidentDeliveryBackoffMaxSeconds, e.attemptCount - 1)
      * SECOND <= now - e.createdAt
  {
    var e := r.states[n].incidents[k];
    ReachableOnSchedule(cfg, r, n);
    RunLastFailedBy(cfg, r, n, now);
    assert OnSchedule(cfg, e) && LastFailedBy(cfg, e, now);
    BackoffClosedForm(cfg, e.attemptCount - 1);
    assert BackoffSum(cfg, e.attemptCount) * SECOND
        == BackoffSum(cfg, e.attemptCount - 1) * SECOND + Backoff(cfg, e.attemptCount) * SECOND;
  }

  /** How many failed attempts fit in the time since the incident was raised. All their delays but the
      last have passed, so that number is logarithmic in the seconds up to the cap, and then grows by
      one for every max seconds. */
  lemma AttemptsBoundedByElapsed(cfg: Settings, r: Run, n: nat, now: Time, k: nat)
    requires FromEmpty(cfg, r) && n <= |r.steps| && DeliveredBy(r, n, now)
    requires k < |r.states[n].incidents| && r.states[n].incidents[k].attemptCount > 0
    ensures var delays := r.states[n].incidents[k].attemptCount - 1;
      var seconds := (now - r.states[n].incidents[k].createdAt) / SECOND;
      var base, max := cfg.incidentDeliveryBackoffBaseSeconds, cfg.incidentDeliveryBackoffMaxSeconds;
      var u := Doublings(base, max);
      if delays <= u then Pow2(delays) <= seconds / base + 1
      else delays <= u + (seconds - base * (Pow2(u) - 1)) / max
  {
    var e := r.states[n].incidents[k];
    var base, max := cfg.incidentDeliveryBackoffBaseSeconds, cfg.incidentDeliveryBackoffMaxSeconds;
    DelaysWithinElapsed(cfg, r, n, now, k);
    QuotientBound(now - e.createdAt, SECOND, ClosedSum(base, max, e.attemptCount - 1));
    DelaysFit(base, max, e.attemptCount - 1, (now - e.createdAt) / SECOND);
  }

  /** The step records a failed attempt of the incident at position k. */
  predicate RecordsFailure(s: Store, step: Step, k: nat) {
    && step.DeliverIncidents? && Grantable(s.leases, DELIVERY_LEASE, step.owner, step.now)
    && k < |s.incidents| && FailsDelivery(s.incidents[k])
    && k in Take(ListDue(s.incidents, step.now), step.limit)
  }

  /** The failed attempts of the incident at position i recorded in steps j to k of the run. */
  function FailureCount(r: Run, j: nat, k: nat, i: nat): nat
    requires k <= |r.steps| && k < |r.states|
  {
    if k <= j then 0
    else FailureCount(r, j, k - 1, i) + if RecordsFailure(r.states[k - 1], r.steps[k - 1], i) then 1 else 0
  }

  lemma StepCountsFailure(cfg: Settings, s: Store, step: Step, k: nat)
    requires k < |s.incidents|
    ensures k < |Next(cfg, s, step).incidents|
    ensures Next(cfg, s, step).incidents[k].attemptCount
         == s.incidents[k].attemptCount + if RecordsFailure(s, step, k) then 1 else 0
    ensures s.incidents[k].deliveredAt.Some? ==> Next(cfg, s, step).incidents[k] == s.incidents[k]
  {
    StepMovesIncidents(cfg, s, step);
    assert IncidentMoves(cfg, s.incidents[k], Next(cfg, s, step).incidents[k], step);
    if step.DeliverIncidents? {
      DueTaken(s.incidents, step.limit, step.now);
      AttemptRowsAt(cfg, s.incidents, Take(ListDue(s.incidents, step.now), step.limit), step.now);
    }
  }

  /** Over any part of a run, attempt_count grows by the failures recorded, and an incident once
      delivered stays exactly as it was. */
  lemma {:induction false} AttemptsCountFailures(cfg: Settings, r: Run, j: nat, k: nat, i: nat)
    requires IsRun(cfg, r) && j <= k <= |r.steps| && i < |r.states[j].incidents|
    ensures i < |r.states[k].incidents|
    ensures r.states[k].incidents[i].attemptCount
         == r.states[j].incidents[i].attemptCount + FailureCount(r, j, k, i)
    ensures r.states[j].incidents[i].deliveredAt.Some? ==> r.states[k].incidents[i] == r.states[j].incidents[i]
  {
    hide Next;
    if j < k {
      AttemptsCountFailures(cfg, r, j, k - 1, i);
      assert Takes(cfg, r, k - 1);
      StepCountsFailure(cfg, r.states[k - 1], r.steps[k - 1], i);
    }
  }
}
