/**
The incident pipeline on values: commands past their deadline fail, safety commands among them
leave an incident, and incidents are delivered with retries. The two batches run under a lease.
*/
module Pipeline {
  import opened Common
  import opened Entities
  import opened Ranking
  import opened CommandTable
  import opened UseCases

  const SLA_LEASE := "sla_evaluator"
  const DELIVERY_LEASE := "incident_delivery"
  const DELIVERY_ERROR := "simulated_delivery_failure"

  datatype Store = Store(commands: Table, incidents: seq<Incident>, leases: map<string, Lease>)

  const EMPTY := Store([], [], map[])

  // Deadline breaches.

  /** Fails the row at position i; a safety command also leaves an incident. */
  function BreachRow(s: Store, i: nat, now: Time, eventId: Id): Store
    requires i < |s.commands|
  {
    var c := s.commands[i];
    s.(commands := s.commands[i := Breached(c, now)],
       incidents := if c.IsSafety() then s.incidents + [SlaIncident(c, now, eventId)] else s.incidents)
  }

  /** Fails the listed rows in turn; the k-th one draws eventIds[k]. */
  function BreachRows(s: Store, r: seq<nat>, now: Time, eventIds: seq<Id>): (s': Store)
    requires forall k :: 0 <= k < |r| ==> r[k] < |s.commands|
    requires |r| <= |eventIds|
    ensures |s'.commands| == |s.commands| && s'.leases == s.leases
  {
    if r == [] then s
    else
      var k := |r| - 1;
      BreachRow(BreachRows(s, r[..k], now, eventIds), r[k], now, eventIds[k])
  }

  /** The use case check_sla, as a change of the store. */
  function SlaChecked(s: Store, id: Id, now: Time, eventId: Id): Store {
    var p := Find(s.commands, id);
    if p.Some? && IsOverdue(s.commands[p.value], now) then BreachRow(s, p.value, now, eventId) else s
  }

  /** The part of the SLA batch between taking the lease and giving it back. */
  function SlaBody(s: Store, limit: nat, now: Time, eventIds: seq<Id>): Store
    requires limit <= |eventIds|
  {
    BreachRows(s, Take(ListOverdue(s.commands, now), limit), now, eventIds)
  }

  // Delivery.

  function Pow2(n: nat): (p: nat)
    ensures p >= 1
  {
    if n == 0 then 1 else 2 * Pow2(n - 1)
  }

  /** Seconds to wait after the given failed attempt, the first being attempt 1. */
  function Backoff(cfg: Settings, attempt: nat): (seconds: int)
    requires attempt >= 1
    ensures 1 <= seconds <= cfg.incidentDeliveryBackoffMaxSeconds
  {
    var uncapped := cfg.incidentDeliveryBackoffBaseSeconds * Pow2(attempt - 1);
    if uncapped <= cfg.incidentDeliveryBackoffMaxSeconds then
      (assert uncapped >= 1 * Pow2(attempt - 1); uncapped)
    else cfg.incidentDeliveryBackoffMaxSeconds
  }

  predicate FailsDelivery(e: Incident) {
    e.payload.commandPayload.simulateDeliveryFailure
  }

  predicate IsDue(e: Incident, now: Time) {
    e.deliveredAt.None? && e.nextAttemptAt <= now
  }

  function Attempted(cfg: Settings, e: Incident, now: Time): Incident {
    if FailsDelivery(e) then
      e.(attemptCount := e.attemptCount + 1,
         nextAttemptAt := now + Backoff(cfg, e.attemptCount + 1) * SECOND,
         lastError := Some(DELIVERY_ERROR))
    else
      e.(deliveredAt := Some(now), lastError := None)
  }

  function DueMarks(es: seq<Incident>, before: Time): (m: Marks)
    ensures |m| == |es|
  {
    seq(|es|, i requires 0 <= i < |es| =>
      if IsDue(es[i], before) then Some(Key(es[i].nextAttemptAt, 0, 0)) else None)
  }

  /** Positions of the incidents due for delivery, earliest first. */
  function ListDue(es: seq<Incident>, before: Time): (r: seq<nat>)
    ensures forall k :: 0 <= k < |r| ==> r[k] < |es|
  {
    RankedInRange(DueMarks(es, before));
    Ranked(DueMarks(es, before))
  }

  function AttemptRows(cfg: Settings, es: seq<Incident>, r: seq<nat>, now: Time): (es': seq<Incident>)
    requires forall k :: 0 <= k < |r| ==> r[k] < |es|
    ensures |es'| == |es|
  {
    if r == [] then es
    else
      var k := |r| - 1;
      var before := AttemptRows(cfg, es, r[..k], now);
      before[r[k] := Attempted(cfg, before[r[k]], now)]
  }

  /** The part of the delivery batch between taking the lease and giving it back. */
  function DeliveryBody(cfg: Settings, s: Store, limit: nat, now: Time): Store {
    s.(incidents := AttemptRows(cfg, s.incidents, Take(ListDue(s.incidents, now), limit), now))
  }

  // Leases.

  predicate Grantable(leases: map<string, Lease>, name: string, owner: Id, now: Time) {
    name in leases ==> leases[name].ownerId == owner || leases[name].expiresAt <= now
  }

  function Acquired(leases: map<string, Lease>, name: string, owner: Id, now: Time, ttlSeconds: int)
    : map<string, Lease>
  {
    if Grantable(leases, name, owner, now) then leases[name := Lease(owner, now + ttlSeconds * SECOND)] else leases
  }

  function Released(leases: map<string, Lease>, name: string, owner: Id): map<string, Lease> {
    if name in leases && leases[name].ownerId == owner then leases - {name} else leases
  }

  // The batches.

  function SlaBatch(cfg: Settings, s: Store, limit: nat, now: Time, owner: Id, eventIds: seq<Id>): Store
    requires limit <= |eventIds|
  {
    if !Grantable(s.leases, SLA_LEASE, owner, now) then s
    else
      var held := s.(leases := Acquired(s.leases, SLA_LEASE, owner, now, cfg.slaBatchLockTtlSeconds));
      var done := SlaBody(held, limit, now, eventIds);
      done.(leases := Released(done.leases, SLA_LEASE, owner))
  }

  /** The reply of a deadline batch: the commands it failed, in the order it took them. */
  function SlaBatchReply(s: Store, limit: nat, now: Time, owner: Id): SlaBatchResult {
    if !Grantable(s.leases, SLA_LEASE, owner, now) then SlaBatchResult(false, [])
    else
      var rows := RowsAt(s.commands, Take(ListOverdue(s.commands, now), limit));
      SlaBatchResult(true, seq(|rows|, k requires 0 <= k < |rows| => BreachResult(rows[k], now)))
  }

  function DeliveryBatch(cfg: Settings, s: Store, limit: nat, now: Time, owner: Id): Store {
    if !Grantable(s.leases, DELIVERY_LEASE, owner, now) then s
    else
      var held := s.(leases := Acquired(s.leases, DELIVERY_LEASE, owner, now, cfg.incidentDeliveryLockTtlSeconds));
      var done := DeliveryBody(cfg, held, limit, now);
      done.(leases := Released(done.leases, DELIVERY_LEASE, owner))
  }
}
