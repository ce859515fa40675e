/**
The lease protocol, over runs in which many workers take, renew, lose and give back leases between
each other's steps.

It is stated of the lease table alone, and for both repositories at once. In memory giving a lease
back always takes effect. On PostgreSQL a batch deletes its lease after its last commit and then
closes the connection, so that its lease stays until it expires.
*/
module Leases {
  import opened Common
  import opened Entities
  import opened Pipeline
  import opened Runs

  type LeaseTable = map<string, Lease>

  /** No other owner holds the lease unexpired. */
  predicate LeaseOpen(leases: LeaseTable, name: string, owner: Id, now: Time) {
    name !in leases || leases[name].ownerId == owner || leases[name].expiresAt <= now
  }

  /** An open lease, and no other, is granted, until its time-to-live is over. Giving back removes the
      lease if it is the owner's. Neither touches another lease. */
  lemma LeaseOutcomes(leases: LeaseTable, name: string, owner: Id, now: Time, ttlSeconds: int)
    ensures Grantable(leases, name, owner, now) <==> LeaseOpen(leases, name, owner, now)
    ensures var taken := Acquired(leases, name, owner, now, ttlSeconds);
      if LeaseOpen(leases, name, owner, now) then
        && name in taken && taken[name].ownerId == owner
        && taken[name].expiresAt == now + ttlSeconds * SECOND
        && taken - {name} == leases - {name}
      else taken == leases
    ensures var left := Released(leases, name, owner);
      && left - {name} == leases - {name}
      && (if name in leases && leases[name].ownerId != owner
          then name in left && left[name] == leases[name] else name !in left)
  {
    assert Acquired(leases, name, owner, now, ttlSeconds) - {name} == leases - {name};
  }

  /** The lease table before each step, and after the last; and whether giving a lease back lasts. */
  datatype LeaseRun = LeaseRun(lasting: bool, tables: seq<LeaseTable>, steps: seq<Step>)

  datatype Request = Request(name: string, owner: Id, now: Time, ttlSeconds: int)
  {
    function Expiry(): Time { now + ttlSeconds * SECOND }

    predicate GrantableOn(leases: LeaseTable) { Grantable(leases, name, owner, now) }

    function On(leases: LeaseTable): LeaseTable { Acquired(leases, name, owner, now, ttlSeconds) }
  }

  /** The lease that the step asks for, to be held until it is given back or expires. A batch whose
      release lasts is not among these: it gives its lease back before its step ends. */
  function RequestOf(cfg: Settings, lasting: bool, step: Step): Option<Request> {
    match step
    case AcquireLease(name, owner, now, ttl) => Some(Request(name, owner, now, ttl))
    case EvaluateSla(_, now, owner, _) =>
      if lasting then None else Some(Request(SLA_LEASE, owner, now, cfg.slaBatchLockTtlSeconds))
    case DeliverIncidents(_, now, owner) =>
      if lasting then None else Some(Request(DELIVERY_LEASE, owner, now, cfg.incidentDeliveryLockTtlSeconds))
    case _ => None
  }

  /** What a step may do to the lease table. */
  ghost predicate LeaseStep(cfg: Settings, lasting: bool, leases: LeaseTable, step: Step, leases': LeaseTable) {
    match RequestOf(cfg, lasting, step)
    case Some(request) => leases' == request.On(leases)
    case None =>
      match step
      case ReleaseLease(name, owner, _) =>
        leases' == Released(leases, name, owner) || (!lasting && leases' == leases)
      case EvaluateSla(_, now, owner, _) =>
        leases' == Released(Acquired(leases, SLA_LEASE, owner, now, cfg.slaBatchLockTtlSeconds), SLA_LEASE, owner)
      case DeliverIncidents(_, now, owner) =>
        leases' == Released(Acquired(leases, DELIVERY_LEASE, owner, now, cfg.incidentDeliveryLockTtlSeconds),
                            DELIVERY_LEASE, owner)
      case _ => leases' == leases
  }

  ghost predicate LeaseTakes(cfg: Settings, r: LeaseRun, k: nat) {
    k < |r.steps| && k + 1 < |r.tables| && LeaseStep(cfg, r.lasting, r.tables[k], r.steps[k], r.tables[k + 1])
  }

  ghost predicate IsLeaseRun(cfg: Settings, r: LeaseRun) {
    && |r.tables| == |r.steps| + 1
    && forall k :: 0 <= k < |r.steps| ==> LeaseTakes(cfg, r, k)
  }

  // The router's own runs are such runs.

  function LeasesOf(r: Run): LeaseRun {
    LeaseRun(true, seq(|r.states|, k requires 0 <= k < |r.states| => r.states[k].leases), r.steps)
  }

  lemma NextIsLeaseStep(cfg: Settings, s: Store, step: Step)
    requires ValidStep(s, step)
    ensures LeaseStep(cfg, true, s.leases, step, Next(cfg, s, step).leases)
  {}

  lemma RunIsLeaseRun(cfg: Settings, r: Run)
    requires IsRun(cfg, r)
    ensures IsLeaseRun(cfg, LeasesOf(r))
  {
    hide Next, LeaseStep;
    forall k | 0 <= k < |r.steps| ensures LeaseTakes(cfg, LeasesOf(r), k) {
      assert Takes(cfg, r, k);
      NextIsLeaseStep(cfg, r.states[k], r.steps[k]);
    }
  }

  // Exclusion.

  /** The owner gives the lease back in this step. A batch does so at its end, under its own id. */
  predicate Releases(lasting: bool, step: Step, name: string, owner: Id) {
    match step
    case ReleaseLease(n, o, _) => n == name && o == owner
    case EvaluateSla(_, _, o, _) => lasting && name == SLA_LEASE && o == owner
    case DeliverIncidents(_, _, o) => lasting && name == DELIVERY_LEASE && o == owner
    case _ => false
  }

  /** Step k grants the request. */
  ghost predicate Grants(cfg: Settings, r: LeaseRun, k: nat, q: Request) {
    && k < |r.steps| && k < |r.tables|
    && RequestOf(cfg, r.lasting, r.steps[k]) == Some(q) && q.GrantableOn(r.tables[k])
  }

  /** The step asks for the same lease for the same owner, to end earlier. */
  predicate CutsShort(cfg: Settings, lasting: bool, step: Step, q: Request) {
    var renewal := RequestOf(cfg, lasting, step);
    renewal.Some? && renewal.value.name == q.name && renewal.value.owner == q.owner
    && renewal.value.Expiry() < q.Expiry()
  }

  /** The owner of the request does not give the lease back between steps k and n. */
  ghost predicate NotGivenBack(r: LeaseRun, k: nat, n: nat, q: Request)
    requires n <= |r.steps|
  {
    forall j :: k < j < n ==> !Releases(r.lasting, r.steps[j], q.name, q.owner)
  }

  /** Nor does it cut the lease short. */
  ghost predicate NotCutShort(cfg: Settings, r: LeaseRun, k: nat, n: nat, q: Request)
    requires n <= |r.steps|
  {
    forall j :: k < j < n ==> !CutsShort(cfg, r.lasting, r.steps[j], q)
  }

  /** The owner is in the table with at least the requested expiry. */
  predicate Held(leases: LeaseTable, q: Request) {
    q.name in leases && leases[q.name].ownerId == q.owner && leases[q.name].expiresAt >= q.Expiry()
  }

  /** A held lease stays held over a step, unless its owner gives it back or cuts it short, or it
      has expired. */
  lemma StepKeepsHeld(
    cfg: Settings, lasting: bool, leases: LeaseTable, step: Step, leases': LeaseTable, q: Request)
    requires LeaseStep(cfg, lasting, leases, step, leases') && Held(leases, q)
    requires !Releases(lasting, step, q.name, q.owner) && !CutsShort(cfg, lasting, step, q)
    requires step.now < q.Expiry()
    ensures Held(leases', q)
  {}

  /** While a granted lease is neither given back, cut short nor expired, the table goes on naming
      its owner: no other worker's step, a stale release included, removes it. */
  lemma {:induction false} LeaseKept(cfg: Settings, r: LeaseRun, k: nat, n: nat, q: Request)
    requires IsLeaseRun(cfg, r) && Grants(cfg, r, k, q) && k < n <= |r.steps|
    requires NotGivenBack(r, k, n, q) && NotCutShort(cfg, r, k, n, q)
    requires forall j :: k < j < n ==> r.steps[j].now < q.Expiry()
    ensures Held(r.tables[n], q)
    decreases n
  {
    assert LeaseTakes(cfg, r, n - 1);
    if n - 1 > k {
      LeaseKept(cfg, r, k, n - 1, q);
      StepKeepsHeld(cfg, r.lasting, r.tables[n - 1], r.steps[n - 1], r.tables[n], q);
    }
  }

  ghost predicate ForwardClock(steps: seq<Step>) {
    forall j, k :: 0 <= j <= k < |steps| ==> steps[j].now <= steps[k].now
  }

  /** A grant to another owner waits until the earlier one has expired, if that is neither given
      back nor cut short. */
  lemma LaterGrantWaits(cfg: Settings, r: LeaseRun, k: nat, m: nat, q: Request, q': Request)
    requires IsLeaseRun(cfg, r) && ForwardClock(r.steps) && k < m
    requires Grants(cfg, r, k, q) && Grants(cfg, r, m, q') && q.name == q'.name && q.owner != q'.owner
    requires NotGivenBack(r, k, m, q) && NotCutShort(cfg, r, k, m, q)
    ensures q.Expiry() <= q'.now
  {
    if q'.now < q.Expiry() {
      forall j | k < j < m ensures r.steps[j].now < q.Expiry() {
        assert r.steps[j].now <= r.steps[m].now;
      }
      LeaseKept(cfg, r, k, m, q);
      assert false;
    }
  }

  /** The time is in the interval [granted, min(released, expires)) of the grant at step k. */
  ghost predicate Live(r: LeaseRun, k: nat, q: Request, time: Time) {
    && q.now <= time < q.Expiry()
    && forall j :: k < j < |r.steps| && Releases(r.lasting, r.steps[j], q.name, q.owner) ==> time < r.steps[j].now
  }

  /** Two workers never hold one lease at one time: an earlier grant that is not cut short and a
      later one to another owner have disjoint intervals, in every interleaving, from any table. */
  lemma LeaseExclusion(cfg: Settings, r: LeaseRun, k: nat, m: nat, q: Request, q': Request, time: Time)
    requires IsLeaseRun(cfg, r) && ForwardClock(r.steps) && k < m
    requires Grants(cfg, r, k, q) && Grants(cfg, r, m, q') && q.name == q'.name && q.owner != q'.owner
    requires NotCutShort(cfg, r, k, m, q)
    ensures !(Live(r, k, q, time) && Live(r, m, q', time))
  {
    if Live(r, k, q, time) && Live(r, m, q', time) {
      forall j | k < j < m ensures !Releases(r.lasting, r.steps[j], q.name, q.owner) {
        assert r.steps[j].now <= r.steps[m].now;
      }
      LaterGrantWaits(cfg, r, k, m, q, q');
      assert false;
    }
  }

  ghost predicate FixedTtl(cfg: Settings, r: LeaseRun, name: string, ttlSeconds: int) {
    forall k :: 0 <= k < |r.steps| && RequestOf(cfg, r.lasting, r.steps[k]).Some?
                && RequestOf(cfg, r.lasting, r.steps[k]).value.name == name ==>
      RequestOf(cfg, r.lasting, r.steps[k]).value.ttlSeconds == ttlSeconds
  }

  /** A fixed time-to-live and a forward clock are enough: then no renewal cuts a grant short. */
  lemma FixedTtlNotCutShort(cfg: Settings, r: LeaseRun, k: nat, n: nat, q: Request, ttlSeconds: int)
    requires k < n <= |r.steps| && RequestOf(cfg, r.lasting, r.steps[k]) == Some(q)
    requires ForwardClock(r.steps) && FixedTtl(cfg, r, q.name, ttlSeconds)
    ensures NotCutShort(cfg, r, k, n, q)
  {
    forall j | k < j < n ensures !CutsShort(cfg, r.lasting, r.steps[j], q) {
      assert r.steps[k].now <= r.steps[j].now;
    }
  }

  /** So with one time-to-live per lease and a forward clock, grants of a lease to different owners
      have disjoint intervals, whichever comes first. */
  lemma FixedTtlExclusion(
    cfg: Settings, r: LeaseRun, k: nat, m: nat, q: Request, q': Request, ttlSeconds: int, time: Time)
    requires IsLeaseRun(cfg, r) && ForwardClock(r.steps) && FixedTtl(cfg, r, q.name, ttlSeconds)
    requires Grants(cfg, r, k, q) && Grants(cfg, r, m, q') && q.name == q'.name && q.owner != q'.owner
    ensures !(Live(r, k, q, time) && Live(r, m, q', time))
  {
    if k < m {
      FixedTtlNotCutShort(cfg, r, k, m, q, ttlSeconds);
      LeaseExclusion(cfg, r, k, m, q, q', time);
    } else {
      FixedTtlNotCutShort(cfg, r, m, k, q', ttlSeconds);
      LeaseExclusion(cfg, r, m, k, q', q, time);
    }
  }

  /** In every run of the router in memory, then, no two workers hold one lease at one time. */
  lemma RouterLeaseExclusion(
    cfg: Settings, r: Run, k: nat, m: nat, q: Request, q': Request, ttlSeconds: int, time: Time)
    requires IsRun(cfg, r) && ForwardClock(r.steps) && FixedTtl(cfg, LeasesOf(r), q.name, ttlSeconds)
    requires Grants(cfg, LeasesOf(r), k, q) && Grants(cfg, LeasesOf(r), m, q')
    requires q.name == q'.name && q.owner != q'.owner
    ensures !(Live(LeasesOf(r), k, q, time) && Live(LeasesOf(r), m, q', time))
  {
    RunIsLeaseRun(cfg, r);
    FixedTtlExclusion(cfg, LeasesOf(r), k, m, q, q', ttlSeconds, time);
  }

  /** The lease lapses by the given time. */
  predicate LapsesBy(leases: LeaseTable, name: string, time: Time) {
    name in leases ==> leases[name].expiresAt <= time
  }

  lemma StepLapses(
    cfg: Settings, lasting: bool, leases: LeaseTable, step: Step, leases': LeaseTable, name: string, time: Time)
    requires LeaseStep(cfg, lasting, leases, step, leases') && LapsesBy(leases, name, time)
    requires var q := RequestOf(cfg, lasting, step);
      q.Some? && q.value.name == name ==> q.value.Expiry() <= time
    ensures LapsesBy(leases', name, time)
  {}

  ghost predicate TtlAtMost(cfg: Settings, r: LeaseRun, name: string, ttlSeconds: int) {
    forall k :: 0 <= k < |r.steps| && RequestOf(cfg, r.lasting, r.steps[k]).Some?
                && RequestOf(cfg, r.lasting, r.steps[k]).value.name == name ==>
      RequestOf(cfg, r.lasting, r.steps[k]).value.ttlSeconds <= ttlSeconds
  }

  /** A worker that never comes back, or whose release is lost, blocks a lease for one time-to-live
      at most: by then, whatever the run was, anybody's request is granted. */
  lemma {:induction false} LeaseLapses(
    cfg: Settings, r: LeaseRun, n: nat, name: string, ttlSeconds: int, last: Time, owner: Id, now: Time)
    requires IsLeaseRun(cfg, r) && n <= |r.steps| && name !in r.tables[0]
    requires TtlAtMost(cfg, r, name, ttlSeconds)
    requires forall k :: 0 <= k < n ==> r.steps[k].now <= last
    requires now >= last + ttlSeconds * SECOND
    ensures LapsesBy(r.tables[n], name, last + ttlSeconds * SECOND)
    ensures Grantable(r.tables[n], name, owner, now)
  {
    if n > 0 {
      LeaseLapses(cfg, r, n - 1, name, ttlSeconds, last, owner, now);
      assert LeaseTakes(cfg, r, n - 1);
      StepLapses(cfg, r.lasting, r.tables[n - 1], r.steps[n - 1], r.tables[n], name, last + ttlSeconds * SECOND);
    }
  }

  // A renewal that cuts a grant short does harm.

  /** A worker renews for a shorter time, and a second one gets in while the first grant has not
      run out. */
  function ShorterRenewal(): Run {
    Run([ EMPTY,
          EMPTY.(leases := map["lease" := Lease("a", 30 * SECOND)]),
          EMPTY.(leases := map["lease" := Lease("a", 2 * SECOND)]),
          EMPTY.(leases := map["lease" := Lease("b", 33 * SECOND)]) ],
        [ AcquireLease("lease", "a", 0, 30),
          AcquireLease("lease", "a", 1 * SECOND, 1),
          AcquireLease("lease", "b", 3 * SECOND, 30) ])
  }

  lemma ShorterRenewalOverlaps(cfg: Settings)
    ensures FromEmpty(cfg, ShorterRenewal()) && ForwardClock(ShorterRenewal().steps)
    ensures var r := LeasesOf(ShorterRenewal());
      var first, second := Request("lease", "a", 0, 30), Request("lease", "b", 3 * SECOND, 30);
      && Grants(cfg, r, 0, first) && Grants(cfg, r, 2, second)
      && Live(r, 0, first, 3 * SECOND) && Live(r, 2, second, 3 * SECOND)
  {
    hide SlaBatch, DeliveryBatch, SlaChecked, RowReply;
    var r := ShorterRenewal();
    assert Takes(cfg, r, 0) && Takes(cfg, r, 1) && Takes(cfg, r, 2);
  }
}
