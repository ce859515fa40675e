/**
The two repositories side by side over whole runs. They hold the same commands, whatever the database
answers, exactly as long as the deadline batches have the same to do on both. That can be told from
the calls and the in-memory tables: on the database a batch's lease outlives it, and a batch within
one time-to-live of the last granted one is refused.
*/
module Backends {
  import opened Entities
  import opened CommandTable
  import opened Pipeline
  import opened Runs
  import opened Scheduler
  import opened Dedup
  import opened Leases
  import opened Postgres
  import opened PostgresBatch
  import opened PostgresSteps

  ghost predicate PgTakes(cfg: Settings, steps: seq<Step>, dbs: seq<Database>, k: nat) {
    k < |steps| && k + 1 < |dbs| && PgStep(cfg, dbs[k], steps[k], dbs[k + 1])
  }

  /** The steps on the database, from empty tables: what it holds before each, and after the last. */
  ghost predicate PgRun(cfg: Settings, steps: seq<Step>, dbs: seq<Database>) {
    && |dbs| == |steps| + 1
    && dbs[0] == Database(map[], map[])
    && forall k :: 0 <= k < |steps| ==> PgTakes(cfg, steps, dbs, k)
  }

  lemma PgPrefix(cfg: Settings, steps: seq<Step>, dbs: seq<Database>, k: nat)
    requires PgRun(cfg, steps, dbs) && k <= |steps|
    ensures PgRun(cfg, steps[..k], dbs[..k + 1])
  {
    hide PgStep;
    var front, dbs' := steps[..k], dbs[..k + 1];
    forall j | 0 <= j < k ensures PgTakes(cfg, front, dbs', j) {
      assert PgTakes(cfg, steps, dbs, j);
    }
  }

  lemma PgExtends(cfg: Settings, steps: seq<Step>, dbs: seq<Database>, k: nat, db': Database)
    requires k < |steps| && PgRun(cfg, steps[..k], dbs) && PgStep(cfg, dbs[k], steps[k], db')
    ensures PgRun(cfg, steps[..k + 1], dbs + [db'])
  {
    hide PgStep;
    var front, dbs' := steps[..k + 1], dbs + [db'];
    forall j | 0 <= j < k + 1 ensures PgTakes(cfg, front, dbs', j) {
      if j < k {
        assert PgTakes(cfg, steps[..k], dbs, j);
      }
    }
  }

  // Which deadline batches get their lease, told from the calls.

  /** Leases are taken by the router's batches only, each under an id of its own. */
  ghost predicate OwnLeases(steps: seq<Step>) {
    forall j, k :: 0 <= j < k < |steps| && steps[k].EvaluateSla? ==>
      && !(steps[j].AcquireLease? && steps[j].name == SLA_LEASE)
      && !(steps[j].ReleaseLease? && steps[j].name == SLA_LEASE)
      && (steps[j].EvaluateSla? ==> steps[j].owner != steps[k].owner)
  }

  function SlaTtl(cfg: Settings): Time {
    cfg.slaBatchLockTtlSeconds * SECOND
  }

  /** Step k is a deadline batch, and every batch before it that got the lease was at least a
      time-to-live earlier. */
  ghost predicate GetsLease(cfg: Settings, steps: seq<Step>, k: nat)
    requires k < |steps|
    decreases k
  {
    steps[k].EvaluateSla? && forall j :: 0 <= j < k && GetsLease(cfg, steps, j) ==>
      steps[j].now + SlaTtl(cfg) <= steps[k].now
  }

  /** The lease in the table after k steps is the last one granted. */
  ghost predicate LastGrant(cfg: Settings, steps: seq<Step>, leases: LeaseTable, k: nat)
    requires k <= |steps|
  {
    if SLA_LEASE in leases then
      exists j :: 0 <= j < k && steps[j].EvaluateSla? && GetsLease(cfg, steps, j)
        && leases[SLA_LEASE] == Lease(steps[j].owner, steps[j].now + SlaTtl(cfg))
        && forall i :: 0 <= i < k && GetsLease(cfg, steps, i) ==> steps[i].now <= steps[j].now
    else forall j :: 0 <= j < k ==> !GetsLease(cfg, steps, j)
  }

  lemma GrantFromLast(cfg: Settings, steps: seq<Step>, leases: LeaseTable, k: nat)
    requires k < |steps| && steps[k].EvaluateSla? && OwnLeases(steps) && LastGrant(cfg, steps, leases, k)
    ensures PgGranted(cfg, leases, steps[k]) <==> GetsLease(cfg, steps, k)
  {
    GrantAgrees(cfg, leases, steps[k]);
    if SLA_LEASE in leases {
      var j :| 0 <= j < k && steps[j].EvaluateSla? && GetsLease(cfg, steps, j)
        && leases[SLA_LEASE] == Lease(steps[j].owner, steps[j].now + SlaTtl(cfg))
        && forall i :: 0 <= i < k && GetsLease(cfg, steps, i) ==> steps[i].now <= steps[j].now;
      assert steps[j].owner != steps[k].owner;
    }
  }

  lemma NewLastGrant(cfg: Settings, steps: seq<Step>, leases: LeaseTable, leases': LeaseTable, k: nat)
    requires k < |steps| && steps[k].EvaluateSla? && GetsLease(cfg, steps, k) && PgGranted(cfg, leases, steps[k])
    requires PgLeaseStep(cfg, leases, steps[k], leases')
    ensures LastGrant(cfg, steps, leases', k + 1)
  {
    assert leases'[SLA_LEASE] == Lease(steps[k].owner, steps[k].now + SlaTtl(cfg));
    forall i | 0 <= i < k + 1 && GetsLease(cfg, steps, i) ensures steps[i].now <= steps[k].now {
      assert i < k ==> steps[i].now + SlaTtl(cfg) <= steps[k].now;
    }
  }

  lemma SameLastGrant(cfg: Settings, steps: seq<Step>, leases: LeaseTable, leases': LeaseTable, k: nat)
    requires k < |steps| && !GetsLease(cfg, steps, k) && LastGrant(cfg, steps, leases, k)
    requires SLA_LEASE in leases' <==> SLA_LEASE in leases
    requires SLA_LEASE in leases ==> leases'[SLA_LEASE] == leases[SLA_LEASE]
    ensures LastGrant(cfg, steps, leases', k + 1)
  {
    hide GetsLease;
    if SLA_LEASE in leases {
      var j :| 0 <= j < k && steps[j].EvaluateSla? && GetsLease(cfg, steps, j)
        && leases[SLA_LEASE] == Lease(steps[j].owner, steps[j].now + SlaTtl(cfg))
        && forall i :: 0 <= i < k && GetsLease(cfg, steps, i) ==> steps[i].now <= steps[j].now;
      assert 0 <= j < k + 1;
    }
  }

  lemma LastGrantStep(cfg: Settings, steps: seq<Step>, leases: LeaseTable, leases': LeaseTable, k: nat, m: nat)
    requires k < m < |steps| && steps[m].EvaluateSla? && OwnLeases(steps)
    requires LastGrant(cfg, steps, leases, k) && PgLeaseStep(cfg, leases, steps[k], leases')
    ensures LastGrant(cfg, steps, leases', k + 1)
  {
    hide LastGrant, PgLeaseStep, PgGranted;
    if steps[k].EvaluateSla? {
      GrantFromLast(cfg, steps, leases, k);
    }
    if GetsLease(cfg, steps, k) {
      NewLastGrant(cfg, steps, leases, leases', k);
    } else {
      LeaseUntouched(cfg, leases, steps[k], leases');
      SameLastGrant(cfg, steps, leases, leases', k);
    }
  }

  /** Nothing but a granted deadline batch changes the lease. */
  lemma LeaseUntouched(cfg: Settings, leases: LeaseTable, step: Step, leases': LeaseTable)
    requires PgLeaseStep(cfg, leases, step, leases')
    requires step.EvaluateSla? ==> !PgGranted(cfg, leases, step)
    requires !(step.AcquireLease? && step.name == SLA_LEASE) && !(step.ReleaseLease? && step.name == SLA_LEASE)
    ensures SLA_LEASE in leases' <==> SLA_LEASE in leases
    ensures SLA_LEASE in leases ==> leases'[SLA_LEASE] == leases[SLA_LEASE]
  {}

  lemma {:induction false} LastGrantHolds(cfg: Settings, steps: seq<Step>, dbs: seq<Database>, k: nat, m: nat)
    requires k <= m < |steps| && steps[m].EvaluateSla? && OwnLeases(steps)
    requires PgRun(cfg, steps[..m], dbs)
    ensures LastGrant(cfg, steps, dbs[k].leases, k)
  {
    hide PgLeaseStep, PgCommandStep, OwnLeases;
    if k > 0 {
      LastGrantHolds(cfg, steps, dbs, k - 1, m);
      assert PgTakes(cfg, steps[..m], dbs, k - 1);
      LastGrantStep(cfg, steps, dbs[k - 1].leases, dbs[k].leases, k - 1, m);
    }
  }

  /** On the database a deadline batch gets its lease if and only if every batch before it that got
      the lease was at least a time-to-live earlier. */
  lemma GrantTold(cfg: Settings, steps: seq<Step>, dbs: seq<Database>, k: nat)
    requires k < |steps| && steps[k].EvaluateSla? && OwnLeases(steps)
    requires PgRun(cfg, steps[..k], dbs)
    ensures PgGranted(cfg, dbs[k].leases, steps[k]) <==> GetsLease(cfg, steps, k)
  {
    LastGrantHolds(cfg, steps, dbs, k, k);
    GrantFromLast(cfg, steps, dbs[k].leases, k);
  }

  /** So all of the first n steps that are batches get it if and only if each two of them are at least
      a time-to-live apart. */
  lemma AllGetLease(cfg: Settings, steps: seq<Step>, n: nat)
    requires n <= |steps|
    ensures (forall k :: 0 <= k < n && steps[k].EvaluateSla? ==> GetsLease(cfg, steps, k))
       <==> forall j, k :: 0 <= j < k < n && steps[j].EvaluateSla? && steps[k].EvaluateSla? ==>
              steps[j].now + SlaTtl(cfg) <= steps[k].now
  {
    if forall j, k :: 0 <= j < k < n && steps[j].EvaluateSla? && steps[k].EvaluateSla? ==>
         steps[j].now + SlaTtl(cfg) <= steps[k].now
    {
      forall k | 0 <= k < n && steps[k].EvaluateSla? ensures GetsLease(cfg, steps, k) {
        assert forall j :: 0 <= j < k && GetsLease(cfg, steps, j) ==> steps[j].EvaluateSla?;
      }
    }
  }

  /** In memory every such batch gets its lease, since each gives it back. */
  lemma {:induction false} MemoryLeaseFree(cfg: Settings, r: Run, k: nat, m: nat)
    requires FromEmpty(cfg, r) && OwnLeases(r.steps)
    requires k <= m < |r.steps| && r.steps[m].EvaluateSla?
    ensures SLA_LEASE !in r.states[k].leases
  {
    hide Next;
    if k > 0 {
      MemoryLeaseFree(cfg, r, k - 1, m);
      assert Takes(cfg, r, k - 1);
      NextIsLeaseStep(cfg, r.states[k - 1], r.steps[k - 1]);
    }
  }

  // Agreement.

  /** Step k, if it is a deadline batch, has nothing to do or gets its lease on the database. */
  ghost predicate Served(cfg: Settings, r: Run, k: nat)
    requires k < |r.steps| && k < |r.states|
  {
    r.steps[k].EvaluateSla? ==>
      Idle(r.states[k].commands, r.steps[k].limit, r.steps[k].now) || GetsLease(cfg, r.steps, k)
  }

  /** And no tie runs across its limit. */
  ghost predicate Comparable(cfg: Settings, r: Run, k: nat)
    requires k < |r.steps| && k < |r.states|
  {
    && Served(cfg, r, k)
    && (r.steps[k].EvaluateSla? ==> CleanCut(r.states[k].commands, r.steps[k].limit, r.steps[k].now))
  }

  /** In every reachable state the database has no choice. */
  lemma ReachableNoChoice(cfg: Settings, r: Run, k: nat)
    requires FromEmpty(cfg, r) && k <= |r.steps|
    ensures NoChoice(r.states[k].commands)
  {
    ReachableScheduled(cfg, r, k);
    ReachableSpaced(cfg, r, k);
    WellKeptNoChoice(cfg, r.states[k].commands);
  }

  /** Before step k of a run, what SameBatch and SameGrant say of the two tables is what the calls tell. */
  lemma BatchTold(cfg: Settings, r: Run, dbs: seq<Database>, k: nat)
    requires FromEmpty(cfg, r) && OwnLeases(r.steps) && k < |r.steps| && r.steps[k].EvaluateSla?
    requires PgRun(cfg, r.steps[..k], dbs)
    ensures SameGrant(cfg, dbs[k], r.states[k], r.steps[k]) <==> GetsLease(cfg, r.steps, k)
    ensures SameBatch(cfg, dbs[k], r.states[k], r.steps[k]) <==> Comparable(cfg, r, k)
  {
    hide PgGranted, PgStep, CleanCut, Next, OwnLeases;
    var t, step := r.states[k].commands, r.steps[k];
    GrantTold(cfg, r.steps, dbs, k);
    MemoryLeaseFree(cfg, r, k, k);
    if Idle(t, step.limit, step.now) {
      IdleCut(t, step.limit, step.now);
    }
  }

  lemma IdleCut(t: Table, limit: nat, now: Time)
    requires Idle(t, limit, now)
    ensures CleanCut(t, limit, now)
  {}

  /** The database has a run of the same steps that holds the same commands throughout, if every
      deadline batch with something to do gets its lease there. */
  lemma {:induction false} RunMirrored(cfg: Settings, r: Run, n: nat) returns (dbs: seq<Database>)
    requires FromEmpty(cfg, r) && OwnLeases(r.steps) && n <= |r.steps|
    requires forall k :: 0 <= k < n ==> Served(cfg, r, k)
    ensures PgRun(cfg, r.steps[..n], dbs)
    ensures forall k :: 0 <= k <= n ==> Represents(dbs[k].commands, r.states[k].commands)
  {
    hide Next, PgStep, Represents, NoChoice, OwnLeases, GetsLease;
    if n == 0 {
      dbs := [Database(map[], map[])];
      NothingRepresented();
    } else {
      var k := n - 1;
      dbs := RunMirrored(cfg, r, k);
      ReachableNoChoice(cfg, r, k);
      assert Takes(cfg, r, k) && Served(cfg, r, k);
      if r.steps[k].EvaluateSla? {
        BatchTold(cfg, r, dbs, k);
      }
      var db' := DatabaseAnswers(cfg, dbs[k], r.states[k], r.steps[k]);
      PgExtends(cfg, r.steps, dbs, k, db');
      dbs := dbs + [db'];
    }
  }

  lemma NothingRepresented()
    ensures Represents(map[], [])
  {}

  /** After the first n steps the database holds the in-memory commands, whatever it answered. */
  ghost predicate AgreesAfter(cfg: Settings, r: Run, n: nat)
    requires n <= |r.steps| < |r.states|
  {
    forall dbs: seq<Database> :: PgRun(cfg, r.steps[..n], dbs) ==> Represents(dbs[n].commands, r.states[n].commands)
  }

  /** Whatever the database answers, and whoever takes leases, the two hold the same commands as long as
      every deadline batch finds the same to do on both. */
  lemma {:induction false} AgreeWhileSame(cfg: Settings, r: Run, dbs: seq<Database>, n: nat)
    requires FromEmpty(cfg, r) && n <= |r.steps| && PgRun(cfg, r.steps[..n], dbs)
    requires forall k :: 0 <= k < n ==> SameBatch(cfg, dbs[k], r.states[k], r.steps[k])
    ensures Represents(dbs[n].commands, r.states[n].commands)
  {
    hide Next, PgLeaseStep, PgCommandStep, Represents, NoChoice, SameBatch;
    if n == 0 {
      NothingRepresented();
    } else {
      var k := n - 1;
      PgPrefix(cfg, r.steps[..n], dbs, k);
      assert r.steps[..n][..k] == r.steps[..k];
      AgreeWhileSame(cfg, r, dbs[..n], k);
      ReachableNoChoice(cfg, r, k);
      assert Takes(cfg, r, k);
      assert PgTakes(cfg, r.steps[..n], dbs, k);
      StepAgrees(cfg, dbs[k], r.states[k], r.steps[k], dbs[n].commands);
    }
  }

  /** So they do as long as the deadline batches are comparable. Runs without deadline batches always
      are. */
  lemma BackendsAgree(cfg: Settings, r: Run, n: nat)
    requires FromEmpty(cfg, r) && OwnLeases(r.steps) && n <= |r.steps|
    requires forall k :: 0 <= k < n ==> Comparable(cfg, r, k)
    ensures AgreesAfter(cfg, r, n)
  {
    hide Next, PgStep, Represents, OwnLeases, GetsLease;
    forall dbs: seq<Database> | PgRun(cfg, r.steps[..n], dbs)
      ensures Represents(dbs[n].commands, r.states[n].commands)
    {
      forall k | 0 <= k < n ensures SameBatch(cfg, dbs[k], r.states[k], r.steps[k]) {
        PgPrefix(cfg, r.steps[..n], dbs, k);
        assert r.steps[..n][..k] == r.steps[..k];
        SameBatchTold(cfg, r, dbs[..k + 1], k);
      }
      AgreeWhileSame(cfg, r, dbs, n);
    }
  }

  lemma SameBatchTold(cfg: Settings, r: Run, dbs: seq<Database>, k: nat)
    requires FromEmpty(cfg, r) && OwnLeases(r.steps) && k < |r.steps| && Comparable(cfg, r, k)
    requires PgRun(cfg, r.steps[..k], dbs)
    ensures SameBatch(cfg, dbs[k], r.states[k], r.steps[k])
  {
    if r.steps[k].EvaluateSla? {
      BatchTold(cfg, r, dbs, k);
    }
  }

  /** At the first batch that is not comparable, the database can part from the in-memory store. */
  lemma FirstParting(cfg: Settings, r: Run, k: nat) returns (dbs: seq<Database>)
    requires FromEmpty(cfg, r) && OwnLeases(r.steps) && k < |r.steps|
    requires !Comparable(cfg, r, k) && forall j :: 0 <= j < k ==> Comparable(cfg, r, j)
    ensures PgRun(cfg, r.steps[..k + 1], dbs)
    ensures !Represents(dbs[k + 1].commands, r.states[k + 1].commands)
  {
    hide Next, PgLeaseStep, PgCommandStep, Represents, OwnLeases, SameBatch, GetsLease;
    assert forall j :: 0 <= j < k && Comparable(cfg, r, j) ==> Served(cfg, r, j);
    dbs := RunMirrored(cfg, r, k);
    assert Takes(cfg, r, k);
    BatchTold(cfg, r, dbs, k);
    var rows' := BatchStepParts(cfg, dbs[k], r.states[k], r.steps[k]);
    var leases' := LeaseStepPossible(cfg, dbs[k].leases, r.steps[k]);
    PgExtends(cfg, r.steps, dbs, k, Database(rows', leases'));
    dbs := dbs + [Database(rows', leases')];
  }

  /** The two hold the same commands at every point of a run, whatever the database answers, if and only
      if every deadline batch has nothing to do, or comes a time-to-live after every one that got its
      lease, with no tie across its limit. */
  lemma {:induction false} BackendsAgreeExactly(cfg: Settings, r: Run, n: nat)
    requires FromEmpty(cfg, r) && OwnLeases(r.steps) && n <= |r.steps|
    ensures (forall k :: 0 <= k <= n ==> AgreesAfter(cfg, r, k))
       <==> forall k :: 0 <= k < n ==> Comparable(cfg, r, k)
  {
    hide AgreesAfter, Comparable, OwnLeases, Next;
    if forall k :: 0 <= k < n ==> Comparable(cfg, r, k) {
      forall k | 0 <= k <= n ensures AgreesAfter(cfg, r, k) {
        BackendsAgree(cfg, r, k);
      }
    } else {
      BackendsAgreeExactly(cfg, r, n - 1);
      if forall k :: 0 <= k < n - 1 ==> Comparable(cfg, r, k) {
        Parts(cfg, r, n - 1);
      }
    }
  }

  lemma Parts(cfg: Settings, r: Run, k: nat)
    requires FromEmpty(cfg, r) && OwnLeases(r.steps) && k < |r.steps|
    requires !Comparable(cfg, r, k) && forall j :: 0 <= j < k ==> Comparable(cfg, r, j)
    ensures !AgreesAfter(cfg, r, k + 1)
  {
    var dbs := FirstParting(cfg, r, k);
  }

  /** In particular they agree if the batches are a time-to-live apart and cut cleanly. */
  lemma SpacedBatchesAgree(cfg: Settings, r: Run)
    requires FromEmpty(cfg, r) && OwnLeases(r.steps)
    requires forall j, k :: 0 <= j < k < |r.steps| && r.steps[j].EvaluateSla? && r.steps[k].EvaluateSla? ==>
      r.steps[j].now + SlaTtl(cfg) <= r.steps[k].now
    requires forall k :: 0 <= k < |r.steps| && r.steps[k].EvaluateSla? ==>
      CleanCut(r.states[k].commands, r.steps[k].limit, r.steps[k].now)
    ensures forall k :: 0 <= k <= |r.steps| ==> AgreesAfter(cfg, r, k)
  {
    hide AgreesAfter, CleanCut, OwnLeases;
    AllGetLease(cfg, r.steps, |r.steps|);
    BackendsAgreeExactly(cfg, r, |r.steps|);
    assert forall k :: 0 <= k < |r.steps| ==> Comparable(cfg, r, k);
  }

  // A refused batch with something to do.

  /** Whatever the database answers, it does not hold the in-memory commands after a batch that it
      refuses and that had something to do. */
  lemma RefusedBatchParts(cfg: Settings, r: Run, k: nat, dbs: seq<Database>)
    requires FromEmpty(cfg, r) && OwnLeases(r.steps) && k < |r.steps|
    requires !Served(cfg, r, k) && forall j :: 0 <= j < k ==> Comparable(cfg, r, j)
    requires PgRun(cfg, r.steps[..k + 1], dbs)
    ensures !Represents(dbs[k + 1].commands, r.states[k + 1].commands)
  {
    hide Next, PgLeaseStep, Represents, OwnLeases, GetsLease, Idle, PgGranted;
    BackendsAgree(cfg, r, k);
    PgPrefix(cfg, r.steps[..k + 1], dbs, k);
    assert r.steps[..k + 1][..k] == r.steps[..k];
    assert dbs[..k + 1][k] == dbs[k];
    assert Takes(cfg, r, k);
    assert PgTakes(cfg, r.steps[..k + 1], dbs, k);
    GrantTold(cfg, r.steps, dbs[..k + 1], k);
    MemoryLeaseFree(cfg, r, k, k);
    var s, step := r.states[k], r.steps[k];
    BatchCommands(cfg, s, step);
    BusyBody(dbs[k].commands, s, step.limit, step.now, step.eventIds);
  }

  // The lease protocol on the database.

  function LeasesIn(steps: seq<Step>, dbs: seq<Database>): LeaseRun {
    LeaseRun(false, seq(|dbs|, k requires 0 <= k < |dbs| => dbs[k].leases), steps)
  }

  lemma PgRunIsLeaseRun(cfg: Settings, steps: seq<Step>, dbs: seq<Database>)
    requires PgRun(cfg, steps, dbs)
    ensures IsLeaseRun(cfg, LeasesIn(steps, dbs))
  {
    hide PgLeaseStep, LeaseStep, PgCommandStep;
    forall k | 0 <= k < |steps| ensures LeaseTakes(cfg, LeasesIn(steps, dbs), k) {
      assert PgTakes(cfg, steps, dbs, k);
      LeaseStepAgrees(cfg, dbs[k].leases, steps[k], dbs[k + 1].leases);
    }
  }

  /** On the database too, two workers never hold one lease at one time. A batch is among the grants
      there, since its lease stays until it expires. */
  lemma PgLeaseExclusion(
    cfg: Settings, steps: seq<Step>, dbs: seq<Database>, k: nat, m: nat, q: Request, q': Request, time: Time)
    requires PgRun(cfg, steps, dbs) && ForwardClock(steps) && k < m
    requires Grants(cfg, LeasesIn(steps, dbs), k, q) && Grants(cfg, LeasesIn(steps, dbs), m, q')
    requires q.name == q'.name && q.owner != q'.owner && NotCutShort(cfg, LeasesIn(steps, dbs), k, m, q)
    ensures !(Live(LeasesIn(steps, dbs), k, q, time) && Live(LeasesIn(steps, dbs), m, q', time))
  {
    PgRunIsLeaseRun(cfg, steps, dbs);
    LeaseExclusion(cfg, LeasesIn(steps, dbs), k, m, q, q', time);
  }

  /** Two batches of one kind, granted to different owners, are at least a time-to-live apart. */
  lemma PgBatchesApart(cfg: Settings, steps: seq<Step>, dbs: seq<Database>, k: nat, m: nat, q: Request, q': Request)
    requires PgRun(cfg, steps, dbs) && ForwardClock(steps) && k < m
    requires Grants(cfg, LeasesIn(steps, dbs), k, q) && Grants(cfg, LeasesIn(steps, dbs), m, q')
    requires steps[k].EvaluateSla? || steps[k].DeliverIncidents?
    requires q.name == q'.name && q.owner != q'.owner
    requires forall j :: k < j < m ==>
      !(steps[j].AcquireLease? && steps[j].name == q.name) && !(steps[j].ReleaseLease? && steps[j].name == q.name)
    ensures q.now + q.ttlSeconds * SECOND <= q'.now
  {
    PgRunIsLeaseRun(cfg, steps, dbs);
    var r := LeasesIn(steps, dbs);
    forall j | k < j < m ensures !CutsShort(cfg, false, steps[j], q) {
      assert steps[k].now <= steps[j].now;
    }
    LaterGrantWaits(cfg, r, k, m, q, q');
  }
}
