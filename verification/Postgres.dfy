/**
The PostgreSQL repository, as what its SQL allows: rows in no order under their primary key, an
ORDER BY that leaves ties open, an UPDATE of seven columns, and a lease that outlives its batch.
Where no rows tie, its answers have no freedom left, and they are the in-memory ones.
*/
module Postgres {
  import opened Common
  import opened Entities
  import opened Ranking
  import opened CommandTable
  import opened UseCases
  import opened Pipeline
  import opened Runs
  import opened Lifecycle
  import opened Scheduler
  import opened Dedup
  import opened Leases

  /** The commands table, by primary key. */
  type Rows = map<Id, Command>

  datatype Database = Database(commands: Rows, leases: LeaseTable)

  // What the statements may answer.

  /** ... ORDER BY ... LIMIT 1: some matching row that no matching row precedes. */
  ghost predicate SelectOne(db: Rows, q: Query, r: Option<Command>) {
    match r
    case None => forall id :: id in db ==> !q.Matches(db[id])
    case Some(c) =>
      && c.commandId in db && db[c.commandId] == c && q.Matches(c)
      && forall id :: id in db && q.Matches(db[id]) ==> !Less(q.Order(db[id]), q.Order(c))
  }

  /** ... ORDER BY ...: the matching rows, each once, none before a smaller one. */
  ghost predicate SelectAll(db: Rows, q: Query, rows: seq<Command>) {
    && (forall k :: 0 <= k < |rows| ==>
          rows[k].commandId in db && db[rows[k].commandId] == rows[k] && q.Matches(rows[k]))
    && (forall j, k :: 0 <= j < k < |rows| ==>
          rows[j].commandId != rows[k].commandId && !Less(q.Order(rows[k]), q.Order(rows[j])))
    && (forall id :: id in db && q.Matches(db[id]) ==> db[id] in rows)
  }

  /** ... ORDER BY ... LIMIT: the front of what it could answer without the LIMIT. */
  ghost predicate SelectTop(db: Rows, q: Query, limit: nat, rows: seq<Command>) {
    exists all :: SelectAll(db, q, all) && rows == Take(all, limit)
  }

  /** SELECT count(*) of the pending rows at the point. */
  function SelectPendingCount(db: Rows, p: Point): nat {
    |set id | id in db && db[id].PointOf() == p && db[id].IsPending()|
  }

  /** SELECT COALESCE(max(queue_seq), 0) + 1 over the queued rows at the point. */
  ghost predicate SelectNextSeq(db: Rows, p: Point, n: int) {
    && (forall id :: id in db && QueuedAt(p).Matches(db[id]) ==> db[id].queueSeq <= n - 1)
    && ((exists id :: id in db && QueuedAt(p).Matches(db[id]) && db[id].queueSeq == n - 1)
        || (n == 1 && forall id :: id in db ==> !QueuedAt(p).Matches(db[id])))
  }

  function SelectById(db: Rows, id: Id): Option<Command> {
    if id in db then Some(db[id]) else None
  }

  /** UPDATE ... SET the seven changeable columns WHERE command_id = ... */
  function Update(db: Rows, item: Command): Rows {
    if item.commandId in db then db[item.commandId := WithChangeable(db[item.commandId], item)] else db
  }

  function Insert(db: Rows, item: Command): Rows {
    db[item.commandId := item]
  }

  /** INSERT of a lease ON CONFLICT DO UPDATE, WHERE the old one has expired or is the owner's own,
      RETURNING owner_id: no row comes back where the WHERE clause fails. */
  function UpsertLease(leases: LeaseTable, name: string, owner: Id, now: Time, ttlSeconds: int)
    : (LeaseTable, Option<Id>)
  {
    var row := Lease(owner, now + ttlSeconds * SECOND);
    if name !in leases then (leases[name := row], Some(owner))
    else if leases[name].expiresAt <= now || leases[name].ownerId == row.ownerId then
      (leases[name := row], Some(row.ownerId))
    else (leases, None)
  }

  /** DELETE of the lease WHERE it is the owner's. */
  function DeleteLease(leases: LeaseTable, name: string, owner: Id): LeaseTable {
    map key | key in leases && !(key == name && leases[key].ownerId == owner) :: leases[key]
  }

  // The use cases on this repository.

  ghost predicate SubmitAnswers(db: Rows, p: Probe, q: SubmitQueries) {
    && SelectOne(db, RecentByKey(p.point.siteId, p.key, p.keySince), q.duplicate)
    && SelectOne(db, RecentByCorrelation(p.point.siteId, p.correlationId, p.correlationSince), q.conflicting)
    && q.pendingDepth == SelectPendingCount(db, p.point)
    && SelectOne(db, InflightAt(p.point), q.inflight)
    && SelectNextSeq(db, p.point, q.nextQueueSeq)
  }

  ghost predicate PgSubmit(
    cfg: Settings, db: Rows, req: SubmitRequest, now: Time, draws: Draws,
    reply: Outcome<SubmissionResult>, db': Rows)
  {
    exists q :: SubmitAnswers(db, ProbeOf(cfg, req, now, draws), q)
      && reply == SubmitDecision(cfg, req, now, draws, q)
      && db' == if Admitted(reply) then Insert(db, reply.value.command) else db
  }

  ghost predicate DispatchAnswers(
    db: Rows, p: Point, inflight: Option<Command>, accepted: Option<Command>, queued: seq<Command>)
  {
    && SelectOne(db, InflightAt(p), inflight)
    && SelectOne(db, AcceptedAt(p), accepted)
    && SelectAll(db, QueuedAt(p), queued)
  }

  /** A reply the database may lead to, of a use case that writes the row it replies with. */
  ghost predicate PgRowReply(db: Rows, step: Step, reply: Outcome<Command>)
    requires step.Cancel? || step.Override? || step.Dispatch? || step.Reconcile?
  {
    match step
    case Cancel(id, now) => reply == CancelDecision(SelectById(db, id), now)
    case Override(id, role, reason, channel, now) =>
      reply == OverrideDecision(SelectById(db, id), role, reason, channel, now)
    case Reconcile(id, observedMatch, now) => reply == ReconcileDecision(SelectById(db, id), observedMatch, now)
    case Dispatch(p, now) =>
      exists inflight, accepted, queued :: DispatchAnswers(db, p, inflight, accepted, queued)
        && reply == DispatchDecision(inflight, accepted, queued, now)
  }

  function PgWritten(db: Rows, reply: Outcome<Command>): Rows {
    if reply.Ok? then Update(db, reply.value) else db
  }

  function PgSlaWritten(db: Rows, reply: Outcome<SlaCheckResult>): Rows {
    if reply.Ok? && reply.value.breached then Update(db, reply.value.command) else db
  }

  /** The loop of the deadline batch over the rows it selected. */
  function PgBreached(db: Rows, rows: seq<Command>, now: Time): Rows {
    if rows == [] then db
    else
      var k := |rows| - 1;
      Update(PgBreached(db, rows[..k], now), Breached(rows[k], now))
  }

  /** What a step leaves in the lease table. A batch commits its upsert with its rows; it deletes its
      lease after that, in a transaction that ends with the connection, uncommitted. A DELETE of its
      own lasts if whoever asked for it commits. */
  ghost predicate PgLeaseStep(cfg: Settings, leases: LeaseTable, step: Step, leases': LeaseTable) {
    match step
    case AcquireLease(name, owner, now, ttl) => leases' == UpsertLease(leases, name, owner, now, ttl).0
    case ReleaseLease(name, owner, _) => leases' == DeleteLease(leases, name, owner) || leases' == leases
    case EvaluateSla(_, now, owner, _) =>
      leases' == UpsertLease(leases, SLA_LEASE, owner, now, cfg.slaBatchLockTtlSeconds).0
    case DeliverIncidents(_, now, owner) =>
      leases' == UpsertLease(leases, DELIVERY_LEASE, owner, now, cfg.incidentDeliveryLockTtlSeconds).0
    case _ => leases' == leases
  }

  /** The deadline batch gets its lease. */
  predicate PgGranted(cfg: Settings, leases: LeaseTable, step: Step)
    requires step.EvaluateSla?
  {
    UpsertLease(leases, SLA_LEASE, step.owner, step.now, cfg.slaBatchLockTtlSeconds).1 == Some(step.owner)
  }

  ghost predicate PgBatchBody(db: Rows, limit: nat, now: Time, db': Rows) {
    exists rows :: SelectTop(db, Overdue(now), limit, rows) && db' == PgBreached(db, rows, now)
  }

  ghost predicate PgCommandStep(cfg: Settings, db: Database, step: Step, rows': Rows) {
    match step
    case Submit(req, now, draws) => exists reply :: PgSubmit(cfg, db.commands, req, now, draws, reply, rows')
    case CheckSla(id, now, _) => rows' == PgSlaWritten(db.commands, SlaDecision(SelectById(db.commands, id), now))
    case EvaluateSla(limit, now, _, _) =>
      if PgGranted(cfg, db.leases, step) then PgBatchBody(db.commands, limit, now, rows') else rows' == db.commands
    case DeliverIncidents(_, _, _) => rows' == db.commands
    case AcquireLease(_, _, _, _) => rows' == db.commands
    case ReleaseLease(_, _, _) => rows' == db.commands
    case _ => exists reply :: PgRowReply(db.commands, step, reply) && rows' == PgWritten(db.commands, reply)
  }

  /** The step, run on this repository, may take the database from db to db'. */
  ghost predicate PgStep(cfg: Settings, db: Database, step: Step, db': Database) {
    PgLeaseStep(cfg, db.leases, step, db'.leases) && PgCommandStep(cfg, db, step, db'.commands)
  }

  // Agreement.

  /** The two repositories hold the same rows. */
  ghost predicate Represents(db: Rows, t: Table) {
    && DistinctIds(t)
    && (forall i :: 0 <= i < |t| ==> t[i].commandId in db && db[t[i].commandId] == t[i])
    && (forall id :: id in db ==> exists i :: 0 <= i < |t| && t[i].commandId == id)
  }

  /** No two matching rows tie. */
  ghost predicate Unambiguous(t: Table, q: Query) {
    forall i, j :: 0 <= i < j < |t| && q.Matches(t[i]) && q.Matches(t[j]) ==> q.Order(t[i]) != q.Order(t[j])
  }

  lemma RowIn(db: Rows, t: Table, c: Command) returns (i: nat)
    requires Represents(db, t) && c.commandId in db && db[c.commandId] == c
    ensures i < |t| && t[i] == c
  {
    i :| 0 <= i < |t| && t[i].commandId == c.commandId;
  }

  /** Where nothing ties, LIMIT 1 has one possible answer, and it is the stable sort's first. */
  lemma SelectOneAgrees(db: Rows, t: Table, q: Query, r: Option<Command>)
    requires Represents(db, t) && Unambiguous(t, q) && SelectOne(db, q, r)
    ensures r == First(t, MarksOf(t, q))
  {
    var m := MarksOf(t, q);
    if r.Some? {
      var i := RowIn(db, t, r.value);
      forall j: nat | Kept(m, j) && j != i ensures Precedes(m, i, j) {
        assert t[j].commandId in db && q.Matches(db[t[j].commandId]);
      }
      RankedHeadIs(m, i);
    } else {
      forall j: nat | j < |m| ensures m[j].None? {
        assert t[j].commandId in db && db[t[j].commandId] == t[j];
      }
      RankedEmpty(m);
    }
  }

  lemma PositionsOf(db: Rows, t: Table, rows: seq<Command>) returns (r: seq<nat>)
    requires Represents(db, t)
    requires forall k :: 0 <= k < |rows| ==> rows[k].commandId in db && db[rows[k].commandId] == rows[k]
    ensures |r| == |rows|
    ensures forall k :: 0 <= k < |r| ==> r[k] < |t| && t[r[k]] == rows[k]
  {
    if rows == [] {
      r := [];
    } else {
      r := PositionsOf(db, t, rows[..|rows| - 1]);
      var i := RowIn(db, t, rows[|rows| - 1]);
      r := r + [i];
    }
  }

  lemma SelectedSorted(db: Rows, t: Table, q: Query, rows: seq<Command>, r: seq<nat>)
    requires Unambiguous(t, q) && SelectAll(db, q, rows)
    requires |r| == |rows| && forall k :: 0 <= k < |r| ==> r[k] < |t| && t[r[k]] == rows[k]
    ensures Sorted(MarksOf(t, q), r)
  {
    var m := MarksOf(t, q);
    forall k | 0 <= k < |r| ensures Kept(m, r[k]) && m[r[k]] == Some(q.Order(rows[k])) {
      assert q.Matches(rows[k]);
    }
    forall j, k | 0 <= j < k < |r| ensures Precedes(m, r[j], r[k]) {
      assert rows[j].commandId != rows[k].commandId && !Less(q.Order(rows[k]), q.Order(rows[j]));
      assert r[j] != r[k];
      assert q.Matches(t[r[j]]) && q.Matches(t[r[k]]);
    }
  }

  lemma SelectedAll(db: Rows, t: Table, q: Query, rows: seq<Command>, r: seq<nat>)
    requires Represents(db, t) && SelectAll(db, q, rows)
    requires |r| == |rows| && forall k :: 0 <= k < |r| ==> r[k] < |t| && t[r[k]] == rows[k]
    ensures forall i: nat :: Kept(MarksOf(t, q), i) ==> i in r
  {
    forall i: nat | Kept(MarksOf(t, q), i) ensures i in r {
      assert t[i].commandId in db && db[t[i].commandId] == t[i];
      var k :| 0 <= k < |rows| && rows[k] == t[i];
      assert r[k] == i;
    }
  }

  /** Where nothing ties, ORDER BY has one possible answer, and it is the stable sort's. */
  lemma SelectAllAgrees(db: Rows, t: Table, q: Query, rows: seq<Command>)
    requires Represents(db, t) && Unambiguous(t, q) && SelectAll(db, q, rows)
    ensures forall k :: 0 <= k < |Ranked(MarksOf(t, q))| ==> Ranked(MarksOf(t, q))[k] < |t|
    ensures rows == RowsAt(t, Ranked(MarksOf(t, q)))
  {
    var r := PositionsOf(db, t, rows);
    assert r == Ranked(MarksOf(t, q)) by {
      SelectedSorted(db, t, q, rows, r);
      SelectedAll(db, t, q, rows, r);
      RankingUnique(MarksOf(t, q), r);
    }
  }

  /** The in-memory answer is one the database may give. */
  lemma ListedIsSelected(db: Rows, t: Table, q: Query)
    requires Represents(db, t)
    ensures forall k :: 0 <= k < |Ranked(MarksOf(t, q))| ==> Ranked(MarksOf(t, q))[k] < |t|
    ensures SelectAll(db, q, RowsAt(t, Ranked(MarksOf(t, q))))
  {
    var m := MarksOf(t, q);
    RankedIsRanking(m);
    RankedInRange(m);
    SortedIsSelected(db, t, q, Ranked(m));
  }

  lemma RankedKeys(t: Table, q: Query, r: seq<nat>)
    requires Sorted(MarksOf(t, q), r) && forall k :: 0 <= k < |r| ==> r[k] < |t|
    ensures forall k :: 0 <= k < |r| ==> q.Matches(t[r[k]])
    ensures forall j, k :: 0 <= j < k < |r| ==> r[j] != r[k] && !Less(q.Order(t[r[k]]), q.Order(t[r[j]]))
  {
    hide Query.Matches, Query.Order;
    var m := MarksOf(t, q);
    forall k | 0 <= k < |r| ensures q.Matches(t[r[k]]) && m[r[k]] == Some(q.Order(t[r[k]])) {
      assert Kept(m, r[k]);
    }
    forall j, k | 0 <= j < k < |r| ensures r[j] != r[k] && !Less(q.Order(t[r[k]]), q.Order(t[r[j]])) {
      assert Precedes(m, r[j], r[k]);
    }
  }

  lemma SortedIsSelected(db: Rows, t: Table, q: Query, r: seq<nat>)
    requires Represents(db, t) && IsRanking(MarksOf(t, q), r)
    requires forall k :: 0 <= k < |r| ==> r[k] < |t|
    ensures SelectAll(db, q, RowsAt(t, r))
  {
    RankedKeys(t, q, r);
    hide Query.Matches, Query.Order, Less, IsRanking, MarksOf;
    var rows := RowsAt(t, r);
    forall j, k | 0 <= j < k < |rows|
      ensures rows[j].commandId != rows[k].commandId && !Less(q.Order(rows[k]), q.Order(rows[j]))
    {
      assert r[j] != r[k];
    }
    forall id | id in db && q.Matches(db[id]) ensures db[id] in rows {
      RankedHolds(db, t, q, r, id);
    }
  }

  lemma RankedHolds(db: Rows, t: Table, q: Query, r: seq<nat>, id: Id)
    requires Represents(db, t) && IsRanking(MarksOf(t, q), r)
    requires forall k :: 0 <= k < |r| ==> r[k] < |t|
    requires id in db && q.Matches(db[id])
    ensures db[id] in RowsAt(t, r)
  {
    hide Query.Matches, Query.Order, Sorted;
    var i :| 0 <= i < |t| && t[i].commandId == id;
    assert Kept(MarksOf(t, q), i);
    var k :| 0 <= k < |r| && r[k] == i;
    assert RowsAt(t, r)[k] == db[id];
  }

  ghost predicate OneInflight(t: Table, p: Point) {
    forall i, j :: 0 <= i < j < |t| ==> !(InflightAt(p).Matches(t[i]) && InflightAt(p).Matches(t[j]))
  }

  /** No query on the table leaves the database a choice. */
  ghost predicate NoChoice(t: Table) {
    && (forall q: Query :: !q.Overdue? ==> Unambiguous(t, q))
    && (forall p: Point :: OneInflight(t, p))
    && QueueSeqPositive(t)
  }

  /** Window spacing, single flight and queue order leave no query a choice. */
  lemma WellKeptNoChoice(cfg: Settings, t: Table)
    requires Scheduled(cfg, t) && Spaced(cfg, t)
    ensures NoChoice(t)
  {}

  lemma InflightAgrees(db: Rows, t: Table, p: Point, r: Option<Command>)
    requires Represents(db, t) && OneInflight(t, p) && SelectOne(db, InflightAt(p), r)
    ensures r == FindInflightForPoint(t, p)
  {
    var found := FindInflightForPoint(t, p);
    if found.Some? {
      var j :| 0 <= j < |t| && t[j] == found.value;
      assert t[j].commandId in db && InflightAt(p).Matches(db[t[j].commandId]);
      var i := RowIn(db, t, r.value);
      assert InflightAt(p).Matches(t[i]) && InflightAt(p).Matches(t[j]);
    } else if r.Some? {
      var i := RowIn(db, t, r.value);
    }
  }

  ghost function IdsWhere(t: Table, flags: seq<bool>): set<Id>
    requires |flags| == |t|
  {
    set i | 0 <= i < |t| && flags[i] :: t[i].commandId
  }

  lemma LastIdWhere(t: Table, flags: seq<bool>, n: nat)
    requires |flags| == |t| == n + 1 && DistinctIds(t)
    ensures t[n].commandId !in IdsWhere(t[..n], flags[..n])
    ensures IdsWhere(t, flags) == IdsWhere(t[..n], flags[..n]) + if flags[n] then {t[n].commandId} else {}
  {
    forall id | id in IdsWhere(t, flags)
      ensures id in IdsWhere(t[..n], flags[..n]) || (flags[n] && id == t[n].commandId)
    {
      var i :| 0 <= i < |t| && flags[i] && t[i].commandId == id;
      assert i < n ==> flags[..n][i] && t[..n][i].commandId == id;
    }
    assert forall i :: 0 <= i < n ==> t[..n][i] == t[i] && flags[..n][i] == flags[i];
  }

  lemma NoIdWhere(t: Table, flags: seq<bool>)
    requires |flags| == |t| == 0
    ensures IdsWhere(t, flags) == {}
  {}

  /** Where ids are distinct, the marked rows have as many ids. */
  lemma {:induction false} IdsWhereCount(t: Table, flags: seq<bool>)
    requires |flags| == |t| && DistinctIds(t)
    ensures |IdsWhere(t, flags)| == Count(flags)
  {
    hide IdsWhere;
    if t == [] {
      NoIdWhere(t, flags);
    } else {
      var n := |t| - 1;
      IdsWhereCount(t[..n], flags[..n]);
      LastIdWhere(t, flags, n);
    }
  }

  lemma CountAgrees(db: Rows, t: Table, p: Point)
    requires Represents(db, t)
    ensures SelectPendingCount(db, p) == CountPendingForPoint(t, p)
  {
    var flags := PendingFlags(t, p);
    IdsWhereCount(t, flags);
    var selected := set id | id in db && db[id].PointOf() == p && db[id].IsPending();
    forall id | id in selected ensures id in IdsWhere(t, flags) {
      var i :| 0 <= i < |t| && t[i].commandId == id;
      assert flags[i];
    }
    assert selected == IdsWhere(t, flags);
  }

  lemma NextSeqAgrees(db: Rows, t: Table, p: Point, n: int)
    requires Represents(db, t) && QueueSeqPositive(t) && SelectNextSeq(db, p, n)
    ensures n == NextQueueSeq(t, p)
  {
    var m := NextQueueSeq(t, p);
    if m > 1 {
      var i :| 0 <= i < |t| && t[i].PointOf() == p && t[i].status == Queued && t[i].queueSeq == m - 1;
      assert t[i].commandId in db && QueuedAt(p).Matches(db[t[i].commandId]);
    }
    if id :| id in db && QueuedAt(p).Matches(db[id]) && db[id].queueSeq == n - 1 {
      var i :| 0 <= i < |t| && t[i].commandId == id;
      assert t[i] == db[id];
    }
  }

  lemma GetAgrees(db: Rows, t: Table, id: Id)
    requires Represents(db, t)
    ensures SelectById(db, id) == Get(t, id)
  {
    var p := Find(t, id);
    if p.Some? {
      assert t[p.value].commandId in db;
    }
  }

  lemma DuplicateAgrees(db: Rows, t: Table, siteId: string, key: string, since: Time, r: Option<Command>)
    requires Represents(db, t) && NoChoice(t) && SelectOne(db, RecentByKey(siteId, key, since), r)
    ensures r == FindRecentByIdempotency(t, siteId, key, since)
  {
    var q := RecentByKey(siteId, key, since);
    SelectOneAgrees(db, t, q, r);
  }

  lemma ConflictAgrees(db: Rows, t: Table, siteId: string, id: string, since: Time, r: Option<Command>)
    requires Represents(db, t) && NoChoice(t) && SelectOne(db, RecentByCorrelation(siteId, id, since), r)
    ensures r == FindRecentByCorrelation(t, siteId, id, since)
  {
    var q := RecentByCorrelation(siteId, id, since);
    SelectOneAgrees(db, t, q, r);
  }

  lemma AcceptedAgrees(db: Rows, t: Table, p: Point, r: Option<Command>)
    requires Represents(db, t) && NoChoice(t) && SelectOne(db, AcceptedAt(p), r)
    ensures r == FindAcceptedForPoint(t, p)
  {
    SelectOneAgrees(db, t, AcceptedAt(p), r);
  }

  /** The queue comes out of the database in the one order there is. */
  lemma QueueAgrees(db: Rows, t: Table, p: Point, rows: seq<Command>)
    requires Represents(db, t) && NoChoice(t) && SelectAll(db, QueuedAt(p), rows)
    ensures rows == RowsAt(t, ListQueuedForPoint(t, p))
  {
    SelectAllAgrees(db, t, QueuedAt(p), rows);
  }

  /** The queries of a submission can only answer what the in-memory ones do. */
  lemma SubmitAnswersAgree(db: Rows, t: Table, p: Probe, q: SubmitQueries)
    requires Represents(db, t) && NoChoice(t) && SubmitAnswers(db, p, q)
    ensures q == QueriesOf(t, p)
  {
    DuplicateAgrees(db, t, p.point.siteId, p.key, p.keySince, q.duplicate);
    ConflictAgrees(db, t, p.point.siteId, p.correlationId, p.correlationSince, q.conflicting);
    CountAgrees(db, t, p.point);
    InflightAgrees(db, t, p.point, q.inflight);
    NextSeqAgrees(db, t, p.point, q.nextQueueSeq);
  }

  /** Submission: the one possible reply is the in-memory one, and the same row is added or none. */
  lemma SubmitAgrees(
    cfg: Settings, db: Rows, t: Table, req: SubmitRequest, now: Time, draws: Draws,
    reply: Outcome<SubmissionResult>, db': Rows)
    requires Represents(db, t) && NoChoice(t) && Find(t, draws.commandId).None?
    requires PgSubmit(cfg, db, req, now, draws, reply, db')
    ensures reply == SubmitReply(cfg, t, req, now, draws)
    ensures Represents(db', if Admitted(reply) then t + [reply.value.command] else t)
  {
    hide Represents, NoChoice, First, FindInflightForPoint, NextQueueSeq, CountPendingForPoint;
    var q :| SubmitAnswers(db, ProbeOf(cfg, req, now, draws), q)
      && reply == SubmitDecision(cfg, req, now, draws, q)
      && db' == if Admitted(reply) then Insert(db, reply.value.command) else db;
    SubmitAnswersAgree(db, t, ProbeOf(cfg, req, now, draws), q);
    if Admitted(reply) {
      SubmitCase(cfg, t, req, now, draws);
      InsertRepresents(db, t, reply.value.command);
    }
  }

  lemma DispatchAgrees(db: Rows, t: Table, p: Point, now: Time,
    inflight: Option<Command>, accepted: Option<Command>, queued: seq<Command>)
    requires Represents(db, t) && NoChoice(t) && DispatchAnswers(db, p, inflight, accepted, queued)
    ensures DispatchDecision(inflight, accepted, queued, now) == DispatchReply(t, p, now)
    ensures queued == RowsAt(t, ListQueuedForPoint(t, p))
  {
    InflightAgrees(db, t, p, inflight);
    AcceptedAgrees(db, t, p, accepted);
    QueueAgrees(db, t, p, queued);
  }

  /** Cancel, override, dispatch and reconcile: the one possible reply is the in-memory one. */
  lemma RowReplyAgrees(db: Rows, s: Store, step: Step, reply: Outcome<Command>)
    requires Represents(db, s.commands) && NoChoice(s.commands)
    requires step.Cancel? || step.Override? || step.Dispatch? || step.Reconcile?
    requires PgRowReply(db, step, reply)
    ensures reply == RowReply(s, step)
  {
    if step.Dispatch? {
      var inflight, accepted, queued :| DispatchAnswers(db, step.point, inflight, accepted, queued)
        && reply == DispatchDecision(inflight, accepted, queued, step.now);
      DispatchAgrees(db, s.commands, step.point, step.now, inflight, accepted, queued);
    } else {
      GetAgrees(db, s.commands, step.commandId);
    }
  }

  lemma InsertRepresents(db: Rows, t: Table, c: Command)
    requires Represents(db, t) && Find(t, c.commandId).None?
    ensures Represents(Insert(db, c), t + [c])
  {
    var t' := t + [c];
    forall id | id in Insert(db, c) ensures exists i :: 0 <= i < |t'| && t'[i].commandId == id {
      if id == c.commandId {
        assert t'[|t|].commandId == id;
      } else {
        var i :| 0 <= i < |t| && t[i].commandId == id;
        assert t'[i].commandId == id;
      }
    }
  }

  /** The seven-column UPDATE equals replacing the row, because no use case changes another column. */
  lemma UpdateRepresents(db: Rows, t: Table, i: nat, c: Command)
    requires Represents(db, t) && i < |t| && SameOrigin(t[i], c)
    ensures Update(db, c) == db[c.commandId := c]
    ensures Represents(Update(db, c), t[i := c])
  {
    var t' := t[i := c];
    assert t[i].commandId == c.commandId;
    assert WithChangeable(t[i], c) == c;
    forall id | id in Update(db, c) ensures exists j :: 0 <= j < |t'| && t'[j].commandId == id {
      var j :| 0 <= j < |t| && t[j].commandId == id;
      assert t'[j].commandId == id;
    }
  }

  /** The row a use case writes, as a later version of the row at its position. */
  lemma WrittenRow(s: Store, step: Step) returns (i: nat)
    requires DistinctIds(s.commands)
    requires step.Cancel? || step.Override? || step.Dispatch? || step.Reconcile?
    requires RowReply(s, step).Ok?
    ensures i < |s.commands| && SameOrigin(s.commands[i], RowReply(s, step).value)
    ensures Written(s.commands, RowReply(s, step)) == s.commands[i := RowReply(s, step).value]
  {
    var t := s.commands;
    if step.Dispatch? {
      DispatchCase(t, step.point, step.now);
      i := NextUp(t, step.point).value;
    } else {
      i := Find(t, step.commandId).value;
      PutAt(t, i, RowReply(s, step).value);
    }
  }

  // The in-memory answers are among the possible ones.

  lemma FirstIsSelected(db: Rows, t: Table, q: Query)
    requires Represents(db, t)
    ensures SelectOne(db, q, First(t, MarksOf(t, q)))
  {
    var m := MarksOf(t, q);
    RankedEmpty(m);
    forall id | id in db && q.Matches(db[id])
      ensures First(t, m).Some? && !Less(q.Order(db[id]), q.Order(First(t, m).value))
    {
      var i :| 0 <= i < |t| && t[i].commandId == id;
      assert Kept(m, i);
      RankedHead(m, i);
    }
  }

  lemma InflightIsSelected(db: Rows, t: Table, p: Point)
    requires Represents(db, t) && OneInflight(t, p)
    ensures SelectOne(db, InflightAt(p), FindInflightForPoint(t, p))
  {
    var q, found := InflightAt(p), FindInflightForPoint(t, p);
    forall id | id in db && q.Matches(db[id]) ensures found == Some(db[id]) {
      var i: nat :| i < |t| && t[i].commandId == id;
      assert q.Matches(t[i]);
      var j: nat :| FirstMatch(t, q, j) && t[j] == found.value;
      assert i == j;
    }
  }

  lemma NextSeqIsSelected(db: Rows, t: Table, p: Point)
    requires Represents(db, t) && QueueSeqPositive(t)
    ensures SelectNextSeq(db, p, NextQueueSeq(t, p))
  {
    var n := NextQueueSeq(t, p);
    forall id | id in db && QueuedAt(p).Matches(db[id]) ensures 0 < db[id].queueSeq <= n - 1 {
      var i :| 0 <= i < |t| && t[i].commandId == id;
      assert t[i] == db[id];
    }
    if n > 1 {
      var i :| 0 <= i < |t| && t[i].PointOf() == p && t[i].status == Queued && t[i].queueSeq == n - 1;
      assert t[i].commandId in db && QueuedAt(p).Matches(db[t[i].commandId]);
    }
  }

  lemma SubmitIsAnswered(db: Rows, t: Table, p: Probe)
    requires Represents(db, t) && NoChoice(t)
    ensures SubmitAnswers(db, p, QueriesOf(t, p))
  {
    FirstIsSelected(db, t, RecentByKey(p.point.siteId, p.key, p.keySince));
    FirstIsSelected(db, t, RecentByCorrelation(p.point.siteId, p.correlationId, p.correlationSince));
    CountAgrees(db, t, p.point);
    InflightIsSelected(db, t, p.point);
    NextSeqIsSelected(db, t, p.point);
  }

  lemma DispatchIsAnswered(db: Rows, t: Table, p: Point)
    requires Represents(db, t) && NoChoice(t)
    ensures DispatchAnswers(
      db, p, FindInflightForPoint(t, p), FindAcceptedForPoint(t, p), RowsAt(t, ListQueuedForPoint(t, p)))
  {
    InflightIsSelected(db, t, p);
    FirstIsSelected(db, t, AcceptedAt(p));
    ListedIsSelected(db, t, QueuedAt(p));
  }
}
