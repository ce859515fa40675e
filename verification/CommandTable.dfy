/**
The in-memory command table and its queries. A Python dict keeps its entries in insertion order
and an overwritten entry keeps its place, so the table is a sequence of commands.
*/
module CommandTable {
  import opened Common
  import opened Entities
  import opened Ranking

  type Table = seq<Command>

  /** Where the row with this id is. */
  function Find(t: Table, id: Id): (r: Option<nat>)
    ensures r.Some? ==> r.value < |t| && t[r.value].commandId == id
    ensures r.None? ==> forall i :: 0 <= i < |t| ==> t[i].commandId != id
  {
    if t == [] then None
    else if t[|t| - 1].commandId == id then Some(|t| - 1)
    else Find(t[..|t| - 1], id)
  }

  function Get(t: Table, id: Id): (r: Option<Command>)
    ensures r.Some? <==> exists i :: 0 <= i < |t| && t[i].commandId == id
    ensures r.Some? ==> r.value in t && r.value.commandId == id
  {
    var p := Find(t, id);
    if p.None? then None else Some(t[p.value])
  }

  /** Dict assignment under the command's id: overwrite in place, or append. */
  function Put(t: Table, c: Command): Table {
    var p := Find(t, c.commandId);
    if p.None? then t + [c] else t[p.value := c]
  }

  ghost predicate DistinctIds(t: Table) {
    forall i, j :: 0 <= i < j < |t| ==> t[i].commandId != t[j].commandId
  }

  lemma FindAt(t: Table, i: nat)
    requires DistinctIds(t) && i < |t|
    ensures Find(t, t[i].commandId) == Some(i)
    ensures Get(t, t[i].commandId) == Some(t[i])
  {}

  lemma PutAt(t: Table, i: nat, c: Command)
    requires DistinctIds(t) && i < |t| && c.commandId == t[i].commandId
    ensures Put(t, c) == t[i := c]
  {
    FindAt(t, i);
  }

  lemma PutKeepsIds(t: Table, c: Command)
    requires DistinctIds(t)
    ensures DistinctIds(Put(t, c))
  {}

  // Queries.

  /** Which rows a query of the repositories wants, and by what key they are ordered. */
  datatype Query =
    | RecentByKey(siteId: string, key: string, since: Time)
    | RecentByCorrelation(siteId: string, correlationId: string, since: Time)
    | InflightAt(point: Point)
    | AcceptedAt(point: Point)
    | QueuedAt(point: Point)
    | Overdue(before: Time)
  {
    predicate Matches(c: Command) {
      match this
      case RecentByKey(siteId, key, since) =>
        c.siteId == siteId && c.idempotencyKey == key && c.createdAt >= since
      case RecentByCorrelation(siteId, correlationId, since) =>
        c.siteId == siteId && c.correlationId == correlationId && c.createdAt >= since
      case InflightAt(p) => c.PointOf() == p && c.status == Dispatched
      case AcceptedAt(p) => c.PointOf() == p && c.status == Accepted
      case QueuedAt(p) => c.PointOf() == p && c.status == Queued
      case Overdue(before) => c.IsPending() && c.reconciliationDeadlineAt < before
    }

    /** The sort key, ascending. The in-memory scan for the inflight row does not use it. */
    function Order(c: Command): Key {
      match this
      case RecentByKey(_, _, _) => Key(-c.createdAt, 0, 0)
      case RecentByCorrelation(_, _, _) => Key(-c.createdAt, 0, 0)
      case InflightAt(_) => Key(c.createdAt, 0, 0)
      case AcceptedAt(_) => Key(c.createdAt, 0, 0)
      case QueuedAt(_) => Key(c.queuePriority, c.queueSeq, c.createdAt)
      case Overdue(_) => Key(c.reconciliationDeadlineAt, 0, 0)
    }
  }

  function MarksOf(t: Table, q: Query): (m: Marks)
    ensures |m| == |t|
  {
    seq(|t|, i requires 0 <= i < |t| => if q.Matches(t[i]) then Some(q.Order(t[i])) else None)
  }

  /** The first row of the sorted list, if it has one. */
  function First(t: Table, m: Marks): Option<Command>
    requires |m| == |t|
  {
    RankedEmpty(m);
    var r := Ranked(m);
    if r == [] then None else Some(t[r[0]])
  }

  lemma NoneMatches(t: Table, q: Query)
    ensures First(t, MarksOf(t, q)).None? <==> forall i :: 0 <= i < |t| ==> !q.Matches(t[i])
  {
    var m := MarksOf(t, q);
    RankedEmpty(m);
    assert forall i :: 0 <= i < |t| ==> (m[i].None? <==> !q.Matches(t[i]));
  }

  function FindRecentByIdempotency(t: Table, siteId: string, key: string, since: Time): Option<Command> {
    First(t, MarksOf(t, RecentByKey(siteId, key, since)))
  }

  function FindRecentByCorrelation(t: Table, siteId: string, correlationId: string, since: Time): Option<Command> {
    First(t, MarksOf(t, RecentByCorrelation(siteId, correlationId, since)))
  }

  function FindAcceptedForPoint(t: Table, p: Point): Option<Command> {
    First(t, MarksOf(t, AcceptedAt(p)))
  }

  function PendingFlags(t: Table, p: Point): (f: seq<bool>)
    ensures |f| == |t|
  {
    seq(|t|, i requires 0 <= i < |t| => t[i].PointOf() == p && t[i].IsPending())
  }

  function CountPendingForPoint(t: Table, p: Point): nat {
    Count(PendingFlags(t, p))
  }

  /** Row i matches, and no row inserted before it does. */
  ghost predicate FirstMatch(t: Table, q: Query, i: nat) {
    i < |t| && q.Matches(t[i]) && forall j :: 0 <= j < i ==> !q.Matches(t[j])
  }

  /** A scan in insertion order, from row i on, that stops at its first hit. */
  function ScanFrom(t: Table, q: Query, i: nat): (r: Option<nat>)
    requires i <= |t| && forall j :: 0 <= j < i ==> !q.Matches(t[j])
    ensures r.Some? ==> FirstMatch(t, q, r.value)
    ensures r.None? ==> forall j :: 0 <= j < |t| ==> !q.Matches(t[j])
    decreases |t| - i
  {
    if i == |t| then None
    else if q.Matches(t[i]) then Some(i)
    else ScanFrom(t, q, i + 1)
  }

  /** The first dispatched command at the point, in insertion order. */
  function FindInflightForPoint(t: Table, p: Point): (r: Option<Command>)
    ensures r.None? <==> forall i :: 0 <= i < |t| ==> !(t[i].PointOf() == p && t[i].status == Dispatched)
    ensures r.Some? ==> r.value in t && r.value.PointOf() == p && r.value.status == Dispatched
    ensures r.Some? ==> exists i: nat :: FirstMatch(t, InflightAt(p), i) && t[i] == r.value
  {
    var i := ScanFrom(t, InflightAt(p), 0);
    if i.None? then None else Some(t[i.value])
  }

  /** One more than the largest sequence number still queued at the point. */
  function NextQueueSeq(t: Table, p: Point): (n: int)
    ensures n >= 1
    ensures forall i :: 0 <= i < |t| && t[i].PointOf() == p && t[i].status == Queued ==> t[i].queueSeq < n
    ensures n > 1 ==>
      exists i :: 0 <= i < |t| && t[i].PointOf() == p && t[i].status == Queued && t[i].queueSeq == n - 1
  {
    if t == [] then 1
    else
      var before := t[..|t| - 1];
      var n := NextQueueSeq(before, p);
      var last := t[|t| - 1];
      assert n > 1 ==>
        exists i :: 0 <= i < |t| && t[i].PointOf() == p && t[i].status == Queued && t[i].queueSeq == n - 1 by {
        if n > 1 {
          var i :| 0 <= i < |before| && before[i].PointOf() == p && before[i].status == Queued
            && before[i].queueSeq == n - 1;
          assert t[i] == before[i];
        }
      }
      if last.PointOf() == p && last.status == Queued && last.queueSeq >= n then last.queueSeq + 1 else n
  }

  /** Positions of the queued commands at the point, in dispatch order. */
  function ListQueuedForPoint(t: Table, p: Point): (r: seq<nat>)
    ensures forall k :: 0 <= k < |r| ==> r[k] < |t|
  {
    RankedInRange(MarksOf(t, QueuedAt(p)));
    Ranked(MarksOf(t, QueuedAt(p)))
  }

  /** Positions of the active commands past their deadline, earliest deadline first. */
  function ListOverdue(t: Table, before: Time): (r: seq<nat>)
    ensures forall k :: 0 <= k < |r| ==> r[k] < |t|
  {
    RankedInRange(MarksOf(t, Overdue(before)));
    Ranked(MarksOf(t, Overdue(before)))
  }

  function RowsAt(t: Table, r: seq<nat>): (rows: seq<Command>)
    requires forall k :: 0 <= k < |r| ==> r[k] < |t|
    ensures |rows| == |r|
  {
    seq(|r|, k requires 0 <= k < |r| => t[r[k]])
  }

  /** A limited answer takes the kept rows with fewer than limit kept rows before them. */
  lemma RankedTaken(m: Marks, limit: nat, p: nat)
    ensures p in Take(Ranked(m), limit) <==> Kept(m, p) && |Before(m, p)| < limit
  {
    var r := Ranked(m);
    var taken := Take(r, limit);
    RankedIsRanking(m);
    assert forall b :: 0 <= b < |taken| ==> taken[b] == r[b] && r[b] in taken;
    if p in r {
      var a :| 0 <= a < |r| && r[a] == p;
      RankedPlace(m, a);
      if p in taken {
        var b :| 0 <= b < |taken| && taken[b] == p;
        RankedPlace(m, b);
      }
    }
  }

  function Take<T>(r: seq<T>, limit: nat): (s: seq<T>)
    ensures s <= r && |s| == if limit < |r| then limit else |r|
  {
    if limit < |r| then r[..limit] else r
  }
}
