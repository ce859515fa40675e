/**
The deadline batch on PostgreSQL, whose LIMIT leaves the order of equal deadlines open. It fails the
same commands as in memory exactly when no tie runs across the cut.
*/
module PostgresBatch {
  import opened Common
  import opened Entities
  import opened Ranking
  import opened CommandTable
  import opened UseCases
  import opened Pipeline
  import opened Lifecycle
  import opened Incidents
  import opened Postgres

  /** Every overdue command that the limit leaves out has a later deadline than every one it takes. */
  ghost predicate CleanCut(t: Table, limit: nat, now: Time) {
    forall i, j: nat :: i in Take(ListOverdue(t, now), limit)
                        && j in ListOverdue(t, now) && j !in Take(ListOverdue(t, now), limit) ==>
        j < |t| && i < |t| && t[i].reconciliationDeadlineAt < t[j].reconciliationDeadlineAt
  }

  /** The table after the listed rows have failed. */
  function Failing(t: Table, r: seq<nat>, now: Time): (t': Table)
    ensures |t'| == |t|
  {
    seq(|t|, i requires 0 <= i < |t| => if i in r then Breached(t[i], now) else t[i])
  }

  lemma FailingOneMore(t: Table, r: seq<nat>, i: nat, now: Time)
    requires i < |t| && i !in r
    ensures Failing(t, r, now)[i] == t[i]
    ensures Failing(t, r + [i], now) == Failing(t, r, now)[i := Breached(t[i], now)]
  {}

  /** In whatever order the batch goes through its rows, those rows have failed at the end. */
  lemma {:induction false} PgBreachedRepresents(db: Rows, t: Table, r: seq<nat>, now: Time)
    requires Represents(db, t) && NoRepeats(r) && forall k :: 0 <= k < |r| ==> r[k] < |t|
    ensures Represents(PgBreached(db, RowsAt(t, r), now), Failing(t, r, now))
  {
    hide Represents, Update;
    if r == [] {
      assert Failing(t, r, now) == t;
    } else {
      var k := |r| - 1;
      var front := r[..k];
      PgBreachedRepresents(db, t, front, now);
      assert RowsAt(t, r)[..k] == RowsAt(t, front);
      assert r == front + [r[k]];
      FailingOneMore(t, front, r[k], now);
      UpdateRepresents(PgBreached(db, RowsAt(t, front), now), Failing(t, front, now), r[k], Breached(t[r[k]], now));
    }
  }

  lemma BodyFails(s: Store, limit: nat, now: Time, eventIds: seq<Id>)
    requires limit <= |eventIds|
    ensures SlaBody(s, limit, now, eventIds).commands
         == Failing(s.commands, Take(ListOverdue(s.commands, now), limit), now)
  {
    BreachRowsCommands(s, Take(ListOverdue(s.commands, now), limit), now, eventIds);
  }

  // Two lists of the same rows, by deadline.

  lemma SameSize(r: seq<nat>, r': seq<nat>)
    requires NoRepeats(r) && NoRepeats(r') && forall i :: i in r <==> i in r'
    ensures |r| == |r'|
  {
    SetOfSize(r);
    SetOfSize(r');
    assert SetOf(r) == SetOf(r');
  }

  /** Of two lists as long as each other, if one has an entry the other has not, so has the other. */
  lemma Missed(r: seq<nat>, r': seq<nat>, i: nat) returns (j: nat)
    requires NoRepeats(r) && NoRepeats(r') && |r| == |r'| && i in r && i !in r'
    ensures j in r' && j !in r
  {
    SetOfSize(r);
    SetOfSize(r');
    if SetOf(r') <= SetOf(r) {
      assert SetOf(r') <= SetOf(r) - {i};
      SubsetSize(SetOf(r'), SetOf(r) - {i});
      assert false;
    }
    j :| j in SetOf(r') && j !in SetOf(r);
  }

  lemma {:induction false} SubsetSize(small: set<nat>, big: set<nat>)
    requires small <= big
    ensures |small| <= |big|
  {
    if small != {} {
      var i :| i in small;
      SubsetSize(small - {i}, big - {i});
    }
  }

  ghost predicate ByDeadline(t: Table, r: seq<nat>) {
    && (forall k :: 0 <= k < |r| ==> r[k] < |t|)
    && forall j, k :: 0 <= j < k < |r| ==> t[r[j]].reconciliationDeadlineAt <= t[r[k]].reconciliationDeadlineAt
  }

  lemma FrontInside(t: Table, limit: nat, now: Time, r: seq<nat>, i: nat)
    requires CleanCut(t, limit, now) && ByDeadline(t, r) && NoRepeats(r) && NoRepeats(ListOverdue(t, now))
    requires forall i :: i in r <==> i in ListOverdue(t, now)
    requires i in Take(r, limit)
    ensures i in Take(ListOverdue(t, now), limit)
  {
    var listed := ListOverdue(t, now);
    hide ListOverdue;
    SameSize(r, listed);
    if limit < |r| && i !in listed[..limit] {
      var j := Missed(r[..limit], listed[..limit], i);
      assert j in r by {
        assert j in listed;
      }
      LeftOutLater(t, r, limit, i, j);
      assert false;
    }
  }

  /** With a clean cut, every order by deadline has the same rows in front. */
  lemma SameFront(t: Table, limit: nat, now: Time, r: seq<nat>)
    requires CleanCut(t, limit, now) && ByDeadline(t, r) && NoRepeats(r) && NoRepeats(ListOverdue(t, now))
    requires forall i :: i in r <==> i in ListOverdue(t, now)
    ensures forall i :: i in Take(r, limit) <==> i in Take(ListOverdue(t, now), limit)
  {
    var front, listed := Take(r, limit), Take(ListOverdue(t, now), limit);
    SameSize(r, ListOverdue(t, now));
    assert NoRepeats(front) && NoRepeats(listed) && |front| == |listed|;
    forall i | i in front ensures i in listed {
      FrontInside(t, limit, now, r, i);
    }
    hide Take, ListOverdue, CleanCut, ByDeadline;
    forall i | i in listed ensures i in front {
      if i !in front {
        var j := Missed(listed, front, i);
        assert false;
      }
    }
  }

  lemma LeftOutLater(t: Table, r: seq<nat>, limit: nat, i: nat, j: nat)
    requires ByDeadline(t, r) && limit <= |r| && i in r[..limit] && j in r && j !in r[..limit]
    ensures i < |t| && j < |t| && t[i].reconciliationDeadlineAt <= t[j].reconciliationDeadlineAt
  {
    var a :| 0 <= a < limit && r[a] == i;
    var b :| 0 <= b < |r| && r[b] == j;
    assert forall c :: 0 <= c < limit ==> r[c] in r[..limit];
    assert b >= limit;
  }

  lemma OverdueNoRepeats(t: Table, now: Time)
    ensures NoRepeats(ListOverdue(t, now))
  {
    OverdueTaken(t, |ListOverdue(t, now)|, now);
  }

  // The batch.

  lemma MatchesInOrder(db: Rows, t: Table, rows: seq<Command>, now: Time) returns (r: seq<nat>)
    requires Represents(db, t) && SelectAll(db, Overdue(now), rows)
    ensures |r| == |rows| && ByDeadline(t, r) && NoRepeats(r)
    ensures forall k :: 0 <= k < |r| ==> t[r[k]] == rows[k]
    ensures forall i :: i in r <==> i in ListOverdue(t, now)
  {
    r := PositionsOf(db, t, rows);
    forall j, k | 0 <= j < k < |r|
      ensures r[j] != r[k] && t[r[j]].reconciliationDeadlineAt <= t[r[k]].reconciliationDeadlineAt
    {
      assert rows[j].commandId != rows[k].commandId && !Less(Overdue(now).Order(rows[k]), Overdue(now).Order(rows[j]));
    }
    SelectedAll(db, t, Overdue(now), rows, r);
    OverdueListed(t, now);
    forall i: nat ensures i in r <==> i in ListOverdue(t, now) {
      if i in r {
        var k :| 0 <= k < |r| && r[k] == i;
        assert Overdue(now).Matches(rows[k]);
      }
      if i in ListOverdue(t, now) {
        assert Kept(MarksOf(t, Overdue(now)), i);
      }
    }
  }

  lemma TakeRows(t: Table, r: seq<nat>, rows: seq<Command>, limit: nat)
    requires |r| == |rows| && forall k :: 0 <= k < |r| ==> r[k] < |t| && t[r[k]] == rows[k]
    ensures forall k :: 0 <= k < |Take(r, limit)| ==> Take(r, limit)[k] < |t|
    ensures Take(rows, limit) == RowsAt(t, Take(r, limit))
  {}

  lemma TakeNoRepeats(r: seq<nat>, limit: nat)
    requires NoRepeats(r)
    ensures NoRepeats(Take(r, limit))
  {}

  /** With a clean cut, whatever order the database lists the rows in, the batch leaves the same
      commands as in memory. */
  lemma CleanBatchAgrees(db: Rows, s: Store, limit: nat, now: Time, eventIds: seq<Id>, db': Rows)
    requires Represents(db, s.commands) && limit <= |eventIds|
    requires CleanCut(s.commands, limit, now) && PgBatchBody(db, limit, now, db')
    ensures Represents(db', SlaBody(s, limit, now, eventIds).commands)
  {
    hide Represents, SelectAll, SlaBody, CleanCut, PgBreached, ListOverdue, Take;
    var t := s.commands;
    var rows :| SelectTop(db, Overdue(now), limit, rows) && db' == PgBreached(db, rows, now);
    var all :| SelectAll(db, Overdue(now), all) && rows == Take(all, limit);
    var r := MatchesInOrder(db, t, all, now);
    TakeRows(t, r, all, limit);
    TakeNoRepeats(r, limit);
    PgBreachedRepresents(db, t, Take(r, limit), now);
    OverdueNoRepeats(t, now);
    SameFront(t, limit, now, r);
    assert Failing(t, Take(r, limit), now) == Failing(t, Take(ListOverdue(t, now), limit), now);
    BodyFails(s, limit, now, eventIds);
  }

  // A tie across the cut lets the two repositories part.

  function Swap(k: nat, a: nat, b: nat): nat {
    if k == a then b else if k == b then a else k
  }

  /** The list with two entries exchanged. */
  function Exchanged<T>(r: seq<T>, a: nat, b: nat): (r': seq<T>)
    requires a < |r| && b < |r|
    ensures |r'| == |r|
  {
    seq(|r|, k requires 0 <= k < |r| => r[Swap(k, a, b)])
  }

  lemma ExchangedSame(r: seq<nat>, a: nat, b: nat)
    requires a < |r| && b < |r| && NoRepeats(r)
    ensures NoRepeats(Exchanged<nat>(r, a, b))
    ensures forall i :: i in Exchanged<nat>(r, a, b) <==> i in r
  {
    forall i | i in r ensures i in Exchanged<nat>(r, a, b) {
      var k :| 0 <= k < |r| && r[k] == i;
      assert Exchanged<nat>(r, a, b)[Swap(k, a, b)] == i;
    }
  }

  lemma ExchangedOrder(db: Rows, q: Query, rows: seq<Command>, a: nat, b: nat, j: nat, k: nat)
    requires a < |rows| && b < |rows| && q.Order(rows[a]) == q.Order(rows[b])
    requires SelectAll(db, q, rows) && j < k < |rows|
    ensures var rows' := Exchanged(rows, a, b);
      rows'[j].commandId != rows'[k].commandId && !Less(q.Order(rows'[k]), q.Order(rows'[j]))
  {
    hide Query.Matches, Query.Order, Less;
    var j', k' := Swap(j, a, b), Swap(k, a, b);
    assert j' != k';
    assert rows[j'].commandId != rows[k'].commandId;
    assert q.Order(rows[j']) == q.Order(rows[j]) && q.Order(rows[k']) == q.Order(rows[k]);
    assert !Less(q.Order(rows[k]), q.Order(rows[j]));
  }

  /** Rows with equal keys may come in either order. */
  lemma ExchangeSelected(db: Rows, q: Query, rows: seq<Command>, a: nat, b: nat)
    requires a < |rows| && b < |rows| && q.Order(rows[a]) == q.Order(rows[b])
    requires SelectAll(db, q, rows)
    ensures SelectAll(db, q, Exchanged(rows, a, b))
  {
    hide Query.Matches, Query.Order, Less;
    var rows' := Exchanged(rows, a, b);
    forall j, k | 0 <= j < k < |rows'|
      ensures rows'[j].commandId != rows'[k].commandId && !Less(q.Order(rows'[k]), q.Order(rows'[j]))
    {
      ExchangedOrder(db, q, rows, a, b, j, k);
    }
    forall id | id in db && q.Matches(db[id]) ensures db[id] in rows' {
      var k :| 0 <= k < |rows| && rows[k] == db[id];
      assert rows'[Swap(k, a, b)] == rows[k];
    }
  }

  /** A cut that is not clean runs between two commands with one deadline. */
  lemma TieAcross(t: Table, limit: nat, now: Time) returns (a: nat, b: nat)
    requires !CleanCut(t, limit, now)
    ensures a < limit <= b < |ListOverdue(t, now)|
    ensures t[ListOverdue(t, now)[a]].reconciliationDeadlineAt == t[ListOverdue(t, now)[b]].reconciliationDeadlineAt
  {
    var r := ListOverdue(t, now);
    var i, j: nat :| i in Take(r, limit) && j in r && j !in Take(r, limit)
      && !(j < |t| && i < |t| && t[i].reconciliationDeadlineAt < t[j].reconciliationDeadlineAt);
    OverdueListed(t, now);
    BatchTakesMostOverdue(t, limit, now, i, j);
    hide ListOverdue;
    a :| 0 <= a < |Take(r, limit)| && Take(r, limit)[a] == i;
    b :| 0 <= b < |r| && r[b] == j;
    assert forall c :: 0 <= c < |Take(r, limit)| ==> r[c] in Take(r, limit);
  }

  /** After the exchange the front has lost the entry in question. */
  lemma ExchangedFront(r: seq<nat>, a: nat, b: nat, limit: nat)
    requires NoRepeats(r) && a < limit <= b < |r|
    ensures r[a] in Take(r, limit) && r[a] !in Take(Exchanged<nat>(r, a, b), limit)
  {
    assert Take(r, limit)[a] == r[a];
  }

  /** A database represents no two tables that differ in a row. */
  lemma OneTable(db: Rows, t: Table, taken: seq<nat>, taken': seq<nat>, i: nat, now: Time)
    requires Represents(db, Failing(t, taken', now))
    requires i < |t| && IsOverdue(t[i], now) && i in taken && i !in taken'
    ensures !Represents(db, Failing(t, taken, now))
  {
    assert Failing(t, taken, now)[i] == Breached(t[i], now) && Failing(t, taken', now)[i] == t[i];
  }

  lemma ExchangedRows(t: Table, r: seq<nat>, a: nat, b: nat)
    requires a < |r| && b < |r| && forall k :: 0 <= k < |r| ==> r[k] < |t|
    ensures forall k :: 0 <= k < |Exchanged<nat>(r, a, b)| ==> Exchanged<nat>(r, a, b)[k] < |t|
    ensures RowsAt(t, Exchanged<nat>(r, a, b)) == Exchanged(RowsAt(t, r), a, b)
  {}

  lemma SameKeys(t: Table, r: seq<nat>, a: nat, b: nat, now: Time)
    requires a < |r| && b < |r| && forall k :: 0 <= k < |r| ==> r[k] < |t|
    requires t[r[a]].reconciliationDeadlineAt == t[r[b]].reconciliationDeadlineAt
    ensures Overdue(now).Order(RowsAt(t, r)[a]) == Overdue(now).Order(RowsAt(t, r)[b])
  {}

  /** A list that the database may answer can put the entry at a behind the limit. */
  lemma ExchangeTaken(db: Rows, t: Table, r: seq<nat>, a: nat, b: nat, limit: nat, now: Time)
    requires NoRepeats(r) && a < limit <= b < |r| && forall k :: 0 <= k < |r| ==> r[k] < |t|
    requires t[r[a]].reconciliationDeadlineAt == t[r[b]].reconciliationDeadlineAt
    requires SelectAll(db, Overdue(now), RowsAt(t, r))
    ensures var taken := Take(Exchanged<nat>(r, a, b), limit);
      && NoRepeats(taken) && r[a] !in taken
      && (forall k :: 0 <= k < |taken| ==> taken[k] < |t|)
      && SelectTop(db, Overdue(now), limit, RowsAt(t, taken))
  {
    hide SelectAll, Exchanged, Take, Query.Order;
    ExchangedSame(r, a, b);
    ExchangedFront(r, a, b, limit);
    ExchangedRows(t, r, a, b);
    SameKeys(t, r, a, b, now);
    ExchangeSelected(db, Overdue(now), RowsAt(t, r), a, b);
    TakeRows(t, Exchanged<nat>(r, a, b), RowsAt(t, Exchanged<nat>(r, a, b)), limit);
    TakeNoRepeats(Exchanged<nat>(r, a, b), limit);
  }

  /** Where the cut is not clean, the database may leave out a command that the in-memory batch takes. */
  lemma OtherAnswer(db: Rows, t: Table, limit: nat, now: Time) returns (taken: seq<nat>, i: nat)
    requires Represents(db, t) && !CleanCut(t, limit, now)
    ensures NoRepeats(taken) && forall k :: 0 <= k < |taken| ==> taken[k] < |t|
    ensures SelectTop(db, Overdue(now), limit, RowsAt(t, taken))
    ensures i in Take(ListOverdue(t, now), limit) && i !in taken
    ensures i < |t| && IsOverdue(t[i], now)
  {
    hide Represents, SelectAll, SelectTop, CleanCut, IsOverdue, Exchanged, RowsAt;
    var r := ListOverdue(t, now);
    ListedIsSelected(db, t, Overdue(now));
    OverdueNoRepeats(t, now);
    OverdueListed(t, now);
    var a, b := TieAcross(t, limit, now);
    assert r[a] in r;
    ExchangeTaken(db, t, r, a, b, limit, now);
    ExchangedFront(r, a, b, limit);
    taken, i := Take(Exchanged<nat>(r, a, b), limit), r[a];
  }

  lemma UncleanBatchDiverges(db: Rows, s: Store, limit: nat, now: Time, eventIds: seq<Id>) returns (db': Rows)
    requires Represents(db, s.commands) && limit <= |eventIds| && !CleanCut(s.commands, limit, now)
    ensures PgBatchBody(db, limit, now, db')
    ensures !Represents(db', SlaBody(s, limit, now, eventIds).commands)
  {
    hide Represents, SelectTop, SlaBody, CleanCut, PgBreached, ListOverdue, Failing, IsOverdue;
    var t := s.commands;
    var taken, i := OtherAnswer(db, t, limit, now);
    db' := PgBreached(db, RowsAt(t, taken), now);
    PgBreachedRepresents(db, t, taken, now);
    BodyFails(s, limit, now, eventIds);
    OneTable(db', t, Take(ListOverdue(t, now), limit), taken, i, now);
  }

  /** The batch on the database leaves the commands the in-memory one leaves, whatever order it takes
      ties in, if and only if the cut is clean. */
  lemma BatchAgreesExactly(db: Rows, s: Store, limit: nat, now: Time, eventIds: seq<Id>)
    requires Represents(db, s.commands) && limit <= |eventIds|
    ensures (forall db' :: PgBatchBody(db, limit, now, db') ==>
               Represents(db', SlaBody(s, limit, now, eventIds).commands))
       <==> CleanCut(s.commands, limit, now)
  {
    hide Represents, PgBatchBody, SlaBody, CleanCut;
    if CleanCut(s.commands, limit, now) {
      forall db' | PgBatchBody(db, limit, now, db')
        ensures Represents(db', SlaBody(s, limit, now, eventIds).commands)
      {
        CleanBatchAgrees(db, s, limit, now, eventIds, db');
      }
    } else {
      var db' := UncleanBatchDiverges(db, s, limit, now, eventIds);
    }
  }

  /** A limit that covers everything overdue cuts cleanly, and so does any limit where no two overdue
      commands share a deadline. */
  lemma CleanCuts(t: Table, limit: nat, now: Time)
    requires limit >= |ListOverdue(t, now)|
          || forall i, j :: 0 <= i < j < |t| && IsOverdue(t[i], now) && IsOverdue(t[j], now) ==>
               t[i].reconciliationDeadlineAt != t[j].reconciliationDeadlineAt
    ensures CleanCut(t, limit, now)
  {
    var r := Take(ListOverdue(t, now), limit);
    if limit < |ListOverdue(t, now)| {
      forall i, j: nat | i in r && j in ListOverdue(t, now) && j !in r
        ensures i < |t| && j < |t| && t[i].reconciliationDeadlineAt < t[j].reconciliationDeadlineAt
      {
        OverdueListed(t, now);
        assert i in ListOverdue(t, now);
        BatchTakesMostOverdue(t, limit, now, i, j);
      }
    }
  }
}
