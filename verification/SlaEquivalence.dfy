/** A deadline batch with room for everything does what check_sla does, command by command. */
module SlaEquivalence {
  import opened Common
  import opened Entities
  import opened Ranking
  import opened CommandTable
  import opened UseCases
  import opened Pipeline
  import opened Incidents
  import opened Lifecycle

  /** check_sla at one time on the commands at the listed positions, one after the other. */
  function CheckEach(s: Store, order: seq<nat>, now: Time, eventIds: seq<Id>): (s': Store)
    requires forall k :: 0 <= k < |order| ==> order[k] < |s.commands|
    requires |order| <= |eventIds|
  {
    if order == [] then s
    else
      var k := |order| - 1;
      SlaChecked(CheckEach(s, order[..k], now, eventIds), s.commands[order[k]].commandId, now, eventIds[k])
  }

  /** The incidents with their drawn ids blanked out. */
  function Unnamed(es: seq<Incident>): (r: seq<Incident>)
    ensures |r| == |es|
  {
    seq(|es|, k requires 0 <= k < |es| => es[k].(eventId := ""))
  }

  function RowBag(c: Command, now: Time): multiset<Incident> {
    if c.IsSafety() then multiset{SlaIncident(c, now, "")} else multiset{}
  }

  /** The incidents that failing the marked rows leaves, in no order. */
  function Bag(t: Table, done: seq<bool>, now: Time): multiset<Incident>
    requires |done| == |t|
  {
    if t == [] then multiset{}
    else
      var n := |t| - 1;
      Bag(t[..n], done[..n], now) + if done[n] then RowBag(t[n], now) else multiset{}
  }

  lemma {:induction false} BagMark(t: Table, done: seq<bool>, i: nat, now: Time)
    requires |done| == |t| && i < |t| && !done[i]
    ensures Bag(t, done[i := true], now) == Bag(t, done, now) + RowBag(t[i], now)
  {
    var n := |t| - 1;
    if i < n {
      BagMark(t[..n], done[..n], i, now);
      assert done[i := true][..n] == done[..n][i := true];
    } else {
      assert done[i := true][..n] == done[..n];
    }
  }

  lemma {:induction false} BagNone(t: Table, done: seq<bool>, now: Time)
    requires |done| == |t| && forall i :: 0 <= i < |t| ==> !done[i]
    ensures Bag(t, done, now) == multiset{}
  {
    if t != [] {
      BagNone(t[..|t| - 1], done[..|t| - 1], now);
    }
  }

  /** s' is s after the marked rows failed at the time, in whatever order. */
  ghost predicate FailedSoFar(s: Store, s': Store, done: seq<bool>, now: Time) {
    && |s'.commands| == |s.commands| == |done|
    && (forall i :: 0 <= i < |done| ==>
          s'.commands[i] == if done[i] then Breached(s.commands[i], now) else s.commands[i])
    && multiset(Unnamed(s'.incidents)) == multiset(Unnamed(s.incidents)) + Bag(s.commands, done, now)
  }

  /** What has failed determines the commands, and the incidents up to order and drawn ids. */
  lemma SameFailed(s: Store, s1: Store, s2: Store, done: seq<bool>, now: Time)
    requires FailedSoFar(s, s1, done, now) && FailedSoFar(s, s2, done, now)
    ensures s1.commands == s2.commands
    ensures multiset(Unnamed(s1.incidents)) == multiset(Unnamed(s2.incidents))
  {}

  lemma FailedNone(s: Store, done: seq<bool>, now: Time)
    requires |done| == |s.commands| && forall i :: 0 <= i < |done| ==> !done[i]
    ensures FailedSoFar(s, s, done, now)
  {
    BagNone(s.commands, done, now);
  }

  lemma UnnamedAppend(es: seq<Incident>, e: Incident)
    ensures multiset(Unnamed(es + [e])) == multiset(Unnamed(es)) + multiset{e.(eventId := "")}
  {
    assert Unnamed(es + [e]) == Unnamed(es) + [e.(eventId := "")];
  }

  lemma BreachRowBag(s: Store, i: nat, now: Time, eventId: Id)
    requires i < |s.commands|
    ensures multiset(Unnamed(BreachRow(s, i, now, eventId).incidents))
         == multiset(Unnamed(s.incidents)) + RowBag(s.commands[i], now)
  {
    var c := s.commands[i];
    if c.IsSafety() {
      UnnamedAppend(s.incidents, SlaIncident(c, now, eventId));
    }
  }

  lemma FailOneMore(s: Store, s': Store, done: seq<bool>, i: nat, now: Time, eventId: Id)
    requires FailedSoFar(s, s', done, now) && i < |done| && !done[i]
    ensures FailedSoFar(s, BreachRow(s', i, now, eventId), done[i := true], now)
  {
    BagMark(s.commands, done, i, now);
    BreachRowBag(s', i, now, eventId);
    assert s'.commands[i] == s.commands[i];
  }

  function Listed(n: nat, r: seq<nat>): (f: seq<bool>)
    ensures |f| == n
  {
    seq(n, i requires 0 <= i < n => i in r)
  }

  lemma ListedOneMore(n: nat, r: seq<nat>, i: nat)
    requires i < n && i !in r
    ensures Listed(n, r + [i]) == Listed(n, r)[i := true] && !Listed(n, r)[i]
  {}

  lemma {:induction false} BatchFailsListed(s: Store, r: seq<nat>, now: Time, eventIds: seq<Id>)
    requires NoRepeats(r) && |r| <= |eventIds|
    requires forall k :: 0 <= k < |r| ==> r[k] < |s.commands|
    ensures FailedSoFar(s, BreachRows(s, r, now, eventIds), Listed(|s.commands|, r), now)
  {
    var n := |s.commands|;
    hide FailedSoFar;
    if r == [] {
      FailedNone(s, Listed(n, r), now);
    } else {
      hide Listed;
      var k := |r| - 1;
      BatchFailsListed(s, r[..k], now, eventIds);
      assert r == r[..k] + [r[k]];
      ListedOneMore(n, r[..k], r[k]);
      FailOneMore(s, BreachRows(s, r[..k], now, eventIds), Listed(n, r[..k]), r[k], now, eventIds[k]);
    }
  }

  function OverdueIn(t: Table, order: seq<nat>, now: Time): (f: seq<bool>)
    ensures |f| == |t|
  {
    seq(|t|, i requires 0 <= i < |t| => i in order && IsOverdue(t[i], now))
  }

  /** One more command listed: it is marked if it is overdue. */
  lemma OverdueOneMore(t: Table, front: seq<nat>, i: nat, now: Time)
    requires i < |t|
    ensures OverdueIn(t, front + [i], now) ==
      if IsOverdue(t[i], now) then OverdueIn(t, front, now)[i := true] else OverdueIn(t, front, now)
    ensures OverdueIn(t, front, now)[i] ==> IsOverdue(t[i], now)
  {}

  /** check_sla on the command at position i, by position. */
  lemma CheckedAt(s: Store, mid: Store, done: seq<bool>, i: nat, now: Time, eventId: Id)
    requires DistinctIds(s.commands) && FailedSoFar(s, mid, done, now) && i < |s.commands|
    ensures SlaChecked(mid, s.commands[i].commandId, now, eventId)
         == if IsOverdue(s.commands[i], now) && !done[i] then BreachRow(mid, i, now, eventId) else mid
  {
    hide BreachRow, Bag, Unnamed;
    assert forall j :: 0 <= j < |done| ==> mid.commands[j].commandId == s.commands[j].commandId;
    FindAt(mid.commands, i);
  }

  lemma CheckOneMore(s: Store, mid: Store, front: seq<nat>, i: nat, now: Time, eventId: Id)
    requires DistinctIds(s.commands) && i < |s.commands|
    requires FailedSoFar(s, mid, OverdueIn(s.commands, front, now), now)
    ensures FailedSoFar(s, SlaChecked(mid, s.commands[i].commandId, now, eventId),
                        OverdueIn(s.commands, front + [i], now), now)
  {
    var t := s.commands;
    var done := OverdueIn(t, front, now);
    OverdueOneMore(t, front, i, now);
    CheckedAt(s, mid, done, i, now, eventId);
    hide FailedSoFar, SlaChecked, OverdueIn, BreachRow;
    if IsOverdue(t[i], now) && !done[i] {
      FailOneMore(s, mid, done, i, now, eventId);
    } else {
      assert OverdueIn(t, front + [i], now) == done;
    }
  }

  lemma {:induction false} ChecksFailOverdue(s: Store, order: seq<nat>, now: Time, eventIds: seq<Id>)
    requires DistinctIds(s.commands) && |order| <= |eventIds|
    requires forall k :: 0 <= k < |order| ==> order[k] < |s.commands|
    ensures FailedSoFar(s, CheckEach(s, order, now, eventIds), OverdueIn(s.commands, order, now), now)
  {
    var t := s.commands;
    hide FailedSoFar, SlaChecked;
    if order == [] {
      FailedNone(s, OverdueIn(t, order, now), now);
    } else {
      hide OverdueIn;
      var k := |order| - 1;
      ChecksFailOverdue(s, order[..k], now, eventIds);
      CheckOneMore(s, CheckEach(s, order[..k], now, eventIds), order[..k], order[k], now, eventIds[k]);
      assert order == order[..k] + [order[k]];
    }
  }

  lemma NothingOverdue(t: Table, now: Time)
    ensures ListOverdue(t, now) == [] <==> forall i :: 0 <= i < |t| ==> !IsOverdue(t[i], now)
  {
    var m := MarksOf(t, Overdue(now));
    RankedEmpty(m);
    assert forall i :: 0 <= i < |t| ==> (m[i].None? <==> !IsOverdue(t[i], now));
  }

  lemma BodyClearsOverdue(s: Store, limit: nat, now: Time, eventIds: seq<Id>)
    requires limit <= |eventIds|
    ensures ListOverdue(SlaBody(s, limit, now, eventIds).commands, now) == []
       <==> limit >= |ListOverdue(s.commands, now)|
  {
    OverdueAfterBody(s, limit, now, eventIds);
  }

  /** A batch leaves nothing overdue exactly when nothing was, or it gets the lease and its limit
      covers all that was. */
  lemma BatchClearsOverdue(cfg: Settings, s: Store, limit: nat, now: Time, owner: Id, eventIds: seq<Id>)
    requires limit <= |eventIds|
    ensures var s', due := SlaBatch(cfg, s, limit, now, owner, eventIds), ListOverdue(s.commands, now);
      (forall i :: 0 <= i < |s'.commands| ==> !IsOverdue(s'.commands[i], now))
      <==> due == [] || (Grantable(s.leases, SLA_LEASE, owner, now) && limit >= |due|)
  {
    NothingOverdue(SlaBatch(cfg, s, limit, now, owner, eventIds).commands, now);
    if Grantable(s.leases, SLA_LEASE, owner, now) {
      SlaBatchBody(cfg, s, limit, now, owner, eventIds);
      BodyClearsOverdue(s.(leases := s.leases - {SLA_LEASE}), limit, now, eventIds);
    }
  }

  lemma FullBodyIsCheckEach(s: Store, limit: nat, order: seq<nat>, now: Time, eventIds: seq<Id>, checkIds: seq<Id>)
    requires DistinctIds(s.commands)
    requires |ListOverdue(s.commands, now)| <= limit <= |eventIds|
    requires forall k :: 0 <= k < |order| ==> order[k] < |s.commands|
    requires forall i :: 0 <= i < |s.commands| ==> i in order
    requires |order| <= |checkIds|
    ensures SlaBody(s, limit, now, eventIds).commands == CheckEach(s, order, now, checkIds).commands
    ensures multiset(Unnamed(SlaBody(s, limit, now, eventIds).incidents))
         == multiset(Unnamed(CheckEach(s, order, now, checkIds).incidents))
  {
    var t := s.commands;
    var r := ListOverdue(t, now);
    OverdueTaken(t, limit, now);
    OverdueListed(t, now);
    assert Listed(|t|, r) == OverdueIn(t, order, now);
    hide Listed, OverdueIn, ListOverdue, Bag, Unnamed, BreachRows, CheckEach;
    BatchFailsListed(s, r, now, eventIds);
    ChecksFailOverdue(s, order, now, checkIds);
    SameFailed(s, BreachRows(s, r, now, eventIds), CheckEach(s, order, now, checkIds), OverdueIn(t, order, now), now);
  }

  lemma SlaCheckedLeases(s: Store, id: Id, now: Time, eventId: Id, leases: map<string, Lease>)
    ensures SlaChecked(s.(leases := leases), id, now, eventId)
         == SlaChecked(s, id, now, eventId).(leases := leases)
    ensures SlaChecked(s, id, now, eventId).leases == s.leases
  {}

  lemma {:induction false} CheckEachLeases(
    s: Store, order: seq<nat>, now: Time, eventIds: seq<Id>, leases: map<string, Lease>)
    requires forall k :: 0 <= k < |order| ==> order[k] < |s.commands|
    requires |order| <= |eventIds|
    ensures CheckEach(s.(leases := leases), order, now, eventIds)
         == CheckEach(s, order, now, eventIds).(leases := leases)
    ensures CheckEach(s, order, now, eventIds).leases == s.leases
  {
    if order != [] {
      hide SlaChecked;
      var k := |order| - 1;
      var mid := CheckEach(s, order[..k], now, eventIds);
      CheckEachLeases(s, order[..k], now, eventIds, leases);
      SlaCheckedLeases(mid, s.commands[order[k]].commandId, now, eventIds[k], leases);
    }
  }

  /** A batch that gets the lease, with a limit that covers everything overdue, and check_sla on
      every command, in any order, leave the same commands and the same incidents up to order and
      drawn ids. Of the leases only the batch's own is touched, and it is given back. */
  lemma FullBatchIsCheckEach(
    cfg: Settings, s: Store, limit: nat, order: seq<nat>, now: Time, owner: Id,
    eventIds: seq<Id>, checkIds: seq<Id>)
    requires DistinctIds(s.commands) && Grantable(s.leases, SLA_LEASE, owner, now)
    requires |ListOverdue(s.commands, now)| <= limit <= |eventIds|
    requires forall k :: 0 <= k < |order| ==> order[k] < |s.commands|
    requires forall i :: 0 <= i < |s.commands| ==> i in order
    requires |order| <= |checkIds|
    ensures var batch, checks := SlaBatch(cfg, s, limit, now, owner, eventIds), CheckEach(s, order, now, checkIds);
      && batch.commands == checks.commands
      && multiset(Unnamed(batch.incidents)) == multiset(Unnamed(checks.incidents))
      && batch.leases == s.leases - {SLA_LEASE} && checks.leases == s.leases
  {
    var free := s.leases - {SLA_LEASE};
    SlaBatchBody(cfg, s, limit, now, owner, eventIds);
    FullBodyIsCheckEach(s.(leases := free), limit, order, now, eventIds, checkIds);
    CheckEachLeases(s, order, now, checkIds, free);
  }
}
