/** Incidents are raised exactly once, and the deadline batch can be cut anywhere. */
module Incidents {
  import opened Common
  import opened Entities
  import opened Ranking
  import opened CommandTable
  import opened UseCases
  import opened Pipeline
  import opened Runs
  import opened Lifecycle

  // Exactly once.

  /** A safety command that was failed for missing its deadline. */
  predicate BreachedSafety(c: Command) {
    c.IsSafety() && c.status == Failed && c.resultReason == Some(ReconciliationSlaBreach)
  }

  ghost predicate HasIncident(es: seq<Incident>, id: Id) {
    exists k :: 0 <= k < |es| && es[k].commandId == id
  }

  ghost predicate HasBreach(t: Table, id: Id) {
    exists i :: 0 <= i < |t| && t[i].commandId == id && BreachedSafety(t[i])
  }

  ghost predicate OneIncidentEach(es: seq<Incident>) {
    forall k, l :: 0 <= k < l < |es| ==> es[k].commandId != es[l].commandId
  }

  /** Pairing an incident with the command it names is a bijection between the incidents and the
      safety commands that missed their deadline. */
  ghost predicate ExactlyOnce(t: Table, es: seq<Incident>) {
    && DistinctIds(t)
    && OneIncidentEach(es)
    && forall id :: HasIncident(es, id) <==> HasBreach(t, id)
  }

  /** The step neither makes nor unmakes a breached safety command. */
  ghost predicate SameBreaches(t: Table, t': Table) {
    && |t| <= |t'|
    && (forall i :: 0 <= i < |t| ==>
          t'[i].commandId == t[i].commandId && (BreachedSafety(t'[i]) <==> BreachedSafety(t[i])))
    && (forall i :: |t| <= i < |t'| ==> !BreachedSafety(t'[i]))
  }

  lemma SameBreachesKeep(t: Table, t': Table, id: Id)
    requires SameBreaches(t, t')
    ensures HasBreach(t, id) <==> HasBreach(t', id)
  {
    if HasBreach(t, id) {
      var i :| 0 <= i < |t| && t[i].commandId == id && BreachedSafety(t[i]);
      assert t'[i].commandId == id && BreachedSafety(t'[i]);
    }
    if HasBreach(t', id) {
      var i :| 0 <= i < |t'| && t'[i].commandId == id && BreachedSafety(t'[i]);
      assert t[i].commandId == id && BreachedSafety(t[i]);
    }
  }

  lemma {:induction false} AttemptedSameOrigin(cfg: Settings, es: seq<Incident>, r: seq<nat>, now: Time)
    requires forall k :: 0 <= k < |r| ==> r[k] < |es|
    ensures var es' := AttemptRows(cfg, es, r, now);
      forall k :: 0 <= k < |es| ==>
        && es'[k].commandId == es[k].commandId && es'[k].eventId == es[k].eventId
        && es'[k].createdAt == es[k].createdAt && es'[k].payload == es[k].payload
  {
    if r != [] {
      AttemptedSameOrigin(cfg, es, r[..|r| - 1], now);
    }
  }

  lemma QuietRowReply(s: Store, step: Step)
    requires DistinctIds(s.commands)
    requires step.Cancel? || step.Override? || step.Reconcile?
    ensures SameBreaches(s.commands, Written(s.commands, RowReply(s, step)))
  {
    if RowReply(s, step).Ok? {
      PutAt(s.commands, Find(s.commands, step.commandId).value, RowReply(s, step).value);
    }
  }

  ghost predicate SamePairing(es: seq<Incident>, es': seq<Incident>) {
    && |es'| == |es|
    && forall k :: 0 <= k < |es| ==> es'[k].commandId == es[k].commandId && es'[k].eventId == es[k].eventId
  }

  lemma QuietSubmit(cfg: Settings, s: Store, step: Step)
    requires step.Submit? && ValidStep(s, step)
    ensures SameBreaches(s.commands, Next(cfg, s, step).commands)
    ensures SamePairing(s.incidents, Next(cfg, s, step).incidents)
  {
    hide First, FindInflightForPoint, NextQueueSeq, CountPendingForPoint;
    if Admitted(SubmitReply(cfg, s.commands, step.req, step.now, step.draws)) {
      SubmitStep(cfg, s, step);
    }
  }

  /** Only the two deadline checks touch the pairing. */
  lemma QuietStep(cfg: Settings, s: Store, step: Step)
    requires DistinctIds(s.commands) && ValidStep(s, step) && !step.CheckSla? && !step.EvaluateSla?
    ensures SameBreaches(s.commands, Next(cfg, s, step).commands)
    ensures SamePairing(s.incidents, Next(cfg, s, step).incidents)
  {
    match step
    case Submit(_, _, _) => QuietSubmit(cfg, s, step);
    case Dispatch(p, now) => DispatchCase(s.commands, p, now);
    case Cancel(_, _) => QuietRowReply(s, step);
    case Override(_, _, _, _, _) => QuietRowReply(s, step);
    case Reconcile(_, _, _) => QuietRowReply(s, step);
    case DeliverIncidents(limit, now, _) =>
      QuietDelivery(cfg, s, step);
    case _ =>
  }

  lemma QuietDelivery(cfg: Settings, s: Store, step: Step)
    requires step.DeliverIncidents?
    ensures Next(cfg, s, step).commands == s.commands
    ensures SamePairing(s.incidents, Next(cfg, s, step).incidents)
  {
    AttemptedSameOrigin(cfg, s.incidents, Take(ListDue(s.incidents, step.now), step.limit), step.now);
  }

  lemma QuietKeepsExactlyOnce(t: Table, es: seq<Incident>, t': Table, es': seq<Incident>)
    requires ExactlyOnce(t, es) && SameBreaches(t, t') && DistinctIds(t')
    requires SamePairing(es, es')
    ensures ExactlyOnce(t', es')
  {
    forall id ensures HasIncident(es', id) <==> HasBreach(t', id) {
      SameBreachesKeep(t, t', id);
      assert HasIncident(es', id) <==> HasIncident(es, id);
    }
  }

  /** Failing one pending command pairs it with the incident it leaves, if it leaves one. */
  lemma BreachKeepsExactlyOnce(s: Store, i: nat, now: Time, eventId: Id)
    requires ExactlyOnce(s.commands, s.incidents)
    requires i < |s.commands| && s.commands[i].IsPending()
    ensures var s' := BreachRow(s, i, now, eventId); ExactlyOnce(s'.commands, s'.incidents)
  {
    var s' := BreachRow(s, i, now, eventId);
    var t, t', es, es' := s.commands, s'.commands, s.incidents, s'.incidents;
    var c := t[i];
    forall id ensures HasBreach(t', id) <==> HasBreach(t, id) || (c.IsSafety() && id == c.commandId) {
      if HasBreach(t, id) {
        var j :| 0 <= j < |t| && t[j].commandId == id && BreachedSafety(t[j]);
        assert t'[j].commandId == id && BreachedSafety(t'[j]);
      }
      if c.IsSafety() && id == c.commandId {
        assert t'[i].commandId == id && BreachedSafety(t'[i]);
      }
      if HasBreach(t', id) {
        var j :| 0 <= j < |t'| && t'[j].commandId == id && BreachedSafety(t'[j]);
        assert j != i ==> t[j].commandId == id && BreachedSafety(t[j]);
      }
    }
    assert !HasBreach(t, c.commandId);
    forall id ensures HasIncident(es', id) <==> HasIncident(es, id) || (c.IsSafety() && id == c.commandId) {
      if HasIncident(es, id) {
        var k :| 0 <= k < |es| && es[k].commandId == id;
        assert es'[k].commandId == id;
      }
      if c.IsSafety() {
        assert es'[|es|].commandId == c.commandId;
      }
    }
    assert !HasIncident(es, c.commandId);
    assert OneIncidentEach(es');
  }

  lemma BreachRowsPending(s: Store, r: seq<nat>, now: Time, eventIds: seq<Id>, k: nat)
    requires k < |r| <= |eventIds|
    requires forall j :: 0 <= j < |r| ==> r[j] < |s.commands| && s.commands[r[j]].IsPending()
    requires forall j :: 0 <= j < k ==> r[j] != r[k]
    ensures BreachRows(s, r[..k], now, eventIds).commands[r[k]] == s.commands[r[k]]
  {
    BreachRowsCommands(s, r[..k], now, eventIds);
  }

  lemma {:induction false} BreachRowsKeepExactlyOnce(s: Store, r: seq<nat>, now: Time, eventIds: seq<Id>)
    requires ExactlyOnce(s.commands, s.incidents) && NoRepeats(r) && |r| <= |eventIds|
    requires forall k :: 0 <= k < |r| ==> r[k] < |s.commands| && s.commands[r[k]].IsPending()
    ensures var s' := BreachRows(s, r, now, eventIds); ExactlyOnce(s'.commands, s'.incidents)
  {
    if r != [] {
      var k := |r| - 1;
      BreachRowsKeepExactlyOnce(s, r[..k], now, eventIds);
      BreachRowsPending(s, r, now, eventIds, k);
      BreachKeepsExactlyOnce(BreachRows(s, r[..k], now, eventIds), r[k], now, eventIds[k]);
    }
  }

  /** The rows a batch takes: overdue, and each once. */
  lemma OverdueTaken(t: Table, limit: nat, now: Time)
    ensures var r := Take(ListOverdue(t, now), limit);
      && NoRepeats(r)
      && forall k :: 0 <= k < |r| ==> r[k] < |t| && IsOverdue(t[r[k]], now)
  {
    var m := MarksOf(t, Overdue(now));
    var r := Ranked(m);
    OverdueListed(t, now);
    RankedIsRanking(m);
    forall j, k | 0 <= j < k < |r| ensures r[j] != r[k] {
      assert Precedes(m, r[j], r[k]);
    }
    assert forall k :: 0 <= k < |r| ==> r[k] in r;
  }

  lemma StepKeepsExactlyOnce(cfg: Settings, s: Store, step: Step)
    requires ExactlyOnce(s.commands, s.incidents) && ValidStep(s, step)
    ensures ExactlyOnce(Next(cfg, s, step).commands, Next(cfg, s, step).incidents)
  {
    match step
    case CheckSla(id, now, eventId) =>
      var p := Find(s.commands, id);
      if p.Some? && IsOverdue(s.commands[p.value], now) {
        BreachKeepsExactlyOnce(s, p.value, now, eventId);
      }
    case EvaluateSla(limit, now, owner, eventIds) =>
      var held := s.(leases := Acquired(s.leases, SLA_LEASE, owner, now, cfg.slaBatchLockTtlSeconds));
      OverdueTaken(s.commands, limit, now);
      BreachRowsKeepExactlyOnce(held, Take(ListOverdue(s.commands, now), limit), now, eventIds);
    case _ =>
      var s' := Next(cfg, s, step);
      QuietStep(cfg, s, step);
      StepMoves(cfg, s, step);
      QuietKeepsExactlyOnce(s.commands, s.incidents, s'.commands, s'.incidents);
  }

  /** In every reachable state the incidents are in bijection with the safety commands that missed
      their deadline, whichever of the two checks found them. */
  lemma {:induction false} ReachableExactlyOnce(cfg: Settings, r: Run, k: nat)
    requires FromEmpty(cfg, r) && k <= |r.steps|
    ensures ExactlyOnce(r.states[k].commands, r.states[k].incidents)
  {
    hide Next;
    if k > 0 {
      ReachableExactlyOnce(cfg, r, k - 1);
      assert Takes(cfg, r, k - 1);
      StepKeepsExactlyOnce(cfg, r.states[k - 1], r.steps[k - 1]);
    }
  }

  /** A batch with too small a limit takes the commands longest past their deadline. */
  lemma BatchTakesMostOverdue(t: Table, limit: nat, now: Time, i: nat, j: nat)
    requires i in Take(ListOverdue(t, now), limit)
    requires j < |t| && IsOverdue(t[j], now) && j !in Take(ListOverdue(t, now), limit)
    ensures i < |t| && IsOverdue(t[i], now)
    ensures t[i].reconciliationDeadlineAt < t[j].reconciliationDeadlineAt
         || (t[i].reconciliationDeadlineAt == t[j].reconciliationDeadlineAt && i < j)
  {
    var m := MarksOf(t, Overdue(now));
    var r := Take(Ranked(m), limit);
    assert r == Ranked(m)[..|r|];
    assert Kept(m, j);
    RankedFront(m, |r|, i, j);
  }

  // Cutting the batch in two.

  lemma {:induction false} BreachRowsConcat(s: Store, a: seq<nat>, b: seq<nat>, now: Time, idsA: seq<Id>, idsB: seq<Id>)
    requires forall k :: 0 <= k < |a| ==> a[k] < |s.commands|
    requires forall k :: 0 <= k < |b| ==> b[k] < |s.commands|
    requires |a| == |idsA| && |b| <= |idsB|
    ensures BreachRows(s, a + b, now, idsA + idsB) == BreachRows(BreachRows(s, a, now, idsA), b, now, idsB)
  {
    if b == [] {
      assert a + b == a;
      BreachRowsIds(s, a, now, idsA + idsB, idsA);
    } else {
      var k := |b| - 1;
      BreachRowsConcat(s, a, b[..k], now, idsA, idsB);
      assert (a + b)[..|a| + k] == a + b[..k];
    }
  }

  /** Only the first |r| ids are drawn. */
  lemma {:induction false} BreachRowsIds(s: Store, r: seq<nat>, now: Time, ids: seq<Id>, ids': seq<Id>)
    requires forall k :: 0 <= k < |r| ==> r[k] < |s.commands|
    requires |r| <= |ids| && |r| <= |ids'| && ids[..|r|] == ids'[..|r|]
    ensures BreachRows(s, r, now, ids) == BreachRows(s, r, now, ids')
  {
    if r != [] {
      var k := |r| - 1;
      assert ids[..k] == ids[..|r|][..k] && ids'[..k] == ids'[..|r|][..k];
      assert ids[k] == ids[..|r|][k] && ids'[k] == ids'[..|r|][k];
      BreachRowsIds(s, r[..k], now, ids, ids');
    }
  }

  /** After a batch, what is overdue is the rest of what was overdue, in the same order. */
  lemma OverdueAfterBody(s: Store, limit: nat, now: Time, eventIds: seq<Id>)
    requires limit <= |eventIds|
    ensures ListOverdue(SlaBody(s, limit, now, eventIds).commands, now)
         == ListOverdue(s.commands, now)[|Take(ListOverdue(s.commands, now), limit)|..]
  {
    var t := s.commands;
    var m := MarksOf(t, Overdue(now));
    var r := Take(Ranked(m), limit);
    assert r == Ranked(m)[..|r|];
    RankedInRange(m);
    BreachRowsCommands(s, r, now, eventIds);
    var t' := SlaBody(s, limit, now, eventIds).commands;
    assert forall i :: 0 <= i < |t| ==> MarksOf(t', Overdue(now))[i] == if i in Ranked(m)[..|r|] then None else m[i];
    RankedDrop(m, |r|, MarksOf(t', Overdue(now)));
  }

  lemma TakeTwice<T>(r: seq<T>, a: nat, b: nat)
    ensures Take(r, a + b) == Take(r, a) + Take(r[|Take(r, a)|..], b)
  {}

  /** The ids that a batch of a rows and then a batch of b rows draw, as one batch draws them. */
  function DrawnInTurn(t: Table, now: Time, a: nat, idsA: seq<Id>, idsB: seq<Id>): seq<Id>
    requires a <= |idsA|
  {
    idsA[..|Take(ListOverdue(t, now), a)|] + idsB
  }

  lemma SplitRows(s: Store, first: seq<nat>, second: seq<nat>, now: Time, idsA: seq<Id>, idsB: seq<Id>, ids: seq<Id>)
    requires forall k :: 0 <= k < |first| ==> first[k] < |s.commands|
    requires forall k :: 0 <= k < |second| ==> second[k] < |s.commands|
    requires |first| <= |idsA| && |second| <= |idsB|
    requires idsA[..|first|] + idsB <= ids
    ensures BreachRows(BreachRows(s, first, now, idsA), second, now, idsB)
         == BreachRows(s, first + second, now, ids)
  {
    var drawn := idsA[..|first|];
    BreachRowsIds(s, first, now, idsA, drawn);
    BreachRowsConcat(s, first, second, now, drawn, idsB);
    assert (drawn + idsB)[..|first + second|] == ids[..|drawn + idsB|][..|first + second|];
    BreachRowsIds(s, first + second, now, drawn + idsB, ids);
  }

  lemma SplitSlaBody(s: Store, a: nat, b: nat, now: Time, idsA: seq<Id>, idsB: seq<Id>, ids: seq<Id>)
    requires a <= |idsA| && b <= |idsB| && a + b <= |ids|
    requires DrawnInTurn(s.commands, now, a, idsA, idsB) <= ids
    ensures SlaBody(SlaBody(s, a, now, idsA), b, now, idsB) == SlaBody(s, a + b, now, ids)
  {
    var r := ListOverdue(s.commands, now);
    var first := Take(r, a);
    OverdueAfterBody(s, a, now, idsA);
    TakeTwice(r, a, b);
    SplitRows(s, first, Take(r[|first|..], b), now, idsA, idsB, ids);
  }

  lemma SlaBodyLeases(s: Store, limit: nat, now: Time, eventIds: seq<Id>)
    requires limit <= |eventIds|
    ensures SlaBody(s, limit, now, eventIds).leases == s.leases
  {}

  /** At one time, a batch of a and then a batch of b leave the store as a batch of a + b does, if
      the batches draw the same event ids in turn and owner ids nobody else holds. */
  lemma SplitSlaBatch(
    cfg: Settings, s: Store, a: nat, b: nat, now: Time,
    idsA: seq<Id>, idsB: seq<Id>, ids: seq<Id>, o1: Id, o2: Id, o: Id)
    requires a <= |idsA| && b <= |idsB| && a + b <= |ids|
    requires DrawnInTurn(s.commands, now, a, idsA, idsB) <= ids
    requires SLA_LEASE in s.leases ==> s.leases[SLA_LEASE].ownerId !in {o1, o2, o}
    ensures SlaBatch(cfg, SlaBatch(cfg, s, a, now, o1, idsA), b, now, o2, idsB)
         == SlaBatch(cfg, s, a + b, now, o, ids)
  {
    hide SlaBody;
    if Grantable(s.leases, SLA_LEASE, o, now) {
      var bare := s.(leases := s.leases - {SLA_LEASE});
      SlaBatchBody(cfg, s, a, now, o1, idsA);
      SlaBodyLeases(bare, a, now, idsA);
      SlaBatchBody(cfg, SlaBatch(cfg, s, a, now, o1, idsA), b, now, o2, idsB);
      SlaBatchBody(cfg, s, a + b, now, o, ids);
      var mid := SlaBody(bare, a, now, idsA);
      assert mid.(leases := mid.leases - {SLA_LEASE}) == mid;
      SplitSlaBody(bare, a, b, now, idsA, idsB, ids);
    }
  }

  /** Under the lease the batch is its body, and the lease is gone afterwards. */
  lemma SlaBatchBody(cfg: Settings, s: Store, limit: nat, now: Time, owner: Id, eventIds: seq<Id>)
    requires limit <= |eventIds| && Grantable(s.leases, SLA_LEASE, owner, now)
    ensures SlaBatch(cfg, s, limit, now, owner, eventIds)
         == SlaBody(s.(leases := s.leases - {SLA_LEASE}), limit, now, eventIds)
  {
    var r := Take(ListOverdue(s.commands, now), limit);
    var held := s.leases[SLA_LEASE := Lease(owner, now + cfg.slaBatchLockTtlSeconds * SECOND)];
    BreachRowsLeases(s, r, now, eventIds, held);
    BreachRowsLeases(s, r, now, eventIds, s.leases - {SLA_LEASE});
    assert held - {SLA_LEASE} == s.leases - {SLA_LEASE};
  }

  lemma {:induction false} BreachRowsLeases(s: Store, r: seq<nat>, now: Time, ids: seq<Id>, leases: map<string, Lease>)
    requires forall k :: 0 <= k < |r| ==> r[k] < |s.commands|
    requires |r| <= |ids|
    ensures BreachRows(s.(leases := leases), r, now, ids) == BreachRows(s, r, now, ids).(leases := leases)
  {
    if r != [] {
      BreachRowsLeases(s, r[..|r| - 1], now, ids, leases);
    }
  }
}
