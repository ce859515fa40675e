/** Bounded waiting for safety commands, and conservation of the commands pending at a point. */
module Waiting {
  import opened Common
  import opened Entities
  import opened CommandTable
  import opened UseCases
  import opened Pipeline
  import opened Runs
  import opened Lifecycle
  import opened Incidents
  import opened Scheduler
  import opened ServiceOrder

  // Bounded waiting.

  /** c is served before the queued safety command w: it is accepted, or a safety command with a
      smaller sequence number in the same queue. */
  predicate IsAhead(c: Command, w: Command) {
    && c.PointOf() == w.PointOf()
    && (c.status == Accepted || (c.status == Queued && c.IsSafety() && c.queueSeq < w.queueSeq))
  }

  function AheadFlags(t: Table, i: nat): (f: seq<bool>)
    requires i < |t|
    ensures |f| == |t|
  {
    seq(|t|, j requires 0 <= j < |t| => IsAhead(t[j], t[i]))
  }

  /** How many commands are ahead of the one at position i. */
  function Ahead(t: Table, i: nat): nat
    requires i < |t|
  {
    Count(AheadFlags(t, i))
  }

  predicate IsQueuedSafety(t: Table, i: nat) {
    i < |t| && t[i].status == Queued && t[i].IsSafety()
  }

  /** The command itself is pending, so fewer than the depth limit are ahead of it. */
  lemma AheadBelowDepth(cfg: Settings, t: Table, i: nat)
    requires Scheduled(cfg, t) && IsQueuedSafety(t, i)
    ensures Ahead(t, i) <= cfg.queueMaxDepthPerPoint - 1
  {
    var p := t[i].PointOf();
    var ahead := AheadFlags(t, i);
    CountUpdate(ahead, i, true);
    CountMonotone(ahead[i := true], PendingFlags(t, p));
    assert CountPendingForPoint(t, p) <= cfg.queueMaxDepthPerPoint;
  }

  lemma AppendAhead(cfg: Settings, t: Table, c: Command, i: nat)
    requires Scheduled(cfg, t) && Admissible(cfg, t, c) && IsQueuedSafety(t, i)
    ensures Ahead(t + [c], i) == Ahead(t, i)
  {
    NothingPending(t, c.PointOf());
    assert t[i].IsPending();
    assert AheadFlags(t + [c], i) == AheadFlags(t, i) + [IsAhead(c, t[i])];
    CountAppend(AheadFlags(t, i), IsAhead(c, t[i]));
  }

  lemma RetiresAhead(t: Table, t': Table, i: nat)
    requires OnlyRetires(t, t') && IsQueuedSafety(t, i) && IsQueuedSafety(t', i)
    ensures Ahead(t', i) <= Ahead(t, i)
  {
    forall j | 0 <= j < |t| ensures AheadFlags(t', i)[j] ==> AheadFlags(t, i)[j] {
      RetireRow(t[j], t'[j]);
      RetireRow(t[i], t'[i]);
    }
    CountMonotone(AheadFlags(t', i), AheadFlags(t, i));
  }

  /** A dispatch that picks another command at the point brings the waiting one a place forward;
      elsewhere it changes nothing. */
  lemma DispatchAhead(cfg: Settings, t: Table, p: Point, now: Time, i: nat)
    requires Scheduled(cfg, t) && CanDispatch(t, p) && IsQueuedSafety(t, i)
    requires NextUp(t, p).value != i
    ensures Ahead(t[NextUp(t, p).value := Started(t[NextUp(t, p).value], now)], i)
         == Ahead(t, i) - if t[i].PointOf() == p then 1 else 0
  {
    var h := NextUp(t, p).value;
    var t' := t[h := Started(t[h], now)];
    assert AheadFlags(t', i) == AheadFlags(t, i)[h := false];
    CountUpdate(AheadFlags(t, i), h, false);
    if t[i].PointOf() == p {
      NextUpFirst(cfg, t, p, i);
      assert IsAhead(t[h], t[i]);
    }
  }

  predicate DispatchesAt(s: Store, step: Step, p: Point) {
    step.Dispatch? && step.point == p && CanDispatch(s.commands, p)
  }

  /** How many dispatches succeed at the point in steps j to k of the run. */
  function DispatchCount(r: Run, j: nat, k: nat, p: Point): nat
    requires k <= |r.steps| && k < |r.states|
  {
    if k <= j then 0
    else DispatchCount(r, j, k - 1, p) + if DispatchesAt(r.states[k - 1], r.steps[k - 1], p) then 1 else 0
  }

  lemma StepAhead(cfg: Settings, s: Store, step: Step, i: nat)
    requires Scheduled(cfg, s.commands) && ValidStep(s, step)
    requires IsQueuedSafety(s.commands, i) && IsQueuedSafety(Next(cfg, s, step).commands, i)
    ensures Ahead(Next(cfg, s, step).commands, i)
            + (if DispatchesAt(s, step, s.commands[i].PointOf()) then 1 else 0)
         <= Ahead(s.commands, i)
  {
    var t, t' := s.commands, Next(cfg, s, step).commands;
    if step.Dispatch? && CanDispatch(t, step.point) {
      DispatchStep(cfg, s, step.point, step.now);
      DispatchAhead(cfg, t, step.point, step.now, i);
    } else {
      StepCases(cfg, s, step);
      if OnlyRetires(t, t') {
        RetiresAhead(t, t', i);
      } else {
        SubmitAdmissible(cfg, t, step.req, step.now, step.draws);
        AppendAhead(cfg, t, SubmitReply(cfg, t, step.req, step.now, step.draws).value.command, i);
      }
    }
  }

  /** While a safety command stays queued, each dispatch at its point uses up one of the commands
      that were ahead of it, whatever else happens. */
  lemma {:induction false} DispatchesUseUpAhead(cfg: Settings, r: Run, j: nat, k: nat, i: nat)
    requires FromEmpty(cfg, r) && j <= k <= |r.steps|
    requires IsQueuedSafety(r.states[j].commands, i) && IsQueuedSafety(r.states[k].commands, i)
    ensures DispatchCount(r, j, k, r.states[j].commands[i].PointOf()) + Ahead(r.states[k].commands, i)
         <= Ahead(r.states[j].commands, i)
  {
    hide Next;
    if j < k {
      assert Takes(cfg, r, k - 1);
      ReachableScheduled(cfg, r, k - 1);
      ReachableEvolves(cfg, r, j, k - 1);
      StepMoves(cfg, r.states[k - 1], r.steps[k - 1]);
      StillQueued(r.states[j].commands, r.states[k - 1].commands, r.states[k].commands, i);
      DispatchesUseUpAhead(cfg, r, j, k - 1, i);
      StepAhead(cfg, r.states[k - 1], r.steps[k - 1], i);
    }
  }

  lemma StillQueued(t: Table, u: Table, v: Table, i: nat)
    requires TableEvolves(t, u) && |u| <= |v| && forall j :: 0 <= j < |u| ==> RowMoves(u[j], v[j])
    requires IsQueuedSafety(t, i) && IsQueuedSafety(v, i)
    ensures IsQueuedSafety(u, i) && u[i].PointOf() == t[i].PointOf()
  {
    assert Evolves(t[i], u[i]) && RowMoves(u[i], v[i]);
  }

  /** Fewer dispatches than the depth limit pass a safety command while it stays queued. */
  lemma SafetyWaitBounded(cfg: Settings, r: Run, j: nat, k: nat, i: nat)
    requires FromEmpty(cfg, r) && j <= k <= |r.steps|
    requires IsQueuedSafety(r.states[j].commands, i) && IsQueuedSafety(r.states[k].commands, i)
    ensures DispatchCount(r, j, k, r.states[j].commands[i].PointOf()) < cfg.queueMaxDepthPerPoint
  {
    ReachableScheduled(cfg, r, j);
    DispatchesUseUpAhead(cfg, r, j, k, i);
    AheadBelowDepth(cfg, r.states[j].commands, i);
  }

  // Conservation.

  /** What a step took in at a point and what it finished there, as its reply tells. */
  datatype Ledger = Ledger(created: nat, canceled: nat, reconciled: nat, breached: nat)

  /** Which of the items of a batch's reply are breaches at the point. */
  function BreachedAt(items: seq<SlaCheckResult>, p: Point): (f: seq<bool>)
    ensures |f| == |items|
  {
    seq(|items|, k requires 0 <= k < |items| => items[k].breached && items[k].command.PointOf() == p)
  }

  function StepLedger(cfg: Settings, s: Store, step: Step, p: Point): Ledger {
    var t := s.commands;
    match step
    case Submit(req, now, draws) =>
      Ledger(if Admitted(SubmitReply(cfg, t, req, now, draws)) && req.point == p then 1 else 0, 0, 0, 0)
    case Cancel(_, _) =>
      var reply := RowReply(s, step);
      Ledger(0, if reply.Ok? && reply.value.PointOf() == p then 1 else 0, 0, 0)
    case Reconcile(_, _, _) =>
      var reply := RowReply(s, step);
      Ledger(0, 0, if reply.Ok? && reply.value.PointOf() == p then 1 else 0, 0)
    case CheckSla(id, now, _) =>
      var reply := SlaDecision(Get(t, id), now);
      Ledger(0, 0, 0, if reply.Ok? && reply.value.breached && reply.value.command.PointOf() == p then 1 else 0)
    case EvaluateSla(limit, now, owner, _) =>
      Ledger(0, 0, 0, Count(BreachedAt(SlaBatchReply(s, limit, now, owner).items, p)))
    case _ => Ledger(0, 0, 0, 0)
  }

  /** The ledgers of the first k steps, added up. */
  function RunLedger(cfg: Settings, r: Run, k: nat, p: Point): Ledger
    requires k <= |r.steps| && k < |r.states|
  {
    if k == 0 then Ledger(0, 0, 0, 0)
    else
      var a := RunLedger(cfg, r, k - 1, p);
      var b := StepLedger(cfg, r.states[k - 1], r.steps[k - 1], p);
      Ledger(a.created + b.created, a.canceled + b.canceled, a.reconciled + b.reconciled, a.breached + b.breached)
  }

  lemma PendingUpdate(t: Table, i: nat, c: Command, p: Point)
    requires i < |t| && c.PointOf() == t[i].PointOf()
    ensures CountPendingForPoint(t[i := c], p)
         == CountPendingForPoint(t, p)
            - (if t[i].PointOf() == p && t[i].IsPending() then 1 else 0)
            + (if c.PointOf() == p && c.IsPending() then 1 else 0)
  {
    var now := c.PointOf() == p && c.IsPending();
    assert PendingFlags(t[i := c], p) == PendingFlags(t, p)[i := now];
    CountUpdate(PendingFlags(t, p), i, now);
  }

  function BreachFlags(t: Table, r: seq<nat>, p: Point): (f: seq<bool>)
    ensures |f| == |t|
  {
    seq(|t|, i requires 0 <= i < |t| => i in r && t[i].PointOf() == p)
  }

  lemma BodyPending(s: Store, limit: nat, now: Time, eventIds: seq<Id>, p: Point)
    requires limit <= |eventIds|
    ensures CountPendingForPoint(s.commands, p)
         == CountPendingForPoint(SlaBody(s, limit, now, eventIds).commands, p)
            + Count(BreachFlags(s.commands, Take(ListOverdue(s.commands, now), limit), p))
  {
    var r := Take(ListOverdue(s.commands, now), limit);
    OverdueListed(s.commands, now);
    BreachRowsCommands(s, r, now, eventIds);
    var t' := SlaBody(s, limit, now, eventIds).commands;
    forall i | 0 <= i < |s.commands| && i in r ensures s.commands[i].IsPending() {
      assert i in ListOverdue(s.commands, now);
    }
    CountSplit(PendingFlags(s.commands, p), PendingFlags(t', p), BreachFlags(s.commands, r, p));
  }

  function PointFlags(t: Table, r: seq<nat>, p: Point): (f: seq<bool>)
    requires forall k :: 0 <= k < |r| ==> r[k] < |t|
    ensures |f| == |r|
  {
    seq(|r|, k requires 0 <= k < |r| => t[r[k]].PointOf() == p)
  }

  /** Listed rows at the point are as many by place in the list as by place in the table. */
  lemma {:induction false} ListedCount(t: Table, r: seq<nat>, p: Point)
    requires NoRepeats(r) && forall k :: 0 <= k < |r| ==> r[k] < |t|
    ensures Count(BreachFlags(t, r, p)) == Count(PointFlags(t, r, p))
  {
    if r == [] {
      CountZero(BreachFlags(t, r, p));
    } else {
      hide Count, BreachFlags, PointFlags;
      var k := |r| - 1;
      var front, i := r[..k], r[k];
      ListedCount(t, front, p);
      assert r == front + [i];
      BreachFlagsMore(t, front, i, p);
      CountUpdate(BreachFlags(t, front, p), i, t[i].PointOf() == p);
      PointFlagsMore(t, front, i, p);
    }
  }

  lemma BreachFlagsMore(t: Table, front: seq<nat>, i: nat, p: Point)
    requires i < |t| && i !in front
    ensures BreachFlags(t, front + [i], p) == BreachFlags(t, front, p)[i := t[i].PointOf() == p]
    ensures !BreachFlags(t, front, p)[i]
  {}

  lemma PointFlagsMore(t: Table, front: seq<nat>, i: nat, p: Point)
    requires i < |t| && forall k :: 0 <= k < |front| ==> front[k] < |t|
    ensures Count(PointFlags(t, front + [i], p))
         == Count(PointFlags(t, front, p)) + if t[i].PointOf() == p then 1 else 0
  {
    assert PointFlags(t, front + [i], p) == PointFlags(t, front, p) + [t[i].PointOf() == p];
    CountAppend(PointFlags(t, front, p), t[i].PointOf() == p);
  }

  lemma BatchConserves(cfg: Settings, s: Store, step: Step, p: Point)
    requires step.EvaluateSla? && ValidStep(s, step)
    ensures CountPendingForPoint(s.commands, p)
         == CountPendingForPoint(Next(cfg, s, step).commands, p) + StepLedger(cfg, s, step, p).breached
  {
    hide CountPendingForPoint, SlaBody;
    var t, r := s.commands, Take(ListOverdue(s.commands, step.now), step.limit);
    if Grantable(s.leases, SLA_LEASE, step.owner, step.now) {
      SlaBatchBody(cfg, s, step.limit, step.now, step.owner, step.eventIds);
      BodyPending(s.(leases := s.leases - {SLA_LEASE}), step.limit, step.now, step.eventIds, p);
      OverdueTaken(t, step.limit, step.now);
      ListedCount(t, r, p);
      assert BreachedAt(SlaBatchReply(s, step.limit, step.now, step.owner).items, p) == PointFlags(t, r, p);
    }
  }

  lemma SubmitConserves(cfg: Settings, s: Store, step: Step, p: Point)
    requires ValidStep(s, step) && step.Submit?
    ensures CountPendingForPoint(Next(cfg, s, step).commands, p)
         == CountPendingForPoint(s.commands, p) + StepLedger(cfg, s, step, p).created
  {
    hide First, FindInflightForPoint, NextQueueSeq, CountPendingForPoint, Put;
    var t := s.commands;
    if Admitted(SubmitReply(cfg, t, step.req, step.now, step.draws)) {
      SubmitCase(cfg, t, step.req, step.now, step.draws);
      PendingAppend(t, SubmitReply(cfg, t, step.req, step.now, step.draws).value.command, p);
    }
  }

  /** One step changes the pending count by what its ledger says. */
  lemma StepConserves(cfg: Settings, s: Store, step: Step, p: Point)
    requires ValidStep(s, step) && DistinctIds(s.commands)
    ensures var b := StepLedger(cfg, s, step, p);
      CountPendingForPoint(Next(cfg, s, step).commands, p) + b.canceled + b.reconciled + b.breached
      == CountPendingForPoint(s.commands, p) + b.created
  {
    hide First, FindInflightForPoint, NextQueueSeq, CountPendingForPoint, Put, SlaBody;
    var t := s.commands;
    match step
    case Submit(_, _, _) => SubmitConserves(cfg, s, step, p);
    case Dispatch(q, now) =>
      DispatchCase(t, q, now);
      if CanDispatch(t, q) {
        PendingUpdate(t, NextUp(t, q).value, Started(t[NextUp(t, q).value], now), p);
      }
    case Cancel(_, _) => RowStepConserves(s, step, p);
    case Reconcile(_, _, _) => RowStepConserves(s, step, p);
    case Override(_, _, _, _, _) => RowStepConserves(s, step, p);
    case CheckSla(id, now, _) =>
      var i := Find(t, id);
      if i.Some? && IsOverdue(t[i.value], now) {
        PendingUpdate(t, i.value, Breached(t[i.value], now), p);
      }
    case EvaluateSla(_, _, _, _) => BatchConserves(cfg, s, step, p);
    case _ =>
  }

  lemma RowStepConserves(s: Store, step: Step, p: Point)
    requires DistinctIds(s.commands)
    requires step.Cancel? || step.Override? || step.Reconcile?
    ensures var reply := RowReply(s, step);
      CountPendingForPoint(Written(s.commands, reply), p)
      + (if !step.Override? && reply.Ok? && reply.value.PointOf() == p then 1 else 0)
      == CountPendingForPoint(s.commands, p)
  {
    var reply := RowReply(s, step);
    if reply.Ok? {
      var i := Find(s.commands, step.commandId).value;
      PutAt(s.commands, i, reply.value);
      PendingUpdate(s.commands, i, reply.value, p);
    }
  }

  /** Over any run, the commands pending at a point are those created there less those canceled,
      reconciled or failed by deadline; and they never exceed the depth limit. */
  lemma {:induction false} PendingConserved(cfg: Settings, r: Run, k: nat, p: Point)
    requires FromEmpty(cfg, r) && k <= |r.steps|
    ensures var sum := RunLedger(cfg, r, k, p);
      && CountPendingForPoint(r.states[k].commands, p)
         == sum.created - sum.canceled - sum.reconciled - sum.breached
      && sum.created - sum.canceled - sum.reconciled - sum.breached <= cfg.queueMaxDepthPerPoint
  {
    hide Next, StepLedger;
    if k == 0 {
      NothingPending([], p);
    } else {
      PendingConserved(cfg, r, k - 1, p);
      ReachableEvolves(cfg, r, k - 1, k - 1);
      assert Takes(cfg, r, k - 1);
      StepConserves(cfg, r.states[k - 1], r.steps[k - 1], p);
    }
    ReachableScheduled(cfg, r, k);
    assert CountPendingForPoint(r.states[k].commands, p) <= cfg.queueMaxDepthPerPoint;
  }
}
