/**
The per-point scheduler: single flight, queue order, depth, and what follows from them over whole
runs. Positions in the command table are submission order.
*/
module Scheduler {
  import opened Common
  import opened Entities
  import opened Ranking
  import opened CommandTable
  import opened UseCases
  import opened Pipeline
  import opened Runs
  import opened Lifecycle

  // The joint invariant.

  /** Occupies the point ahead of its queue. */
  predicate HoldsPoint(c: Command) {
    c.status in {Accepted, Dispatched}
  }

  ghost predicate SingleFlight(t: Table) {
    forall i, j :: 0 <= i < j < |t| && t[i].PointOf() == t[j].PointOf() ==>
      !(HoldsPoint(t[i]) && HoldsPoint(t[j]))
  }

  ghost predicate AcceptedBeforeQueued(t: Table) {
    forall i, j :: 0 <= j < i < |t| && t[i].PointOf() == t[j].PointOf() ==>
      !(t[i].status == Accepted && t[j].status == Queued)
  }

  /** Sequence numbers rise with submission order among the commands now queued at a point. */
  ghost predicate QueueOrdered(t: Table) {
    forall i, j :: 0 <= i < j < |t| && t[i].PointOf() == t[j].PointOf()
                   && t[i].status == Queued && t[j].status == Queued ==>
      t[i].queueSeq < t[j].queueSeq
  }

  ghost predicate QueueSeqPositive(t: Table) {
    forall i :: 0 <= i < |t| && t[i].status == Queued ==> t[i].queueSeq >= 1
  }

  ghost predicate PriorityByClass(t: Table) {
    forall i :: 0 <= i < |t| ==> t[i].queuePriority == if t[i].IsSafety() then 0 else 1
  }

  ghost predicate DepthBounded(cfg: Settings, t: Table) {
    forall p: Point :: CountPendingForPoint(t, p) <= cfg.queueMaxDepthPerPoint
  }

  ghost predicate Scheduled(cfg: Settings, t: Table) {
    && DistinctIds(t)
    && SingleFlight(t)
    && AcceptedBeforeQueued(t)
    && QueueOrdered(t)
    && QueueSeqPositive(t)
    && PriorityByClass(t)
    && DepthBounded(cfg, t)
  }

  lemma NothingPending(t: Table, p: Point)
    ensures CountPendingForPoint(t, p) == 0
       <==> forall i :: 0 <= i < |t| ==> !(t[i].PointOf() == p && t[i].IsPending())
  {
    CountZero(PendingFlags(t, p));
    assert forall i :: 0 <= i < |t| ==> PendingFlags(t, p)[i] == (t[i].PointOf() == p && t[i].IsPending());
  }

  lemma PendingAppend(t: Table, c: Command, p: Point)
    ensures CountPendingForPoint(t + [c], p)
         == CountPendingForPoint(t, p) + if c.PointOf() == p && c.IsPending() then 1 else 0
  {
    assert PendingFlags(t + [c], p) == PendingFlags(t, p) + [c.PointOf() == p && c.IsPending()];
    CountAppend(PendingFlags(t, p), c.PointOf() == p && c.IsPending());
  }

  /** What the scheduler needs of a row that submit adds. */
  ghost predicate Admissible(cfg: Settings, t: Table, c: Command) {
    && Find(t, c.commandId).None?
    && CountPendingForPoint(t, c.PointOf()) < cfg.queueMaxDepthPerPoint
    && c.IsWaiting()
    && (c.status == Accepted ==> CountPendingForPoint(t, c.PointOf()) == 0)
    && (c.status == Queued ==> c.queueSeq == NextQueueSeq(t, c.PointOf()))
    && c.queuePriority == if c.IsSafety() then 0 else 1
  }

  lemma SubmitAdmissible(cfg: Settings, t: Table, req: SubmitRequest, now: Time, draws: Draws)
    requires Find(t, draws.commandId).None?
    requires Admitted(SubmitReply(cfg, t, req, now, draws))
    ensures Admissible(cfg, t, SubmitReply(cfg, t, req, now, draws).value.command)
  {}

  lemma AppendKeepsOrder(cfg: Settings, t: Table, c: Command)
    requires Scheduled(cfg, t) && Admissible(cfg, t, c)
    ensures SingleFlight(t + [c]) && AcceptedBeforeQueued(t + [c]) && QueueOrdered(t + [c])
  {
    NothingPending(t, c.PointOf());
    var t' := t + [c];
    forall i | 0 <= i < |t| && t[i].PointOf() == c.PointOf()
      ensures !(HoldsPoint(t'[i]) && HoldsPoint(c))
      ensures !(c.status == Accepted && t'[i].status == Queued)
      ensures t'[i].status == Queued && c.status == Queued ==> t'[i].queueSeq < c.queueSeq
    {
      if c.status == Accepted {
        assert !t[i].IsPending();
      }
    }
  }

  lemma AppendKeeps(cfg: Settings, t: Table, c: Command)
    requires Scheduled(cfg, t) && Admissible(cfg, t, c)
    ensures Scheduled(cfg, t + [c])
  {
    AppendKeepsOrder(cfg, t, c);
    forall p: Point ensures CountPendingForPoint(t + [c], p) <= cfg.queueMaxDepthPerPoint {
      PendingAppend(t, c, p);
    }
  }

  lemma RetireRow(c: Command, c': Command)
    requires SameOrigin(c, c') && (SameProgress(c, c') || Retires(c, c'))
    ensures c'.commandId == c.commandId && c'.PointOf() == c.PointOf()
    ensures c'.queueSeq == c.queueSeq && c'.queuePriority == c.queuePriority
    ensures c'.commandClass == c.commandClass
    ensures c'.status == c.status || c'.IsTerminal()
    ensures c'.status == c.status || c.IsPending()
  {}

  lemma RetiresKeep(cfg: Settings, t: Table, t': Table)
    requires Scheduled(cfg, t) && OnlyRetires(t, t')
    ensures Scheduled(cfg, t')
  {
    forall i | 0 <= i < |t|
      ensures t'[i].commandId == t[i].commandId && t'[i].PointOf() == t[i].PointOf()
      ensures t'[i].queueSeq == t[i].queueSeq && t'[i].queuePriority == t[i].queuePriority
      ensures t'[i].commandClass == t[i].commandClass
      ensures t'[i].status == t[i].status || t'[i].IsTerminal()
    {
      RetireRow(t[i], t'[i]);
    }
    forall p: Point ensures CountPendingForPoint(t', p) <= cfg.queueMaxDepthPerPoint {
      CountMonotone(PendingFlags(t', p), PendingFlags(t, p));
      assert CountPendingForPoint(t, p) <= cfg.queueMaxDepthPerPoint;
    }
  }

  /** Nothing but the command picked holds the point. */
  lemma PickedHoldsAlone(cfg: Settings, t: Table, p: Point, i: nat)
    requires Scheduled(cfg, t) && CanDispatch(t, p)
    requires i < |t| && i != NextUp(t, p).value && t[i].PointOf() == p
    ensures !HoldsPoint(t[i])
  {
    var h := NextUp(t, p).value;
    NoneMatches(t, AcceptedAt(p));
    RankedEmpty(MarksOf(t, AcceptedAt(p)));
    if t[i].status == Accepted {
      assert AcceptedAt(p).Matches(t[i]);
    }
  }

  lemma StartKeepsDepth(cfg: Settings, t: Table, h: nat, now: Time)
    requires h < |t| && t[h].IsPending() && DepthBounded(cfg, t)
    ensures DepthBounded(cfg, t[h := Started(t[h], now)])
  {
    var t' := t[h := Started(t[h], now)];
    forall p: Point ensures CountPendingForPoint(t', p) <= cfg.queueMaxDepthPerPoint {
      assert PendingFlags(t', p) == PendingFlags(t, p);
      assert CountPendingForPoint(t, p) <= cfg.queueMaxDepthPerPoint;
    }
  }

  lemma DispatchKeeps(cfg: Settings, t: Table, p: Point, now: Time)
    requires Scheduled(cfg, t) && CanDispatch(t, p)
    ensures var h := NextUp(t, p).value; Scheduled(cfg, t[h := Started(t[h], now)])
  {
    var h := NextUp(t, p).value;
    forall i | 0 <= i < |t| && i != h && t[i].PointOf() == p ensures !HoldsPoint(t[i]) {
      PickedHoldsAlone(cfg, t, p, i);
    }
    hide DepthBounded;
    StartKeepsDepth(cfg, t, h, now);
  }

  lemma StepKeepsScheduled(cfg: Settings, s: Store, step: Step)
    requires Scheduled(cfg, s.commands) && ValidStep(s, step)
    ensures Scheduled(cfg, Next(cfg, s, step).commands)
  {
    var t, t' := s.commands, Next(cfg, s, step).commands;
    StepCases(cfg, s, step);
    if OnlyRetires(t, t') {
      RetiresKeep(cfg, t, t');
    } else if step.Submit? {
      SubmitAdmissible(cfg, t, step.req, step.now, step.draws);
      AppendKeeps(cfg, t, SubmitReply(cfg, t, step.req, step.now, step.draws).value.command);
    } else {
      DispatchKeeps(cfg, t, step.point, step.now);
    }
  }

  /** Single flight, queue order and the depth bound hold in every reachable state. */
  lemma {:induction false} ReachableScheduled(cfg: Settings, r: Run, k: nat)
    requires FromEmpty(cfg, r) && k <= |r.steps|
    ensures Scheduled(cfg, r.states[k].commands)
  {
    hide Next;
    if k > 0 {
      ReachableScheduled(cfg, r, k - 1);
      assert Takes(cfg, r, k - 1);
      StepKeepsScheduled(cfg, r.states[k - 1], r.steps[k - 1]);
    }
  }
}
