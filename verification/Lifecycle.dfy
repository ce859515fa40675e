/**
What any step may do to the command table: add one row at the end, or move rows along the life
cycle accepted|queued -> dispatched -> terminal. Every other module builds on these cases.
*/
module Lifecycle {
  import opened Common
  import opened Entities
  import opened Ranking
  import opened CommandTable
  import opened UseCases
  import opened Pipeline
  import opened Runs

  // One row.

  /** Row c with the seven changeable columns taken from item. */
  function WithChangeable(c: Command, item: Command): Command {
    c.(status := item.status,
       effectiveChannel := item.effectiveChannel,
       overrideReason := item.overrideReason,
       dispatchedAt := item.dispatchedAt,
       completedAt := item.completedAt,
       resultReason := item.resultReason,
       updatedAt := item.updatedAt)
  }

  /** c' is a later version of c: all that identifies and orders a command is the same. */
  predicate SameOrigin(c: Command, c': Command) {
    c' == WithChangeable(c, c')
  }

  predicate SameProgress(c: Command, c': Command) {
    && c'.status == c.status
    && c'.dispatchedAt == c.dispatchedAt
    && c'.completedAt == c.completedAt
    && c'.resultReason == c.resultReason
  }

  predicate Starts(c: Command, c': Command) {
    && c.IsWaiting()
    && c'.status == Dispatched
    && c'.dispatchedAt.Some?
    && c'.completedAt == c.completedAt
    && c'.resultReason == c.resultReason
  }

  predicate Cancels(c: Command, c': Command) {
    && c.IsWaiting()
    && c'.status == Canceled
    && c'.dispatchedAt == c.dispatchedAt
    && c'.completedAt == c.completedAt
    && c'.resultReason == c.resultReason
  }

  predicate Completes(c: Command, c': Command) {
    && c.status == Dispatched
    && c'.dispatchedAt == c.dispatchedAt
    && c'.completedAt.Some?
    && c'.status in {AppliedConfirmed, Failed}
    && c'.resultReason == if c'.status == Failed then Some(ObservedStateMismatch) else None
  }

  predicate Breaches(c: Command, c': Command) {
    && c.IsPending()
    && c'.status == Failed
    && c'.dispatchedAt == c.dispatchedAt
    && c'.completedAt.Some?
    && c'.resultReason == Some(ReconciliationSlaBreach)
  }

  predicate Retires(c: Command, c': Command) {
    Cancels(c, c') || Completes(c, c') || Breaches(c, c')
  }

  predicate RowMoves(c: Command, c': Command) {
    SameOrigin(c, c') && (SameProgress(c, c') || Starts(c, c') || Retires(c, c'))
  }

  // One step.

  /** Nothing is added and nothing is dispatched. */
  ghost predicate OnlyRetires(t: Table, t': Table) {
    && |t'| == |t|
    && forall i :: 0 <= i < |t| ==>
         SameOrigin(t[i], t'[i]) && (SameProgress(t[i], t'[i]) || Retires(t[i], t'[i]))
  }

  /** The command that dispatch would pick at the point: the accepted one, or the head of the queue. */
  function NextUp(t: Table, p: Point): (h: Option<nat>)
    ensures h.Some? ==> h.value < |t| && t[h.value].PointOf() == p && t[h.value].IsWaiting()
  {
    RankedEmpty(MarksOf(t, AcceptedAt(p)));
    RankedEmpty(MarksOf(t, QueuedAt(p)));
    var accepted := Ranked(MarksOf(t, AcceptedAt(p)));
    var queued := ListQueuedForPoint(t, p);
    if accepted != [] then Some(accepted[0])
    else if queued != [] then Some(queued[0])
    else None
  }

  function Started(c: Command, now: Time): Command {
    c.(status := Dispatched, dispatchedAt := Some(now), updatedAt := now)
  }

  predicate CanDispatch(t: Table, p: Point) {
    FindInflightForPoint(t, p).None? && NextUp(t, p).Some?
  }

  lemma DispatchCase(t: Table, p: Point, now: Time)
    requires DistinctIds(t)
    ensures DispatchReply(t, p, now).Ok? <==> CanDispatch(t, p)
    ensures CanDispatch(t, p) ==>
      var h := NextUp(t, p).value;
      && DispatchReply(t, p, now).value == Started(t[h], now)
      && Written(t, DispatchReply(t, p, now)) == t[h := Started(t[h], now)]
  {
    RankedEmpty(MarksOf(t, AcceptedAt(p)));
    if CanDispatch(t, p) {
      var h := NextUp(t, p).value;
      PutAt(t, h, Started(t[h], now));
    }
  }

  lemma SubmitCase(cfg: Settings, t: Table, req: SubmitRequest, now: Time, draws: Draws)
    requires Find(t, draws.commandId).None?
    requires Admitted(SubmitReply(cfg, t, req, now, draws))
    ensures var c := SubmitReply(cfg, t, req, now, draws).value.command;
      && c == NewCommand(cfg, req, now, draws, SubmitQueriesOf(cfg, t, req, now, draws))
      && Put(t, c) == t + [c]
  {}

  lemma OneRowRetires(t: Table, i: nat, c: Command)
    requires i < |t| && SameOrigin(t[i], c) && (SameProgress(t[i], c) || Retires(t[i], c))
    ensures OnlyRetires(t, t[i := c])
  {}

  /** The batch fails exactly the listed rows. */
  lemma {:induction false} BreachRowsCommands(s: Store, r: seq<nat>, now: Time, eventIds: seq<Id>)
    requires forall k :: 0 <= k < |r| ==> r[k] < |s.commands|
    requires |r| <= |eventIds|
    ensures var t' := BreachRows(s, r, now, eventIds).commands;
      forall i :: 0 <= i < |s.commands| ==>
        t'[i] == if i in r then Breached(s.commands[i], now) else s.commands[i]
  {
    if r != [] {
      var k := |r| - 1;
      BreachRowsCommands(s, r[..k], now, eventIds);
      assert r == r[..k] + [r[k]];
    }
  }

  lemma OverdueListed(t: Table, now: Time)
    ensures forall i: nat :: i in ListOverdue(t, now) <==> i < |t| && IsOverdue(t[i], now)
  {
    var m := MarksOf(t, Overdue(now));
    RankedIsRanking(m);
    forall i: nat ensures i in ListOverdue(t, now) <==> i < |t| && IsOverdue(t[i], now) {
      assert Kept(m, i) <==> i < |t| && IsOverdue(t[i], now);
    }
  }

  lemma SlaBodyRetires(s: Store, limit: nat, now: Time, eventIds: seq<Id>)
    requires limit <= |eventIds|
    ensures OnlyRetires(s.commands, SlaBody(s, limit, now, eventIds).commands)
  {
    var r := ListOverdue(s.commands, now);
    OverdueListed(s.commands, now);
    BreachRowsCommands(s, Take(r, limit), now, eventIds);
  }

  lemma OtherCase(cfg: Settings, s: Store, step: Step)
    requires DistinctIds(s.commands) && !step.Submit? && !step.Dispatch?
    ensures OnlyRetires(s.commands, Next(cfg, s, step).commands)
  {
    var t := s.commands;
    match step
    case Cancel(_, _) => RowReplyRetires(s, step);
    case Override(_, _, _, _, _) => RowReplyRetires(s, step);
    case Reconcile(_, _, _) => RowReplyRetires(s, step);
    case CheckSla(id, now, eventId) =>
      var p := Find(t, id);
      if p.Some? && IsOverdue(t[p.value], now) {
        OneRowRetires(t, p.value, Breached(t[p.value], now));
      }
    case EvaluateSla(limit, now, owner, eventIds) =>
      if limit <= |eventIds| {
        var held := s.(leases := Acquired(s.leases, SLA_LEASE, owner, now, cfg.slaBatchLockTtlSeconds));
        SlaBodyRetires(held, limit, now, eventIds);
      }
    case _ =>
  }

  lemma RowReplyRetires(s: Store, step: Step)
    requires DistinctIds(s.commands)
    requires step.Cancel? || step.Override? || step.Reconcile?
    ensures OnlyRetires(s.commands, Written(s.commands, RowReply(s, step)))
  {
    var t := s.commands;
    var p := Find(t, step.commandId);
    if RowReply(s, step).Ok? {
      var c := RowReply(s, step).value;
      PutAt(t, p.value, c);
      OneRowRetires(t, p.value, c);
    }
  }

  /** The three things a step can do to the command table. */
  lemma StepCases(cfg: Settings, s: Store, step: Step)
    requires ValidStep(s, step) && DistinctIds(s.commands)
    ensures var t, t' := s.commands, Next(cfg, s, step).commands;
      || OnlyRetires(t, t')
      || (step.Submit?
          && Admitted(SubmitReply(cfg, t, step.req, step.now, step.draws))
          && t' == t + [SubmitReply(cfg, t, step.req, step.now, step.draws).value.command])
      || (step.Dispatch?
          && CanDispatch(t, step.point)
          && t' == t[NextUp(t, step.point).value := Started(t[NextUp(t, step.point).value], step.now)])
  {
    match step
    case Submit(req, now, draws) =>
      if Admitted(SubmitReply(cfg, s.commands, req, now, draws)) {
        SubmitCase(cfg, s.commands, req, now, draws);
      }
    case Dispatch(p, now) => DispatchCase(s.commands, p, now);
    case _ => OtherCase(cfg, s, step);
  }

  // Many steps.

  function Rank(status: CommandStatus): nat {
    match status
    case Accepted => 0
    case Queued => 0
    case Dispatched => 1
    case _ => 2
  }

  /** c' is a version of c after any number of steps. */
  predicate Evolves(c: Command, c': Command) {
    SameOrigin(c, c') && (SameProgress(c, c') || Rank(c.status) < Rank(c'.status))
  }

  ghost predicate TableEvolves(t: Table, t': Table) {
    |t| <= |t'| && forall i :: 0 <= i < |t| ==> Evolves(t[i], t'[i])
  }

  /** A row whose outcome columns fit its status. */
  predicate Consistent(c: Command) {
    match c.status
    case Accepted => c.dispatchedAt.None? && c.completedAt.None? && c.resultReason.None?
    case Queued => c.dispatchedAt.None? && c.completedAt.None? && c.resultReason.None?
    case Dispatched => c.dispatchedAt.Some? && c.completedAt.None? && c.resultReason.None?
    case Canceled => c.dispatchedAt.None? && c.completedAt.None? && c.resultReason.None?
    case AppliedConfirmed => c.dispatchedAt.Some? && c.completedAt.Some? && c.resultReason.None?
    case Failed => c.completedAt.Some? && c.resultReason.Some?
                   && (c.resultReason.value == ObservedStateMismatch ==> c.dispatchedAt.Some?)
  }

  ghost predicate AllConsistent(t: Table) {
    forall i :: 0 <= i < |t| ==> Consistent(t[i])
  }

  lemma StepMoves(cfg: Settings, s: Store, step: Step)
    requires ValidStep(s, step) && DistinctIds(s.commands)
    ensures var t, t' := s.commands, Next(cfg, s, step).commands;
      && |t| <= |t'| <= |t| + 1
      && DistinctIds(t')
      && (forall i :: 0 <= i < |t| ==> RowMoves(t[i], t'[i]))
      && (|t'| > |t| ==> t'[|t|].IsWaiting() && Consistent(t'[|t|]))
  {
    hide Next, Written, RowReply;
    StepCases(cfg, s, step);
    var t, t' := s.commands, Next(cfg, s, step).commands;
    assert forall i :: 0 <= i < |t| ==> SameOrigin(t[i], t'[i]);
  }

  lemma EvolvesThenMoves(t: Table, u: Table, v: Table)
    requires TableEvolves(t, u) && |u| <= |v|
    requires forall i :: 0 <= i < |u| ==> RowMoves(u[i], v[i])
    ensures TableEvolves(t, v)
  {
    forall i | 0 <= i < |t| ensures Evolves(t[i], v[i]) {
      assert Evolves(t[i], u[i]) && RowMoves(u[i], v[i]);
    }
  }

  /** Later in a run every row is still there, at its place, as a later version. */
  lemma {:induction false} RunEvolves(cfg: Settings, r: Run, j: nat, k: nat)
    requires IsRun(cfg, r) && j <= k <= |r.steps| && DistinctIds(r.states[j].commands)
    ensures DistinctIds(r.states[k].commands)
    ensures TableEvolves(r.states[j].commands, r.states[k].commands)
  {
    hide Next;
    if j < k {
      RunEvolves(cfg, r, j, k - 1);
      assert Takes(cfg, r, k - 1);
      StepMoves(cfg, r.states[k - 1], r.steps[k - 1]);
      EvolvesThenMoves(r.states[j].commands, r.states[k - 1].commands, r.states[k].commands);
    }
  }

  lemma ReachableEvolves(cfg: Settings, r: Run, j: nat, k: nat)
    requires FromEmpty(cfg, r) && j <= k <= |r.steps|
    ensures DistinctIds(r.states[j].commands) && DistinctIds(r.states[k].commands)
    ensures TableEvolves(r.states[j].commands, r.states[k].commands)
  {
    RunEvolves(cfg, r, 0, j);
    RunEvolves(cfg, r, j, k);
  }

  /** A finished command's status, times and reason never change again. */
  lemma TerminalIsFinal(cfg: Settings, r: Run, j: nat, k: nat, i: nat)
    requires FromEmpty(cfg, r) && j <= k <= |r.steps|
    requires i < |r.states[j].commands| && r.states[j].commands[i].IsTerminal()
    ensures i < |r.states[k].commands| && SameProgress(r.states[j].commands[i], r.states[k].commands[i])
  {
    ReachableEvolves(cfg, r, j, k);
  }

  lemma MovesKeepConsistent(t: Table, t': Table)
    requires AllConsistent(t) && |t| <= |t'| <= |t| + 1
    requires forall i :: 0 <= i < |t| ==> RowMoves(t[i], t'[i])
    requires |t'| > |t| ==> Consistent(t'[|t|])
    ensures AllConsistent(t')
  {
    forall i | 0 <= i < |t'| ensures Consistent(t'[i]) {
      if i < |t| {
        assert Consistent(t[i]) && RowMoves(t[i], t'[i]);
      }
    }
  }

  /** In every reachable state the outcome columns of every row fit its status. */
  lemma {:induction false} ReachableConsistent(cfg: Settings, r: Run, k: nat)
    requires FromEmpty(cfg, r) && k <= |r.steps|
    ensures AllConsistent(r.states[k].commands)
  {
    hide Next;
    if k > 0 {
      ReachableConsistent(cfg, r, k - 1);
      ReachableEvolves(cfg, r, k - 1, k - 1);
      assert Takes(cfg, r, k - 1);
      StepMoves(cfg, r.states[k - 1], r.steps[k - 1]);
      MovesKeepConsistent(r.states[k - 1].commands, r.states[k].commands);
    }
  }

  // The potential: how far the commands have come, in all.

  function RankSum(t: Table): nat {
    if t == [] then 0 else RankSum(t[..|t| - 1]) + Rank(t[|t| - 1].status)
  }

  /** The rows of t that have another status in t'. */
  function ChangedFlags(t: Table, t': Table): (f: seq<bool>)
    requires |t| <= |t'|
    ensures |f| == |t|
  {
    seq(|t|, i requires 0 <= i < |t| => t[i].status != t'[i].status)
  }

  /** How many status changes the first k steps made. */
  function StatusChanges(r: Run, k: nat): nat
    requires k < |r.states|
  {
    if k == 0 then 0
    else
      var t, t' := r.states[k - 1].commands, r.states[k].commands;
      StatusChanges(r, k - 1) + if |t| <= |t'| then Count(ChangedFlags(t, t')) else 0
  }

  lemma {:induction false} PotentialRises(t: Table, t': Table)
    requires |t| == |t'| && forall i :: 0 <= i < |t| ==> Evolves(t[i], t'[i])
    ensures RankSum(t') >= RankSum(t) + Count(ChangedFlags(t, t'))
  {
    if t != [] {
      var n := |t| - 1;
      PotentialRises(t[..n], t'[..n]);
      assert ChangedFlags(t, t')[..n] == ChangedFlags(t[..n], t'[..n]);
    }
  }

  lemma {:induction false} PotentialBounded(t: Table)
    ensures RankSum(t) <= 2 * |t|
  {
    if t != [] {
      PotentialBounded(t[..|t| - 1]);
    }
  }

  lemma MovesRaisePotential(t: Table, t': Table)
    requires |t| <= |t'| <= |t| + 1
    requires forall i :: 0 <= i < |t| ==> RowMoves(t[i], t'[i])
    ensures RankSum(t') >= RankSum(t) + Count(ChangedFlags(t, t'))
  {
    var front := t'[..|t|];
    assert forall i :: 0 <= i < |t| ==> RowMoves(t[i], front[i]);
    PotentialRises(t, front);
    assert ChangedFlags(t, t') == ChangedFlags(t, front);
    assert if |t'| > |t| then front == t'[..|t'| - 1] else front == t';
  }

  lemma {:induction false} ChangesBoundedByPotential(cfg: Settings, r: Run, k: nat)
    requires FromEmpty(cfg, r) && k <= |r.steps|
    ensures StatusChanges(r, k) <= RankSum(r.states[k].commands)
  {
    hide Next;
    if k > 0 {
      ChangesBoundedByPotential(cfg, r, k - 1);
      ReachableEvolves(cfg, r, k - 1, k - 1);
      assert Takes(cfg, r, k - 1);
      StepMoves(cfg, r.states[k - 1], r.steps[k - 1]);
      MovesRaisePotential(r.states[k - 1].commands, r.states[k].commands);
    }
  }

  /** Over any run, n commands go through at most 2n status changes. */
  lemma LifecycleBound(cfg: Settings, r: Run)
    requires FromEmpty(cfg, r)
    ensures StatusChanges(r, |r.steps|) <= 2 * |r.states[|r.steps|].commands|
  {
    ChangesBoundedByPotential(cfg, r, |r.steps|);
    PotentialBounded(r.states[|r.steps|].commands);
  }

  // Reissue, whose read and submission are two transactions.

  /** Step k of the run submits and admits a command. */
  ghost predicate AdmitsAt(cfg: Settings, r: Run, k: nat) {
    && k < |r.steps| && k < |r.states| && r.steps[k].Submit?
    && Admitted(SubmitReply(cfg, r.states[k].commands, r.steps[k].req, r.steps[k].now, r.steps[k].draws))
  }

  /** The row that step adds. */
  function AddedRow(cfg: Settings, s: Store, step: Step): Command
    requires step.Submit? && Admitted(SubmitReply(cfg, s.commands, step.req, step.now, step.draws))
  {
    SubmitReply(cfg, s.commands, step.req, step.now, step.draws).value.command
  }

  /** The row at `parent` was read after j steps, a reissue of it was decided on for the reason, and
      step k submitted that reissue and added the row at `child`. */
  ghost predicate Reissued(cfg: Settings, r: Run, j: nat, k: nat, parent: nat, child: nat, reason: string) {
    && j <= k && AdmitsAt(cfg, r, k)
    && parent < |r.states[j].commands|
    && (exists role ::
          ReissueDecision(Some(r.states[j].commands[parent]), role, reason) == Ok(r.steps[k].req))
    && child == |r.states[k].commands|
  }

  /** The row a reissue adds: the parent's place, class and payload, with the reason noted in it. */
  predicate IsReissueOf(parent: Command, child: Command, reason: string) {
    && child.parentCommandId == Some(parent.commandId)
    && child.organizationId == parent.organizationId
    && child.PointOf() == parent.PointOf()
    && child.commandClass == parent.commandClass
    && child.payload == parent.payload.(reissueReason := Some(reason))
  }

  lemma ReissueAdds(
    cfg: Settings, t: Table, read: Command, role: string, reason: string,
    req: SubmitRequest, now: Time, draws: Draws)
    requires ReissueDecision(Some(read), role, reason) == Ok(req)
    requires Admitted(SubmitReply(cfg, t, req, now, draws))
    ensures read.status in {Failed, Canceled}
    ensures IsReissueOf(read, SubmitReply(cfg, t, req, now, draws).value.command, reason)
  {}

  lemma SubmitStep(cfg: Settings, s: Store, step: Step)
    requires step.Submit? && ValidStep(s, step)
    requires Admitted(SubmitReply(cfg, s.commands, step.req, step.now, step.draws))
    ensures Next(cfg, s, step).commands == s.commands + [AddedRow(cfg, s, step)]
  {
    SubmitCase(cfg, s.commands, step.req, step.now, step.draws);
  }

  lemma StillReissuable(read: Command, current: Command, child: Command, reason: string)
    requires read.status in {Failed, Canceled} && Evolves(read, current) && IsReissueOf(read, child, reason)
    ensures current.status in {Failed, Canceled} && IsReissueOf(current, child, reason)
  {}

  /** Whatever happens between the read and the submission, the reissue is still of a failed or
      canceled command, and the child goes to the same place. */
  lemma ReissueGapHarmless(cfg: Settings, r: Run, j: nat, k: nat, parent: nat, child: nat, reason: string)
    requires FromEmpty(cfg, r) && Reissued(cfg, r, j, k, parent, child, reason)
    ensures var t, t' := r.states[k].commands, r.states[k + 1].commands;
      && parent < child == |t| && |t'| == child + 1
      && t[parent].status in {Failed, Canceled}
      && t'[parent] == t[parent]
      && IsReissueOf(t[parent], t'[child], reason)
  {
    hide Next;
    var read, t := r.states[j].commands[parent], r.states[k].commands;
    var role :| ReissueDecision(Some(read), role, reason) == Ok(r.steps[k].req);
    ReissueAdds(cfg, t, read, role, reason, r.steps[k].req, r.steps[k].now, r.steps[k].draws);
    ReachableEvolves(cfg, r, j, k);
    StillReissuable(read, t[parent], AddedRow(cfg, r.states[k], r.steps[k]), reason);
    assert Takes(cfg, r, k);
    SubmitStep(cfg, r.states[k], r.steps[k]);
  }

  /** Somewhere in the run, a reissue of the row at `parent` added the row at `child`. */
  ghost predicate ReissueLink(cfg: Settings, r: Run, child: nat, parent: nat) {
    exists j: nat, k: nat, reason :: Reissued(cfg, r, j, k, parent, child, reason)
  }

  lemma ReissueLinkFalls(cfg: Settings, r: Run, child: nat, parent: nat)
    requires FromEmpty(cfg, r) && ReissueLink(cfg, r, child, parent)
    ensures parent < child
  {
    hide Next;
    var j: nat, k: nat, reason :| Reissued(cfg, r, j, k, parent, child, reason);
    ReissueGapHarmless(cfg, r, j, k, parent, child, reason);
  }

  lemma {:induction false} FallingWalk(walk: seq<nat>)
    requires walk != [] && forall n :: 0 < n < |walk| ==> walk[n] < walk[n - 1]
    ensures walk[|walk| - 1] + |walk| - 1 <= walk[0]
  {
    if |walk| > 1 {
      FallingWalk(walk[..|walk| - 1]);
    }
  }

  ghost predicate WalkLink(cfg: Settings, r: Run, walk: seq<nat>, n: nat)
    requires 0 < n < |walk|
  {
    ReissueLink(cfg, r, walk[n - 1], walk[n])
  }

  /** Walking from child to parent along the run's reissues ends: positions fall at every link, so
      no walk is longer than its starting position allows. */
  lemma ReissueWalkEnds(cfg: Settings, r: Run, walk: seq<nat>)
    requires FromEmpty(cfg, r)
    requires walk != [] && forall n :: 0 < n < |walk| ==> WalkLink(cfg, r, walk, n)
    ensures walk[|walk| - 1] + |walk| - 1 <= walk[0]
  {
    forall n | 0 < n < |walk| ensures walk[n] < walk[n - 1] {
      assert WalkLink(cfg, r, walk, n);
      ReissueLinkFalls(cfg, r, walk[n - 1], walk[n]);
    }
    FallingWalk(walk);
  }
}
