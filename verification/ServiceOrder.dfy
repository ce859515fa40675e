/**
Who is dispatched next, and in what order a point drains. The reference order is a stable
priority queue over submission order that knows nothing of sequence numbers or clocks.
*/
module ServiceOrder {
  import opened Common
  import opened Entities
  import opened Ranking
  import opened CommandTable
  import opened UseCases
  import opened Pipeline
  import opened Runs
  import opened Lifecycle
  import opened Scheduler

  /** The accepted command first, then safety commands, then the others. */
  function ServiceClass(c: Command): int {
    if c.status == Accepted then 0 else if c.IsSafety() then 1 else 2
  }

  function ServiceMarks(t: Table, p: Point): (m: Marks)
    ensures |m| == |t|
  {
    seq(|t|, i requires 0 <= i < |t| =>
      if t[i].PointOf() == p && t[i].IsWaiting() then Some(Key(ServiceClass(t[i]), 0, 0)) else None)
  }

  /** Waiting commands at the point by service class, and by submission within a class. */
  function InServiceOrder(t: Table, p: Point): (r: seq<nat>)
    ensures forall k :: 0 <= k < |r| ==> r[k] < |t|
  {
    RankedInRange(ServiceMarks(t, p));
    Ranked(ServiceMarks(t, p))
  }

  /** Nothing waiting at the point is served before the command that dispatch picks. */
  lemma NextUpFirst(cfg: Settings, t: Table, p: Point, q: nat)
    requires Scheduled(cfg, t) && q < |t| && t[q].PointOf() == p && t[q].IsWaiting()
    ensures NextUp(t, p).Some?
    ensures var h := NextUp(t, p).value;
      h != q ==> Precedes(ServiceMarks(t, p), h, q)
  {
    var accepted, queued := MarksOf(t, AcceptedAt(p)), MarksOf(t, QueuedAt(p));
    RankedEmpty(accepted);
    if t[q].status == Accepted {
      RankedHead(accepted, q);
    } else {
      RankedHead(queued, q);
      assert Kept(queued, Ranked(queued)[0]);
    }
    var h := NextUp(t, p).value;
    if t[h].status == Accepted {
      assert h != q ==> t[q].status == Queued;
    } else {
      assert t[q].status != Accepted;
      assert h == q || Precedes(queued, h, q);
      if h != q && t[h].IsSafety() == t[q].IsSafety() {
        assert t[h].queueSeq <= t[q].queueSeq;
        assert h < q;
      }
    }
  }

  /** Dispatch picks the head of the reference order, and finds nothing exactly when it is empty. */
  lemma NextUpIsHead(cfg: Settings, t: Table, p: Point)
    requires Scheduled(cfg, t)
    ensures NextUp(t, p) == if InServiceOrder(t, p) == [] then None else Some(InServiceOrder(t, p)[0])
  {
    var m := ServiceMarks(t, p);
    RankedEmpty(m);
    if NextUp(t, p).Some? {
      var h := NextUp(t, p).value;
      assert Kept(m, h);
      forall q: nat | Kept(m, q) && q != h ensures Precedes(m, h, q) {
        NextUpFirst(cfg, t, p, q);
      }
      RankedHeadIs(m, h);
    } else if Ranked(m) != [] {
      assert Kept(m, Ranked(m)[0]);
      NextUpFirst(cfg, t, p, Ranked(m)[0]);
      assert false;
    }
  }

  /** FIFO within a priority: when b is picked, no earlier command of its priority is waiting. */
  lemma DispatchIsFifo(cfg: Settings, t: Table, p: Point, a: nat)
    requires Scheduled(cfg, t) && CanDispatch(t, p)
    requires a < NextUp(t, p).value && t[a].PointOf() == p
    requires t[a].queuePriority == t[NextUp(t, p).value].queuePriority
    ensures !t[a].IsWaiting()
  {
    if t[a].IsWaiting() {
      NextUpFirst(cfg, t, p, a);
      assert false;
    }
  }

  /** Step k of the run dispatches the row at position i. */
  ghost predicate DispatchesRow(r: Run, k: nat, i: nat) {
    && k < |r.steps| && k < |r.states| && r.steps[k].Dispatch?
    && CanDispatch(r.states[k].commands, r.steps[k].point)
    && NextUp(r.states[k].commands, r.steps[k].point) == Some(i)
  }

  lemma EarlierWaits(t: Table, t': Table, i: nat)
    requires TableEvolves(t, t') && i < |t| && t'[i].IsWaiting()
    ensures t[i].IsWaiting()
  {}

  /** Over a whole run, commands of one priority at one point are dispatched in submission order,
      whether or not either went through the accepted slot. */
  lemma DispatchOrderFollowsSubmission(cfg: Settings, r: Run, ka: nat, a: nat, kb: nat, b: nat)
    requires FromEmpty(cfg, r)
    requires DispatchesRow(r, ka, a) && DispatchesRow(r, kb, b)
    requires a < b && r.steps[ka].point == r.steps[kb].point
    requires r.states[ka].commands[a].queuePriority == r.states[kb].commands[b].queuePriority
    ensures ka < kb
  {
    hide Next;
    if kb <= ka {
      var t, u := r.states[kb].commands, r.states[ka].commands;
      ReachableEvolves(cfg, r, kb, ka);
      ReachableScheduled(cfg, r, kb);
      EarlierWaits(t, u, a);
      assert Evolves(t[a], u[a]);
      DispatchIsFifo(cfg, t, r.steps[kb].point, a);
      assert false;
    }
  }

  // Draining a point.

  datatype Round = Round(dispatchAt: Time, reconcileAt: Time, observedMatch: bool)

  /** Dispatch at the point, then reconcile what was dispatched. */
  function ServeRound(cfg: Settings, s: Store, p: Point, r: Round): Store {
    var dispatch := Dispatch(p, r.dispatchAt);
    var reply := RowReply(s, dispatch);
    if reply.Err? then s
    else
      Next(cfg, Next(cfg, s, dispatch), Reconcile(reply.value.commandId, r.observedMatch, r.reconcileAt))
  }

  function Serve(cfg: Settings, s: Store, p: Point, rounds: seq<Round>): Store
    decreases |rounds|
  {
    if rounds == [] then s else Serve(cfg, ServeRound(cfg, s, p, rounds[0]), p, rounds[1..])
  }

  /** The ids dispatched in the rounds, in order. */
  function Emitted(cfg: Settings, s: Store, p: Point, rounds: seq<Round>): seq<Id>
    decreases |rounds|
  {
    if rounds == [] then []
    else
      var reply := RowReply(s, Dispatch(p, rounds[0].dispatchAt));
      (if reply.Ok? then [reply.value.commandId] else [])
      + Emitted(cfg, ServeRound(cfg, s, p, rounds[0]), p, rounds[1..])
  }

  function IdsAt(t: Table, r: seq<nat>): (ids: seq<Id>)
    requires forall k :: 0 <= k < |r| ==> r[k] < |t|
    ensures |ids| == |r|
  {
    seq(|r|, k requires 0 <= k < |r| => t[r[k]].commandId)
  }

  ghost predicate SameIds(t: Table, t': Table) {
    |t| == |t'| && forall i :: 0 <= i < |t| ==> t[i].commandId == t'[i].commandId
  }

  /** The row a round leaves in place of the command it served. */
  function Served(c: Command, r: Round): Command {
    Started(c, r.dispatchAt).(
      status := if r.observedMatch then AppliedConfirmed else Failed,
      completedAt := Some(r.reconcileAt),
      resultReason := if r.observedMatch then None else Some(ObservedStateMismatch),
      updatedAt := r.reconcileAt)
  }

  /** Dispatch as a step: its reply and its table. */
  lemma DispatchStep(cfg: Settings, s: Store, p: Point, now: Time)
    requires DistinctIds(s.commands) && CanDispatch(s.commands, p)
    ensures var h := NextUp(s.commands, p).value;
      && RowReply(s, Dispatch(p, now)) == Ok(Started(s.commands[h], now))
      && Next(cfg, s, Dispatch(p, now)) == s.(commands := s.commands[h := Started(s.commands[h], now)])
  {
    DispatchCase(s.commands, p, now);
  }

  lemma ReconcileStep(cfg: Settings, s: Store, h: nat, observedMatch: bool, now: Time)
    requires DistinctIds(s.commands) && h < |s.commands| && s.commands[h].status == Dispatched
    ensures Next(cfg, s, Reconcile(s.commands[h].commandId, observedMatch, now)).commands
         == s.commands[h := ReconcileDecision(Some(s.commands[h]), observedMatch, now).value]
  {
    FindAt(s.commands, h);
    PutAt(s.commands, h, ReconcileDecision(Some(s.commands[h]), observedMatch, now).value);
  }

  lemma RoundTable(cfg: Settings, s: Store, p: Point, r: Round)
    requires Scheduled(cfg, s.commands) && CanDispatch(s.commands, p)
    ensures var t, h := s.commands, NextUp(s.commands, p).value;
      && ServeRound(cfg, s, p, r).commands == t[h := Served(t[h], r)]
      && Scheduled(cfg, t[h := Served(t[h], r)])
  {
    hide CountPendingForPoint, FindInflightForPoint, First;
    var t, h := s.commands, NextUp(s.commands, p).value;
    var u := t[h := Started(t[h], r.dispatchAt)];
    DispatchStep(cfg, s, p, r.dispatchAt);
    DispatchKeeps(cfg, t, p, r.dispatchAt);
    ReconcileStep(cfg, s.(commands := u), h, r.observedMatch, r.reconcileAt);
    OneRowRetires(u, h, Served(t[h], r));
    RetiresKeep(cfg, u, u[h := Served(t[h], r)]);
    assert u[h := Served(t[h], r)] == t[h := Served(t[h], r)];
  }

  lemma OrderWithoutHead(t: Table, p: Point, c: Command)
    requires InServiceOrder(t, p) != []
    requires c.IsTerminal() && c.commandId == t[InServiceOrder(t, p)[0]].commandId
    requires FindInflightForPoint(t, p).None?
    ensures var t' := t[InServiceOrder(t, p)[0] := c];
      && SameIds(t, t')
      && FindInflightForPoint(t', p).None?
      && InServiceOrder(t', p) == InServiceOrder(t, p)[1..]
  {
    var m := ServiceMarks(t, p);
    var h := Ranked(m)[0];
    var t' := t[h := c];
    assert Ranked(m)[..1] == [h];
    assert forall i :: 0 <= i < |t| ==> ServiceMarks(t', p)[i] == if i in Ranked(m)[..1] then None else m[i];
    RankedDrop(m, 1, ServiceMarks(t', p));
  }

  /** One round serves the head of the reference order and leaves the rest of it waiting. */
  lemma RoundServesHead(cfg: Settings, s: Store, p: Point, r: Round)
    requires Scheduled(cfg, s.commands) && FindInflightForPoint(s.commands, p).None?
    requires InServiceOrder(s.commands, p) != []
    ensures RowReply(s, Dispatch(p, r.dispatchAt)).Ok?
    ensures RowReply(s, Dispatch(p, r.dispatchAt)).value.commandId
         == s.commands[InServiceOrder(s.commands, p)[0]].commandId
    ensures var t' := ServeRound(cfg, s, p, r).commands;
      && Scheduled(cfg, t')
      && SameIds(s.commands, t')
      && FindInflightForPoint(t', p).None?
      && InServiceOrder(t', p) == InServiceOrder(s.commands, p)[1..]
  {
    NextUpIsHead(cfg, s.commands, p);
    DispatchStep(cfg, s, p, r.dispatchAt);
    RoundTable(cfg, s, p, r);
    OrderWithoutHead(s.commands, p, Served(s.commands[NextUp(s.commands, p).value], r));
  }

  lemma {:induction false} EmptyPointStays(cfg: Settings, s: Store, p: Point, rounds: seq<Round>)
    requires Scheduled(cfg, s.commands) && InServiceOrder(s.commands, p) == []
    ensures Emitted(cfg, s, p, rounds) == [] && Serve(cfg, s, p, rounds) == s
    decreases |rounds|
  {
    NextUpIsHead(cfg, s.commands, p);
    if rounds != [] {
      DispatchCase(s.commands, p, rounds[0].dispatchAt);
      EmptyPointStays(cfg, s, p, rounds[1..]);
    }
  }

  lemma EmptyPointReply(cfg: Settings, s: Store, p: Point, now: Time)
    requires Scheduled(cfg, s.commands) && FindInflightForPoint(s.commands, p).None?
    requires InServiceOrder(s.commands, p) == []
    ensures RowReply(s, Dispatch(p, now)) == Err(NotFound)
  {
    NextUpIsHead(cfg, s.commands, p);
    DispatchCase(s.commands, p, now);
  }

  lemma TakeHead(order: seq<nat>, n: nat)
    requires order != [] && n > 0
    ensures Take(order, n) == [order[0]] + Take(order[1..], n - 1)
  {
    if n < |order| {
      assert order[1..n] == order[1..][..n - 1];
    }
  }

  lemma IdsOfHeadAndRest(t: Table, head: nat, rest: seq<nat>, t': Table)
    requires head < |t| && forall k :: 0 <= k < |rest| ==> rest[k] < |t|
    requires SameIds(t, t')
    ensures IdsAt(t, [head] + rest) == [t[head].commandId] + IdsAt(t', rest)
  {}

  lemma IdsOfOrder(t: Table, order: seq<nat>, t': Table, n: nat)
    requires forall k :: 0 <= k < |order| ==> order[k] < |t|
    requires SameIds(t, t') && order != [] && n > 0
    ensures IdsAt(t, Take(order, n)) == [t[order[0]].commandId] + IdsAt(t', Take(order[1..], n - 1))
  {
    TakeHead(order, n);
    var rest := Take(order[1..], n - 1);
    IdsOfHeadAndRest(t, order[0], rest, t');
  }

  /** Draining a point serves its waiting commands in the reference order. The rounds succeed as
      long as commands are left, and then the point is empty and dispatch finds nothing. */
  lemma {:induction false} DrainFollowsServiceOrder(cfg: Settings, s: Store, p: Point, rounds: seq<Round>, now: Time)
    requires Scheduled(cfg, s.commands) && FindInflightForPoint(s.commands, p).None?
    ensures Emitted(cfg, s, p, rounds) == IdsAt(s.commands, Take(InServiceOrder(s.commands, p), |rounds|))
    ensures |rounds| >= |InServiceOrder(s.commands, p)| ==>
      RowReply(Serve(cfg, s, p, rounds), Dispatch(p, now)) == Err(NotFound)
    decreases |rounds|
  {
    var t := s.commands;
    var order := InServiceOrder(t, p);
    if order == [] {
      EmptyPointStays(cfg, s, p, rounds);
      EmptyPointReply(cfg, s, p, now);
    } else if rounds != [] {
      RoundServesHead(cfg, s, p, rounds[0]);
      var s' := ServeRound(cfg, s, p, rounds[0]);
      DrainFollowsServiceOrder(cfg, s', p, rounds[1..], now);
      IdsOfOrder(t, order, s'.commands, |rounds|);
    }
  }

  /** With nothing in flight, the reference order lists every pending command at the point once. */
  lemma ServiceOrderIsEveryPending(t: Table, p: Point)
    requires FindInflightForPoint(t, p).None?
    ensures forall i: nat :: i in InServiceOrder(t, p) <==> i < |t| && t[i].PointOf() == p && t[i].IsPending()
    ensures |InServiceOrder(t, p)| == CountPendingForPoint(t, p)
  {
    var m := ServiceMarks(t, p);
    RankedIsRanking(m);
    forall i: nat ensures i in Ranked(m) <==> i < |t| && t[i].PointOf() == p && t[i].IsPending() {
      assert Kept(m, i) <==> i < |t| && t[i].PointOf() == p && t[i].IsPending();
    }
    RankedLength(m, PendingFlags(t, p));
  }

  /** From any reachable state with nothing dispatched at the point, k pending commands take exactly
      k rounds, in the reference order; a further dispatch finds nothing. */
  lemma ReachablePointDrains(cfg: Settings, r: Run, n: nat, p: Point, rounds: seq<Round>, now: Time)
    requires FromEmpty(cfg, r) && n <= |r.steps|
    requires FindInflightForPoint(r.states[n].commands, p).None?
    requires |rounds| == CountPendingForPoint(r.states[n].commands, p)
    ensures var s := r.states[n];
      && |Emitted(cfg, s, p, rounds)| == |rounds|
      && Emitted(cfg, s, p, rounds) == IdsAt(s.commands, InServiceOrder(s.commands, p))
      && RowReply(Serve(cfg, s, p, rounds), Dispatch(p, now)) == Err(NotFound)
  {
    hide Next;
    var s := r.states[n];
    ReachableScheduled(cfg, r, n);
    ServiceOrderIsEveryPending(s.commands, p);
    DrainFollowsServiceOrder(cfg, s, p, rounds, now);
  }
}
