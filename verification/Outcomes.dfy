/**
What each use case on commands answers and when, and what it changes, column by column. It is told
from the rows of the table before and after, and not from the queries or the decisions.
*/
module Outcomes {
  import opened Common
  import opened Entities
  import opened Ranking
  import opened CommandTable
  import opened UseCases
  import opened Pipeline
  import opened Runs
  import opened Lifecycle
  import opened Scheduler
  import opened ServiceOrder
  import opened Dedup

  predicate At(c: Command, p: Point) {
    c.siteId == p.siteId && c.pointId == p.pointId
  }

  predicate Active(c: Command) {
    c.status == Accepted || c.status == Queued || c.status == Dispatched
  }

  ghost predicate HasId(t: Table, id: Id) {
    exists i :: 0 <= i < |t| && t[i].commandId == id
  }

  /** Row i is replaced, and nothing else in the store is touched. */
  ghost predicate Rewrites(s: Store, s': Store, i: nat, c': Command) {
    i < |s.commands| && s' == s.(commands := s.commands[i := c'])
  }

  // Submission.

  /** The key a submission goes by: the caller's, unless missing or empty, and else the drawn one. */
  predicate GoesBy(given: Option<string>, drawn: string, key: string) {
    if given == None || given == Some("") then key == drawn else given == Some(key)
  }

  predicate KeyMatch(c: Command, siteId: string, key: string, since: Time) {
    c.siteId == siteId && c.idempotencyKey == key && c.createdAt >= since
  }

  predicate CorrelationMatch(c: Command, siteId: string, correlationId: string, since: Time) {
    c.siteId == siteId && c.correlationId == correlationId && c.createdAt >= since
  }

  ghost predicate KeyHeld(t: Table, siteId: string, key: string, since: Time) {
    exists i :: 0 <= i < |t| && KeyMatch(t[i], siteId, key, since)
  }

  ghost predicate CorrelationHeld(t: Table, siteId: string, correlationId: string, since: Time) {
    exists i :: 0 <= i < |t| && CorrelationMatch(t[i], siteId, correlationId, since)
  }

  /** Of the matching rows, row i was created last; of those created then, it was inserted first. */
  ghost predicate NewestWithKey(t: Table, siteId: string, key: string, since: Time, i: nat) {
    && i < |t| && KeyMatch(t[i], siteId, key, since)
    && forall j :: 0 <= j < |t| && KeyMatch(t[j], siteId, key, since) ==>
         t[j].createdAt < t[i].createdAt || (t[j].createdAt == t[i].createdAt && i <= j)
  }

  ghost predicate NewestWithCorrelation(t: Table, siteId: string, correlationId: string, since: Time, i: nat) {
    && i < |t| && CorrelationMatch(t[i], siteId, correlationId, since)
    && forall j :: 0 <= j < |t| && CorrelationMatch(t[j], siteId, correlationId, since) ==>
         t[j].createdAt < t[i].createdAt || (t[j].createdAt == t[i].createdAt && i <= j)
  }

  /** The accepted, queued and dispatched commands at the point. */
  ghost function PendingAt(t: Table, p: Point): set<nat> {
    set i: nat | i < |t| && At(t[i], p) && Active(t[i])
  }

  lemma PendingIsCounted(t: Table, p: Point)
    ensures |PendingAt(t, p)| == CountPendingForPoint(t, p)
  {
    CountIsSize(PendingFlags(t, p));
    assert PendingAt(t, p) == Marked(PendingFlags(t, p));
  }

  /** What a lookup that keeps the first of its sorted rows finds. */
  lemma FirstFound(t: Table, q: Query)
    ensures First(t, MarksOf(t, q)).None? <==> forall i :: 0 <= i < |t| ==> !q.Matches(t[i])
    ensures First(t, MarksOf(t, q)).Some? ==> exists i: nat :: FoundAt(t, q, i) && t[i] == First(t, MarksOf(t, q)).value
  {
    hide Query.Matches, Query.Order;
    var m := MarksOf(t, q);
    NoneMatches(t, q);
    RankedEmpty(m);
    if Ranked(m) != [] {
      var i := Ranked(m)[0];
      forall j | 0 <= j < |t| && q.Matches(t[j])
        ensures Less(q.Order(t[i]), q.Order(t[j])) || (q.Order(t[i]) == q.Order(t[j]) && i <= j)
      {
        RankedHead(m, j);
      }
      assert FoundAt(t, q, i);
    }
  }

  ghost predicate FoundAt(t: Table, q: Query, i: nat) {
    && i < |t| && q.Matches(t[i])
    && forall j :: 0 <= j < |t| && q.Matches(t[j]) ==>
         Less(q.Order(t[i]), q.Order(t[j])) || (q.Order(t[i]) == q.Order(t[j]) && i <= j)
  }

  lemma KeyLookup(t: Table, siteId: string, key: string, since: Time)
    ensures var found := FindRecentByIdempotency(t, siteId, key, since);
      && (found.Some? <==> KeyHeld(t, siteId, key, since))
      && (found.Some? ==> exists i: nat :: NewestWithKey(t, siteId, key, since, i) && t[i] == found.value)
  {
    var q := RecentByKey(siteId, key, since);
    FirstFound(t, q);
    hide First;
    assert forall c: Command :: q.Matches(c) <==> KeyMatch(c, siteId, key, since);
    if First(t, MarksOf(t, q)).Some? {
      var i: nat :| FoundAt(t, q, i) && t[i] == First(t, MarksOf(t, q)).value;
      assert NewestWithKey(t, siteId, key, since, i);
    }
  }

  lemma CorrelationLookup(t: Table, siteId: string, correlationId: string, since: Time)
    ensures var found := FindRecentByCorrelation(t, siteId, correlationId, since);
      && (found.Some? <==> CorrelationHeld(t, siteId, correlationId, since))
      && (found.Some? ==>
            exists i: nat :: NewestWithCorrelation(t, siteId, correlationId, since, i) && t[i] == found.value)
  {
    var q := RecentByCorrelation(siteId, correlationId, since);
    FirstFound(t, q);
    hide First;
    assert forall c: Command :: q.Matches(c) <==> CorrelationMatch(c, siteId, correlationId, since);
    if First(t, MarksOf(t, q)).Some? {
      var i: nat :| FoundAt(t, q, i) && t[i] == First(t, MarksOf(t, q)).value;
      assert NewestWithCorrelation(t, siteId, correlationId, since, i);
    }
  }

  /** A safety command comes with both keys. */
  predicate KeysGiven(req: SubmitRequest) {
    req.commandClass == SafetyCritical ==>
      && req.idempotencyKey != None && req.idempotencyKey != Some("")
      && req.correlationId != None && req.correlationId != Some("")
  }

  /** The five ways a submission ends, in the order they are tried, and what each answers. */
  lemma SubmitOutcomes(
    cfg: Settings, t: Table, req: SubmitRequest, now: Time, draws: Draws, key: string, correlationId: string)
    requires GoesBy(req.idempotencyKey, draws.idempotencyKey, key)
    requires GoesBy(req.correlationId, draws.correlationId, correlationId)
    ensures var reply, site := SubmitReply(cfg, t, req, now, draws), req.point.siteId;
      var keySince, since := now - cfg.idempotencyWindowSeconds * SECOND, now - cfg.correlationWindowSeconds * SECOND;
      var duplicate, conflict := KeyHeld(t, site, key, keySince), CorrelationHeld(t, site, correlationId, since);
      var depth := |PendingAt(t, req.point)|;
      && (reply == Err(ValidationError) <==> !KeysGiven(req))
      && (reply.Ok? && reply.value.duplicateOf.Some? <==> KeysGiven(req) && duplicate)
      && (reply.Ok? && reply.value.duplicateOf.Some? ==>
            exists i: nat :: NewestWithKey(t, site, key, keySince, i)
              && reply.value.command == t[i] && reply.value.duplicateOf == Some(t[i].commandId))
      && (reply.Err? && reply.error.CorrelationConflict? <==> KeysGiven(req) && !duplicate && conflict)
      && (reply.Err? && reply.error.CorrelationConflict? ==>
            exists i: nat :: NewestWithCorrelation(t, site, correlationId, since, i)
              && reply.error == CorrelationConflict(correlationId, t[i].commandId))
      && (reply == Err(QueueOverflow(depth, cfg.queueRetryAfterSeconds))
          <==> KeysGiven(req) && !duplicate && !conflict && depth >= cfg.queueMaxDepthPerPoint)
      && (reply.Ok? && reply.value.duplicateOf.None?
          <==> KeysGiven(req) && !duplicate && !conflict && depth < cfg.queueMaxDepthPerPoint)
  {
    hide First, FindInflightForPoint, NextQueueSeq, CountPendingForPoint, NewCommand;
    hide KeyHeld, CorrelationHeld, NewestWithKey, NewestWithCorrelation, PendingAt;
    KeyLookup(t, req.point.siteId, key, now - cfg.idempotencyWindowSeconds * SECOND);
    CorrelationLookup(t, req.point.siteId, correlationId, now - cfg.correlationWindowSeconds * SECOND);
    PendingIsCounted(t, req.point);
    hide FindRecentByIdempotency, FindRecentByCorrelation;
  }

  /** The seconds a class has to be reconciled in. */
  function SecondsFor(c: CommandClass): int {
    if c == BulkNonCritical then 1800 else if c == RoutineAutomation then 300 else 60
  }

  /** The number is one above the largest still queued at the point, and 1 when none is. */
  ghost predicate FollowsQueue(t: Table, p: Point, n: int) {
    && (forall i :: 0 <= i < |t| && At(t[i], p) && t[i].status == Queued ==> t[i].queueSeq < n)
    && n >= 1
    && (n == 1 || exists i :: 0 <= i < |t| && At(t[i], p) && t[i].status == Queued && t[i].queueSeq == n - 1)
  }

  /** What an admitted submission stores. */
  ghost predicate NewRow(
    cfg: Settings, t: Table, req: SubmitRequest, now: Time, draws: Draws, key: string, correlationId: string,
    c: Command)
  {
    && c.commandId == draws.commandId && c.parentCommandId == req.parentCommandId
    && c.organizationId == req.organizationId && At(c, req.point)
    && c.commandClass == req.commandClass && c.payload == req.payload
    && c.idempotencyKey == key && c.correlationId == correlationId
    && c.requestedChannel == c.effectiveChannel == Api && c.overrideReason == None
    && c.status == (if PendingAt(t, req.point) == {} then Accepted else Queued)
    && c.queuePriority == (if req.commandClass == SafetyCritical then 0 else 1)
    && (if c.status == Accepted then c.queueSeq == 0 else FollowsQueue(t, req.point, c.queueSeq))
    && c.createdAt == c.updatedAt == now
    && c.reconciliationDeadlineAt == now + (SecondsFor(req.commandClass) + cfg.slaDeadlineOffsetSeconds) * SECOND
    && c.dispatchedAt == None && c.completedAt == None && c.resultReason == None
  }

  /** An admitted submission adds its row at the end of the table and answers with it; any other
      changes nothing. */
  lemma SubmitEffect(
    cfg: Settings, s: Store, req: SubmitRequest, now: Time, draws: Draws, key: string, correlationId: string)
    requires ValidStep(s, Submit(req, now, draws))
    requires GoesBy(req.idempotencyKey, draws.idempotencyKey, key)
    requires GoesBy(req.correlationId, draws.correlationId, correlationId)
    ensures var reply, s' := SubmitReply(cfg, s.commands, req, now, draws), Next(cfg, s, Submit(req, now, draws));
      if reply.Ok? && reply.value.duplicateOf.None? then
        && NewRow(cfg, s.commands, req, now, draws, key, correlationId, reply.value.command)
        && s' == s.(commands := s.commands + [reply.value.command])
      else s' == s
  {
    hide First, FindInflightForPoint, CountPendingForPoint;
    var t := s.commands;
    if Admitted(SubmitReply(cfg, t, req, now, draws)) {
      SubmitCase(cfg, t, req, now, draws);
      PendingIsCounted(t, req.point);
      QueueNumber(t, req.point);
      hide NextQueueSeq, FollowsQueue;
      assert |PendingAt(t, req.point)| == 0 <==> PendingAt(t, req.point) == {};
      if CountPendingForPoint(t, req.point) == 0 {
        InflightIsPending(t, req.point);
      }
    }
  }

  lemma QueueNumber(t: Table, p: Point)
    ensures FollowsQueue(t, p, NextQueueSeq(t, p))
  {
    var n := NextQueueSeq(t, p);
    forall i | 0 <= i < |t| && At(t[i], p) && t[i].status == Queued ensures t[i].queueSeq < n {
      assert t[i].PointOf() == p;
    }
    if n > 1 {
      var i :| 0 <= i < |t| && t[i].PointOf() == p && t[i].status == Queued && t[i].queueSeq == n - 1;
      assert At(t[i], p);
    }
  }

  ghost predicate PointBusy(t: Table, p: Point) {
    exists i :: 0 <= i < |t| && t[i].PointOf() == p && t[i].IsPending()
  }

  lemma InflightIsPending(t: Table, p: Point)
    requires CountPendingForPoint(t, p) == 0
    ensures FindInflightForPoint(t, p).None?
  {
    NothingPending(t, p);
  }

  /** A command was admitted at step k under a key its caller chose. A later submission with the same
      site and key, past the end of the window, is a duplicate if and only if a command that came after
      has the key and is inside its own window; of the command itself it no longer is. */
  lemma RetryAfterWindow(cfg: Settings, r: Run, k: nat, req: SubmitRequest, now: Time, draws: Draws)
    requires FromEmpty(cfg, r) && AdmitsAt(cfg, r, k) && !Missing(r.steps[k].req.idempotencyKey)
    requires KeysGiven(req) && req.idempotencyKey == r.steps[k].req.idempotencyKey
    requires req.point.siteId == r.steps[k].req.point.siteId
    requires now > r.steps[k].now + cfg.idempotencyWindowSeconds * SECOND
    ensures var t := r.states[|r.steps|].commands;
      var reply := SubmitReply(cfg, t, req, now, draws);
      reply.Ok? && reply.value.duplicateOf.Some? <==>
        exists j :: |r.states[k].commands| < j < |t|
          && KeyMatch(t[j], req.point.siteId, req.idempotencyKey.value, now - cfg.idempotencyWindowSeconds * SECOND)
  {
    hide Next, SubmitReply;
    var n := |r.steps|;
    var i, t := |r.states[k].commands|, r.states[n].commands;
    var site, key, since := req.point.siteId, req.idempotencyKey.value, now - cfg.idempotencyWindowSeconds * SECOND;
    var correlationId := KeyOr(req.correlationId, draws.correlationId);
    AdmittedRow(cfg, r, k, n);
    ReachableSpaced(cfg, r, n);
    SubmitOutcomes(cfg, t, req, now, draws, key, correlationId);
    forall j | 0 <= j <= i ensures !KeyMatch(t[j], site, key, since) {
      if t[j].siteId == site && t[j].idempotencyKey == key && j < i {
        assert t[i].createdAt - t[j].createdAt > cfg.IdempotencyWindow();
      }
    }
  }

  /** A reply, be it of a new command or of a duplicate, tells exactly which keys were drawn. */
  lemma SubmissionKeys(cfg: Settings, t: Table, req: SubmitRequest, now: Time, draws: Draws)
    requires SubmitReply(cfg, t, req, now, draws).Ok?
    ensures var reply := SubmitReply(cfg, t, req, now, draws).value;
      && reply.generatedIdempotencyKey ==
         (if req.idempotencyKey == None || req.idempotencyKey == Some("") then Some(draws.idempotencyKey) else None)
      && reply.generatedCorrelationId ==
         (if req.correlationId == None || req.correlationId == Some("") then Some(draws.correlationId) else None)
  {
    hide First, FindInflightForPoint, NextQueueSeq, CountPendingForPoint, NewCommand;
  }

  /** Dispatch is refused while the point has a command in flight, finds nothing exactly when the
      point has nothing pending, and otherwise starts the head of the service order. */
  lemma DispatchOutcomes(cfg: Settings, t: Table, p: Point, now: Time)
    requires Scheduled(cfg, t)
    ensures var reply := DispatchReply(t, p, now);
      && (reply == Err(DispatchNotAllowed)
          <==> exists i :: 0 <= i < |t| && t[i].PointOf() == p && t[i].status == Dispatched)
      && (reply == Err(NotFound) <==> !PointBusy(t, p))
      && (reply.Ok? ==>
            && InServiceOrder(t, p) != []
            && SameOrigin(t[InServiceOrder(t, p)[0]], reply.value)
            && reply.value.status == Dispatched && reply.value.dispatchedAt == Some(now))
  {
    DispatchCase(t, p, now);
    NextUpIsHead(cfg, t, p);
    RankedEmpty(MarksOf(t, AcceptedAt(p)));
    RankedEmpty(MarksOf(t, QueuedAt(p)));
    if FindInflightForPoint(t, p).None? {
      ServiceOrderIsEveryPending(t, p);
      if InServiceOrder(t, p) != [] {
        assert InServiceOrder(t, p)[0] in InServiceOrder(t, p);
      }
    }
  }

  /** A reissue brings no keys, so one of a safety command is always turned away when it submits. */
  lemma ReissueOfSafetyRejected(
    cfg: Settings, t: Table, read: Command, role: string, reason: string, now: Time, draws: Draws)
    requires ReissueDecision(Some(read), role, reason).Ok?
    ensures SubmitReply(cfg, t, ReissueDecision(Some(read), role, reason).value, now, draws) == Err(ValidationError)
       <==> read.IsSafety()
  {}

  /** An override touches neither the progress of any command nor the order of service anywhere. */
  lemma OverrideIsInert(cfg: Settings, s: Store, step: Step, p: Point)
    requires DistinctIds(s.commands) && step.Override?
    ensures var t, t' := s.commands, Next(cfg, s, step).commands;
      && |t'| == |t|
      && (forall i :: 0 <= i < |t| ==> SameOrigin(t[i], t'[i]) && SameProgress(t[i], t'[i]))
      && (forall i :: 0 <= i < |t| && t[i].commandId != step.commandId ==> t'[i] == t[i])
      && InServiceOrder(t', p) == InServiceOrder(t, p)
      && CountPendingForPoint(t', p) == CountPendingForPoint(t, p)
  {
    var t, t' := s.commands, Next(cfg, s, step).commands;
    if RowReply(s, step).Ok? {
      PutAt(t, Find(t, step.commandId).value, RowReply(s, step).value);
    }
    assert ServiceMarks(t', p) == ServiceMarks(t, p);
    assert PendingFlags(t', p) == PendingFlags(t, p);
  }

  // Calls that rewrite one row.

  /** A call on a command by id reads the row with that id, and rewrites that row or nothing. */
  lemma ByIdEffect(cfg: Settings, s: Store, step: Step)
    requires DistinctIds(s.commands) && (step.Cancel? || step.Override? || step.Reconcile?)
    ensures !HasId(s.commands, step.commandId) ==> Get(s.commands, step.commandId) == None
    ensures RowReply(s, step).Err? ==> Next(cfg, s, step) == s
    ensures forall i: nat :: i < |s.commands| && s.commands[i].commandId == step.commandId ==>
      && Get(s.commands, step.commandId) == Some(s.commands[i])
      && (RowReply(s, step).Ok? ==> Rewrites(s, Next(cfg, s, step), i, RowReply(s, step).value))
  {
    var t := s.commands;
    forall i: nat | i < |t| && t[i].commandId == step.commandId
      ensures Get(t, step.commandId) == Some(t[i])
      ensures RowReply(s, step).Ok? ==> Rewrites(s, Next(cfg, s, step), i, RowReply(s, step).value)
    {
      FindAt(t, i);
      if RowReply(s, step).Ok? {
        PutAt(t, i, RowReply(s, step).value);
      }
    }
  }

  /** c' is c canceled at the time, with every other column as it was. */
  predicate CanceledFrom(c: Command, c': Command, now: Time) {
    && c'.status == Canceled && c'.updatedAt == now
    && c == c'.(status := c.status, updatedAt := c.updatedAt)
  }

  /** A cancel succeeds if and only if its command is accepted or queued. */
  lemma CancelOutcomes(cfg: Settings, s: Store, id: Id, now: Time)
    requires DistinctIds(s.commands)
    ensures var reply, s' := RowReply(s, Cancel(id, now)), Next(cfg, s, Cancel(id, now));
      && (reply == Err(NotFound) <==> !HasId(s.commands, id))
      && (reply.Err? ==> s' == s)
      && forall i: nat :: i < |s.commands| && s.commands[i].commandId == id ==>
           var c := s.commands[i];
           if c.status == Accepted || c.status == Queued then
             reply.Ok? && CanceledFrom(c, reply.value, now) && Rewrites(s, s', i, reply.value)
           else reply == Err(CancelNotAllowed)
  {
    ByIdEffect(cfg, s, Cancel(id, now));
  }

  /** c' is c sent over the channel from the time on, for the reason, with every other column as it was. */
  predicate OverriddenFrom(c: Command, c': Command, channel: Channel, reason: string, now: Time) {
    && c'.effectiveChannel == channel && c'.overrideReason == Some(reason) && c'.updatedAt == now
    && c == c'.(effectiveChannel := c.effectiveChannel, overrideReason := c.overrideReason, updatedAt := c.updatedAt)
  }

  /** No character but spaces. */
  predicate Blank(reason: string) {
    forall i :: 0 <= i < |reason| ==> IsSpace(reason[i])
  }

  lemma {:induction false} StripRightBlank(s: string)
    ensures StripRight(s) == "" <==> Blank(s)
  {
    if s != "" {
      var n := |s| - 1;
      StripRightBlank(s[..n]);
      assert Blank(s) <==> Blank(s[..n]) && IsSpace(s[n]);
    }
  }

  lemma {:induction false} StripBlank(s: string)
    ensures Strip(s) == "" <==> Blank(s)
  {
    if s != "" && IsSpace(s[0]) {
      StripBlank(s[1..]);
      assert forall i :: 0 < i < |s| ==> s[i] == s[1..][i - 1];
    } else {
      StripRightBlank(s);
    }
  }

  /** An override needs the role, a reason and a command, whatever that command's status. */
  lemma OverrideOutcomes(cfg: Settings, s: Store, id: Id, role: string, reason: string, channel: Channel, now: Time)
    requires DistinctIds(s.commands)
    ensures var step := Override(id, role, reason, channel, now);
      var reply, s' := RowReply(s, step), Next(cfg, s, step);
      var allowed := role == "org_admin" || role == "operations_override";
      && (reply == Err(OverrideNotAllowed) <==> !allowed)
      && (reply == Err(ValidationError) <==> allowed && Blank(reason))
      && (reply == Err(NotFound) <==> allowed && !Blank(reason) && !HasId(s.commands, id))
      && (reply.Ok? <==> allowed && !Blank(reason) && HasId(s.commands, id))
      && (reply.Err? ==> s' == s)
      && forall i: nat :: i < |s.commands| && s.commands[i].commandId == id && reply.Ok? ==>
           OverriddenFrom(s.commands[i], reply.value, channel, reason, now) && Rewrites(s, s', i, reply.value)
  {
    StripBlank(reason);
    hide Strip, Blank;
    ByIdEffect(cfg, s, Override(id, role, reason, channel, now));
  }

  /** c' is c reconciled at the time, with every other column as it was. */
  predicate ReconciledFrom(c: Command, c': Command, observedMatch: bool, now: Time) {
    && c'.status == (if observedMatch then AppliedConfirmed else Failed)
    && c'.resultReason == (if observedMatch then None else Some(ObservedStateMismatch))
    && c'.completedAt == Some(now) && c'.updatedAt == now
    && c == c'.(status := c.status, resultReason := c.resultReason, completedAt := c.completedAt,
                updatedAt := c.updatedAt)
  }

  /** A reconcile succeeds if and only if its command is dispatched. */
  lemma ReconcileOutcomes(cfg: Settings, s: Store, id: Id, observedMatch: bool, now: Time)
    requires DistinctIds(s.commands)
    ensures var step := Reconcile(id, observedMatch, now);
      var reply, s' := RowReply(s, step), Next(cfg, s, step);
      && (reply == Err(NotFound) <==> !HasId(s.commands, id))
      && (reply.Err? ==> s' == s)
      && forall i: nat :: i < |s.commands| && s.commands[i].commandId == id ==>
           var c := s.commands[i];
           if c.status == Dispatched then
             reply.Ok? && ReconciledFrom(c, reply.value, observedMatch, now) && Rewrites(s, s', i, reply.value)
           else reply == Err(ReconciliationNotAllowed)
  {
    ByIdEffect(cfg, s, Reconcile(id, observedMatch, now));
  }

  /** c' is c dispatched at the time, with every other column as it was. */
  predicate DispatchedFrom(c: Command, c': Command, now: Time) {
    && c'.status == Dispatched && c'.dispatchedAt == Some(now) && c'.updatedAt == now
    && c == c'.(status := c.status, dispatchedAt := c.dispatchedAt, updatedAt := c.updatedAt)
  }

  /** A dispatch that succeeds dispatches the head of the service order; any other changes nothing. */
  lemma DispatchEffect(cfg: Settings, s: Store, p: Point, now: Time)
    requires Scheduled(cfg, s.commands)
    ensures var reply, s' := RowReply(s, Dispatch(p, now)), Next(cfg, s, Dispatch(p, now));
      if reply.Ok? then
        && InServiceOrder(s.commands, p) != []
        && DispatchedFrom(s.commands[InServiceOrder(s.commands, p)[0]], reply.value, now)
        && Rewrites(s, s', InServiceOrder(s.commands, p)[0], reply.value)
      else s' == s
  {
    DispatchCase(s.commands, p, now);
    NextUpIsHead(cfg, s.commands, p);
  }

  // Reissue.

  /** A reissue is let through to its submission if and only if the role may, there is a reason, and the
      command has failed or was canceled. It then asks for the command's place, class and payload, with
      the reason noted, under new keys. */
  lemma ReissueOutcomes(t: Table, id: Id, role: string, reason: string)
    requires DistinctIds(t)
    ensures var decision := ReissueDecision(Get(t, id), role, reason);
      var allowed := role == "org_admin" || role == "site_admin" || role == "operations_override";
      && (decision == Err(OverrideNotAllowed) <==> !allowed)
      && (decision == Err(NotFound) <==> allowed && !Blank(reason) && !HasId(t, id))
      && (allowed && Blank(reason) ==> decision == Err(ValidationError))
      && forall i :: 0 <= i < |t| && t[i].commandId == id && allowed && !Blank(reason) ==>
           if t[i].status == Failed || t[i].status == Canceled then
             decision.Ok? && AsksAgain(t[i], decision.value, reason)
           else decision == Err(ValidationError)
  {
    StripBlank(reason);
    hide Strip, Blank;
    forall i: nat | i < |t| && t[i].commandId == id ensures Get(t, id) == Some(t[i]) {
      FindAt(t, i);
    }
  }

  predicate AsksAgain(c: Command, req: SubmitRequest, reason: string) {
    && req.organizationId == c.organizationId && At(c, req.point) && req.commandClass == c.commandClass
    && req.payload.reissueReason == Some(reason)
    && req.payload.simulateDeliveryFailure == c.payload.simulateDeliveryFailure
    && req.payload.content == c.payload.content
    && req.idempotencyKey == None && req.correlationId == None && req.parentCommandId == Some(c.commandId)
  }
}
