/**
Windowed deduplication: idempotency keys and correlation ids, per site. The windows slide with
the clock over a table that only grows.
*/
module Dedup {
  import opened Common
  import opened Entities
  import opened Ranking
  import opened CommandTable
  import opened UseCases
  import opened Pipeline
  import opened Runs
  import opened Lifecycle

  /** Of two commands on a site with one idempotency key, the later was created more than a window
      after the earlier. */
  ghost predicate KeysSpaced(cfg: Settings, t: Table) {
    forall i, j :: 0 <= i < j < |t|
                   && t[i].siteId == t[j].siteId && t[i].idempotencyKey == t[j].idempotencyKey ==>
      t[j].createdAt - t[i].createdAt > cfg.IdempotencyWindow()
  }

  ghost predicate CorrelationsSpaced(cfg: Settings, t: Table) {
    forall i, j :: 0 <= i < j < |t|
                   && t[i].siteId == t[j].siteId && t[i].correlationId == t[j].correlationId ==>
      t[j].createdAt - t[i].createdAt > cfg.CorrelationWindow()
  }

  ghost predicate Spaced(cfg: Settings, t: Table) {
    KeysSpaced(cfg, t) && CorrelationsSpaced(cfg, t)
  }

  ghost predicate OutsideWindows(cfg: Settings, t: Table, c: Command) {
    forall i :: 0 <= i < |t| && t[i].siteId == c.siteId ==>
      && (t[i].idempotencyKey == c.idempotencyKey ==> t[i].createdAt < c.createdAt - cfg.IdempotencyWindow())
      && (t[i].correlationId == c.correlationId ==> t[i].createdAt < c.createdAt - cfg.CorrelationWindow())
  }

  lemma AppendSpaced(cfg: Settings, t: Table, c: Command)
    requires Spaced(cfg, t) && OutsideWindows(cfg, t, c)
    ensures Spaced(cfg, t + [c])
  {}

  lemma AdmittedOutsideWindows(cfg: Settings, t: Table, req: SubmitRequest, now: Time, draws: Draws)
    requires Admitted(SubmitReply(cfg, t, req, now, draws))
    ensures OutsideWindows(cfg, t, SubmitReply(cfg, t, req, now, draws).value.command)
  {
    hide First, MarksOf, NewCommand, CountPendingForPoint, FindInflightForPoint, NextQueueSeq;
    var byKey := RecentByKey(
      req.point.siteId, KeyOr(req.idempotencyKey, draws.idempotencyKey), now - cfg.IdempotencyWindow());
    var byCorrelation := RecentByCorrelation(
      req.point.siteId, KeyOr(req.correlationId, draws.correlationId), now - cfg.CorrelationWindow());
    NoneMatches(t, byKey);
    NoneMatches(t, byCorrelation);
    SubmittedNow(cfg, t, req, now, draws);
    assert forall i :: 0 <= i < |t| ==> !byKey.Matches(t[i]) && !byCorrelation.Matches(t[i]);
  }

  lemma SameColumnsSpaced(cfg: Settings, t: Table, t': Table)
    requires Spaced(cfg, t) && |t'| == |t|
    requires forall i :: 0 <= i < |t| ==> SameOrigin(t[i], t'[i])
    ensures Spaced(cfg, t')
  {
    assert forall i :: 0 <= i < |t| ==>
      && t'[i].siteId == t[i].siteId && t'[i].createdAt == t[i].createdAt
      && t'[i].idempotencyKey == t[i].idempotencyKey && t'[i].correlationId == t[i].correlationId;
  }

  lemma StepKeepsSpaced(cfg: Settings, s: Store, step: Step)
    requires Spaced(cfg, s.commands) && DistinctIds(s.commands) && ValidStep(s, step)
    ensures Spaced(cfg, Next(cfg, s, step).commands)
  {
    hide Next, SubmitReply, KeysSpaced, CorrelationsSpaced;
    var t, t' := s.commands, Next(cfg, s, step).commands;
    StepCases(cfg, s, step);
    if |t'| > |t| {
      AdmittedOutsideWindows(cfg, t, step.req, step.now, step.draws);
      AppendSpaced(cfg, t, SubmitReply(cfg, t, step.req, step.now, step.draws).value.command);
    } else {
      StepMoves(cfg, s, step);
      SameColumnsSpaced(cfg, t, t');
    }
  }

  /** Spacing holds in every reachable state, even if the clock runs backwards. */
  lemma {:induction false} ReachableSpaced(cfg: Settings, r: Run, k: nat)
    requires FromEmpty(cfg, r) && k <= |r.steps|
    ensures Spaced(cfg, r.states[k].commands)
  {
    hide Next;
    if k > 0 {
      ReachableSpaced(cfg, r, k - 1);
      ReachableEvolves(cfg, r, k - 1, k - 1);
      assert Takes(cfg, r, k - 1);
      StepKeepsSpaced(cfg, r.states[k - 1], r.steps[k - 1]);
    }
  }

  // Replay.

  predicate SameKey(t: Table, i: nat, j: nat)
    requires i < |t| && j < |t|
  {
    t[i].siteId == t[j].siteId && t[i].idempotencyKey == t[j].idempotencyKey
  }

  /** The window lookup finds a row inside the window exactly when it is the last with its key. */
  lemma RecentIsLast(cfg: Settings, t: Table, i: nat, since: Time)
    requires KeysSpaced(cfg, t) && i < |t| && t[i].createdAt >= since
    ensures FindRecentByIdempotency(t, t[i].siteId, t[i].idempotencyKey, since).Some?
    ensures FindRecentByIdempotency(t, t[i].siteId, t[i].idempotencyKey, since) == Some(t[i])
       <==> forall j :: i < j < |t| ==> !SameKey(t, i, j)
  {
    var m := MarksOf(t, RecentByKey(t[i].siteId, t[i].idempotencyKey, since));
    assert Kept(m, i);
    if j :| i < j < |t| && SameKey(t, i, j) {
      assert t[j].createdAt - t[i].createdAt > cfg.IdempotencyWindow();
      assert Kept(m, j);
      RankedHead(m, j);
      assert Kept(m, Ranked(m)[0]);
    } else {
      forall q: nat | Kept(m, q) && q != i ensures Precedes(m, i, q) {
        assert SameKey(t, i, q);
        assert SameKey(t, q, i);
      }
      RankedHeadIs(m, i);
    }
  }

  /** Every submission from step j on reads a clock of at most `now`. */
  ghost predicate SubmittedBy(r: Run, j: nat, now: Time) {
    forall k :: j <= k < |r.steps| && r.steps[k].Submit? ==> r.steps[k].now <= now
  }

  lemma SubmittedNow(cfg: Settings, t: Table, req: SubmitRequest, now: Time, draws: Draws)
    requires Admitted(SubmitReply(cfg, t, req, now, draws))
    ensures var c := SubmitReply(cfg, t, req, now, draws).value.command;
      c.createdAt == now && c.siteId == req.point.siteId && c.commandId == draws.commandId
      && c.idempotencyKey == KeyOr(req.idempotencyKey, draws.idempotencyKey)
      && c.correlationId == KeyOr(req.correlationId, draws.correlationId)
  {}

  /** The rows from the given position on were created by the time. */
  ghost predicate CreatedBy(t: Table, from: nat, now: Time) {
    from <= |t| && forall i :: from <= i < |t| ==> t[i].createdAt <= now
  }

  lemma {:induction false} LaterRowsCreatedBy(cfg: Settings, r: Run, j: nat, k: nat, now: Time)
    requires FromEmpty(cfg, r) && j <= k <= |r.steps| && SubmittedBy(r, j, now)
    ensures CreatedBy(r.states[k].commands, |r.states[j].commands|, now)
  {
    hide Next;
    if j < k {
      LaterRowsCreatedBy(cfg, r, j, k - 1, now);
      ReachableEvolves(cfg, r, k - 1, k - 1);
      assert Takes(cfg, r, k - 1);
      StepCreates(cfg, r.states[k - 1], r.steps[k - 1], |r.states[j].commands|, now);
    }
  }

  lemma StepCreates(cfg: Settings, s: Store, step: Step, from: nat, now: Time)
    requires ValidStep(s, step) && DistinctIds(s.commands) && CreatedBy(s.commands, from, now)
    requires step.Submit? ==> step.now <= now
    ensures CreatedBy(Next(cfg, s, step).commands, from, now)
  {
    var t, t' := s.commands, Next(cfg, s, step).commands;
    StepMoves(cfg, s, step);
    forall i | 0 <= i < |t| ensures t'[i].createdAt == t[i].createdAt {
      assert RowMoves(t[i], t'[i]);
    }
    StepCases(cfg, s, step);
    if |t'| > |t| {
      SubmittedNow(cfg, t, step.req, step.now, step.draws);
    }
  }

  lemma DuplicateReply(cfg: Settings, s: Store, c: Command, req: SubmitRequest, now: Time, draws: Draws)
    requires req.BringsRequiredKeys() && !Missing(req.idempotencyKey)
    requires FindRecentByIdempotency(s.commands, req.point.siteId, req.idempotencyKey.value,
                                     now - cfg.IdempotencyWindow()) == Some(c)
    ensures SubmitReply(cfg, s.commands, req, now, draws).Ok?
    ensures SubmitReply(cfg, s.commands, req, now, draws).value.duplicateOf == Some(c.commandId)
    ensures Next(cfg, s, Submit(req, now, draws)) == s
  {
    hide First, MarksOf, NewCommand, CountPendingForPoint, FindInflightForPoint, NextQueueSeq;
  }

  lemma NoLaterSameKey(cfg: Settings, t: Table, i: nat, now: Time)
    requires KeysSpaced(cfg, t) && i < |t|
    requires now <= t[i].createdAt + cfg.IdempotencyWindow()
    requires forall j :: i < j < |t| ==> t[j].createdAt <= now
    ensures forall j :: i < j < |t| ==> !SameKey(t, i, j)
  {
    forall j | i < j < |t| ensures !SameKey(t, i, j) {
      assert t[j].createdAt <= now;
    }
  }

  lemma AdmittedRow(cfg: Settings, r: Run, k: nat, n: nat)
    requires FromEmpty(cfg, r) && AdmitsAt(cfg, r, k) && !Missing(r.steps[k].req.idempotencyKey) && k < n <= |r.steps|
    ensures var i, t := |r.states[k].commands|, r.states[n].commands;
      && |r.states[k + 1].commands| == i + 1
      && i < |t|
      && t[i].commandId == r.steps[k].draws.commandId
      && t[i].createdAt == r.steps[k].now
      && t[i].siteId == r.steps[k].req.point.siteId
      && t[i].idempotencyKey == r.steps[k].req.idempotencyKey.value
  {
    hide Next;
    var c := AddedRow(cfg, r.states[k], r.steps[k]);
    SubmittedNow(cfg, r.states[k].commands, r.steps[k].req, r.steps[k].now, r.steps[k].draws);
    assert c.commandId == r.steps[k].draws.commandId;
    assert Takes(cfg, r, k);
    SubmitStep(cfg, r.states[k], r.steps[k]);
    assert r.states[k + 1].commands[|r.states[k].commands|] == c;
    ReachableEvolves(cfg, r, k + 1, n);
    assert Evolves(c, r.states[n].commands[|r.states[k].commands|]);
  }

  /** The lookup for the key of row i finds some row, and it is row i if and only if no later row
      has the key. */
  lemma FoundIsOriginal(cfg: Settings, t: Table, i: nat, since: Time) returns (found: Command)
    requires KeysSpaced(cfg, t) && DistinctIds(t) && i < |t| && t[i].createdAt >= since
    ensures FindRecentByIdempotency(t, t[i].siteId, t[i].idempotencyKey, since) == Some(found)
    ensures found.commandId == t[i].commandId <==> forall j :: i < j < |t| ==>
              !(t[j].siteId == t[i].siteId && t[j].idempotencyKey == t[i].idempotencyKey)
  {
    RecentIsLast(cfg, t, i, since);
    var m := MarksOf(t, RecentByKey(t[i].siteId, t[i].idempotencyKey, since));
    RankedEmpty(m);
    var at := Ranked(m)[0];
    found := t[at];
    assert found.commandId == t[i].commandId ==> at == i;
    assert forall j :: i < j < |t| ==> (SameKey(t, i, j) <==>
      t[j].siteId == t[i].siteId && t[j].idempotencyKey == t[i].idempotencyKey);
  }

  /** Whatever the clocks read, a retry up to the end of the window is answered with the original
      if and only if no later command has its site and key. */
  lemma RetryExactly(cfg: Settings, r: Run, k: nat, req: SubmitRequest, now: Time, draws: Draws)
    requires FromEmpty(cfg, r) && AdmitsAt(cfg, r, k) && !Missing(r.steps[k].req.idempotencyKey)
    requires req.BringsRequiredKeys() && req.idempotencyKey == r.steps[k].req.idempotencyKey
    requires req.point.siteId == r.steps[k].req.point.siteId
    requires now <= r.steps[k].now + cfg.IdempotencyWindow()
    ensures var t := r.states[|r.steps|].commands;
      && SubmitReply(cfg, t, req, now, draws).Ok?
      && (SubmitReply(cfg, t, req, now, draws).value.duplicateOf == Some(r.steps[k].draws.commandId)
          <==> forall j :: |r.states[k].commands| < j < |t| ==>
                 !(t[j].siteId == req.point.siteId && t[j].idempotencyKey == req.idempotencyKey.value))
  {
    hide Next, SubmitReply, First, MarksOf;
    var n := |r.steps|;
    var i, t := |r.states[k].commands|, r.states[n].commands;
    AdmittedRow(cfg, r, k, n);
    ReachableSpaced(cfg, r, n);
    ReachableEvolves(cfg, r, n, n);
    var found := FoundIsOriginal(cfg, t, i, now - cfg.IdempotencyWindow());
    DuplicateReply(cfg, r.states[n], found, req, now, draws);
  }

  /** Retrying gives back the original. A command was admitted at step k under a key its caller
      chose; after any further steps, a resubmission with the same site and key up to the end of the
      window is answered with that command and changes nothing, if no submission since has read a
      clock past that end. */
  lemma RetryReturnsOriginal(cfg: Settings, r: Run, k: nat, req: SubmitRequest, now: Time, draws: Draws)
    requires FromEmpty(cfg, r) && AdmitsAt(cfg, r, k) && !Missing(r.steps[k].req.idempotencyKey)
    requires req.BringsRequiredKeys() && req.idempotencyKey == r.steps[k].req.idempotencyKey
    requires req.point.siteId == r.steps[k].req.point.siteId
    requires now <= r.steps[k].now + cfg.IdempotencyWindow()
    requires SubmittedBy(r, k + 1, r.steps[k].now + cfg.IdempotencyWindow())
    ensures var s := r.states[|r.steps|];
      && SubmitReply(cfg, s.commands, req, now, draws).Ok?
      && SubmitReply(cfg, s.commands, req, now, draws).value.duplicateOf == Some(r.steps[k].draws.commandId)
      && Next(cfg, s, Submit(req, now, draws)) == s
  {
    hide Next, SubmitReply;
    var n, end := |r.steps|, r.steps[k].now + cfg.IdempotencyWindow();
    var i, t := |r.states[k].commands|, r.states[n].commands;
    AdmittedRow(cfg, r, k, n);
    LaterRowsCreatedBy(cfg, r, k + 1, n, end);
    ReachableSpaced(cfg, r, n);
    NoLaterSameKey(cfg, t, i, end);
    RetryExactly(cfg, r, k, req, now, draws);
    DuplicateChangesNothing(cfg, r.states[n], req, now, draws);
  }

  lemma DuplicateChangesNothing(cfg: Settings, s: Store, req: SubmitRequest, now: Time, draws: Draws)
    requires !Admitted(SubmitReply(cfg, s.commands, req, now, draws))
    ensures Next(cfg, s, Submit(req, now, draws)) == s
  {}

  // The clock condition above cannot be dropped.

  const PLAIN := Payload(false, None, "")

  function Request(correlation: string): SubmitRequest {
    SubmitRequest("org", Point("site", "point"), RoutineAutomation, PLAIN, Some("key"), Some(correlation), None)
  }

  const PLAIN_SUBMIT := Submit(Request("x"), 0, Draws("a", "", ""))
  const AHEAD_SUBMIT := Submit(Request("y"), 90_000 * SECOND, Draws("b", "", ""))

  /** A run in which a submission under the key reads a clock 90000 seconds ahead. */
  function AheadClockRun(cfg: Settings): Run {
    var s := Next(cfg, EMPTY, PLAIN_SUBMIT);
    Run([EMPTY, s, Next(cfg, s, AHEAD_SUBMIT)], [PLAIN_SUBMIT, AHEAD_SUBMIT])
  }

  /** A submission whose windows hold nothing and whose point has room is admitted. */
  lemma NothingFound(cfg: Settings, t: Table, req: SubmitRequest, now: Time, draws: Draws)
    requires req.BringsRequiredKeys() && |t| < cfg.queueMaxDepthPerPoint
    requires forall i :: 0 <= i < |t| && t[i].siteId == req.point.siteId ==>
      t[i].createdAt < now - cfg.IdempotencyWindow() && t[i].createdAt < now - cfg.CorrelationWindow()
    ensures Admitted(SubmitReply(cfg, t, req, now, draws))
  {
    hide First, MarksOf, NewCommand, FindInflightForPoint, NextQueueSeq;
    NoneMatches(t, RecentByKey(
      req.point.siteId, KeyOr(req.idempotencyKey, draws.idempotencyKey), now - cfg.IdempotencyWindow()));
    NoneMatches(t, RecentByCorrelation(
      req.point.siteId, KeyOr(req.correlationId, draws.correlationId), now - cfg.CorrelationWindow()));
    assert CountPendingForPoint(t, req.point) <= |t|;
  }

  ghost predicate UnderKey(c: Command, id: Id, now: Time) {
    c.commandId == id && c.siteId == "site" && c.idempotencyKey == "key" && c.createdAt == now
  }

  /** A submission under the key is admitted where the windows hold nothing, and adds its row. */
  lemma SubmitUnderKey(cfg: Settings, s: Store, step: Step)
    requires step.Submit? && ValidStep(s, step) && |s.commands| < cfg.queueMaxDepthPerPoint
    requires step.req == Request("x") || step.req == Request("y")
    requires forall i :: 0 <= i < |s.commands| ==>
      s.commands[i].createdAt < step.now - cfg.IdempotencyWindow()
      && s.commands[i].createdAt < step.now - cfg.CorrelationWindow()
    ensures Admitted(SubmitReply(cfg, s.commands, step.req, step.now, step.draws))
    ensures var t, t' := s.commands, Next(cfg, s, step).commands;
      |t'| == |t| + 1 && t'[..|t|] == t && UnderKey(t'[|t|], step.draws.commandId, step.now)
  {
    hide Next, SubmitReply, First;
    NothingFound(cfg, s.commands, step.req, step.now, step.draws);
    SubmitStep(cfg, s, step);
    SubmittedNow(cfg, s.commands, step.req, step.now, step.draws);
  }

  /** Both submissions are admitted, and leave these rows. */
  lemma AheadClockRows(cfg: Settings, s: Store, s': Store)
    requires cfg == SettingsRecord(5, 30, 3600, 86400, 0, 30, 30, 10, 300)
    requires s == Next(cfg, EMPTY, PLAIN_SUBMIT) && s' == Next(cfg, s, AHEAD_SUBMIT)
    ensures ValidStep(EMPTY, PLAIN_SUBMIT) && ValidStep(s, AHEAD_SUBMIT)
    ensures Admitted(SubmitReply(cfg, [], PLAIN_SUBMIT.req, PLAIN_SUBMIT.now, PLAIN_SUBMIT.draws))
    ensures |s'.commands| == 2
    ensures UnderKey(s'.commands[0], "a", 0) && UnderKey(s'.commands[1], "b", 90_000 * SECOND)
  {
    hide Next, SubmitReply;
    SubmitUnderKey(cfg, EMPTY, PLAIN_SUBMIT);
    assert UnderKey(s.commands[0], "a", 0);
    SubmitUnderKey(cfg, s, AHEAD_SUBMIT);
    assert s'.commands[0] == s'.commands[..1][0];
  }

  /** A retry of the first submission at its own time is then answered with the second command. */
  lemma RetryNeedsForwardClock(cfg: Settings)
    requires cfg == SettingsRecord(5, 30, 3600, 86400, 0, 30, 30, 10, 300)
    ensures FromEmpty(cfg, AheadClockRun(cfg)) && AdmitsAt(cfg, AheadClockRun(cfg), 0)
    ensures var s := AheadClockRun(cfg).states[2];
      && SubmitReply(cfg, s.commands, Request("x"), 0, Draws("c", "", "")).Ok?
      && SubmitReply(cfg, s.commands, Request("x"), 0, Draws("c", "", "")).value.duplicateOf == Some("b")
  {
    hide Next, SubmitReply, ValidStep;
    var r := AheadClockRun(cfg);
    AheadClockRows(cfg, r.states[1], r.states[2]);
    assert Takes(cfg, r, 0) && Takes(cfg, r, 1);
    RecentIsLast(cfg, r.states[2].commands, 1, 0 - cfg.IdempotencyWindow());
    DuplicateReply(cfg, r.states[2], r.states[2].commands[1], Request("x"), 0, Draws("c", "", ""));
  }
}
