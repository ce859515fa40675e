/** Concrete runs, under the default settings, on which the two repositories part. */
module Divergence {
  import opened Common
  import opened Entities
  import opened CommandTable
  import opened UseCases
  import opened Pipeline
  import opened Runs
  import opened Lifecycle
  import opened Dedup
  import opened SlaEquivalence
  import opened Leases
  import opened Postgres
  import opened PostgresBatch
  import opened PostgresSteps
  import opened Backends

  const DEFAULTS := SettingsRecord(5, 30, 3600, 86400, 0, 30, 30, 10, 300)

  /** A waiting command to be finished by the time. */
  predicate WaitsFor(c: Command, deadline: Time) {
    c.IsPending() && c.reconciliationDeadlineAt == deadline
  }

  /** Routine submissions at time 0 to two sites: each command has to be finished by 300 s. */
  function At0(site: string, id: Id): Step {
    Submit(SubmitRequest("org", Point(site, "point"), RoutineAutomation, PLAIN, Some("key"), Some("x"), None), 0,
           Draws(id, "", ""))
  }

  lemma Submitted(cfg: Settings, s: Store, step: Step)
    requires cfg == DEFAULTS && step.Submit? && ValidStep(s, step) && |s.commands| < 5
    requires step.req.commandClass == RoutineAutomation
    requires forall i :: 0 <= i < |s.commands| ==> s.commands[i].siteId != step.req.point.siteId
    ensures var s', n := Next(cfg, s, step), |s.commands|;
      && s' == s.(commands := s'.commands)
      && |s'.commands| == n + 1 && s'.commands[..n] == s.commands
      && WaitsFor(s'.commands[n], step.now + 300 * SECOND) && s'.commands[n].siteId == step.req.point.siteId
      && s'.commands[n].commandId == step.draws.commandId
  {
    hide First, FindInflightForPoint, NextQueueSeq, CountPendingForPoint;
    NothingFound(cfg, s.commands, step.req, step.now, step.draws);
    SubmitStep(cfg, s, step);
    SubmitCase(cfg, s.commands, step.req, step.now, step.draws);
    SubmittedNow(cfg, s.commands, step.req, step.now, step.draws);
  }

  // A lease that outlives its batch.

  function BatchAt(seconds: int, owner: Id, eventId: Id): Step {
    EvaluateSla(1, seconds * SECOND, owner, [eventId])
  }

  /** A batch that finds nothing overdue leaves commands and incidents as they are. */
  lemma IdleBatch(cfg: Settings, s: Store, step: Step)
    requires step.EvaluateSla? && ValidStep(s, step) && Idle(s.commands, step.limit, step.now)
    ensures Next(cfg, s, step).commands == s.commands && Next(cfg, s, step).incidents == s.incidents
  {}

  lemma OneWaits(t: Table, now: Time)
    requires |t| == 1 && WaitsFor(t[0], 300 * SECOND)
    ensures Idle(t, 1, now) <==> now <= 300 * SECOND
    ensures CleanCut(t, 1, now)
  {
    NothingOverdue(t, now);
    CleanCuts(t, 1, now);
  }

  lemma OutlivedRun(cfg: Settings) returns (r: Run)
    requires cfg == DEFAULTS
    ensures FromEmpty(cfg, r)
    ensures r.steps == [At0("site", "a"), BatchAt(299, "first", "e"), BatchAt(301, "second", "f")]
    ensures forall k :: 1 <= k <= 2 ==> |r.states[k].commands| == 1 && WaitsFor(r.states[k].commands[0], 300 * SECOND)
  {
    hide Next, ValidStep, IsRun;
    r := Run([EMPTY], []);
    StartIsRun(cfg);
    Fresh(EMPTY, At0("site", "a"));
    Submitted(cfg, EMPTY, At0("site", "a"));
    RunExtends(cfg, r, At0("site", "a"));
    r := Run(r.states + [Next(cfg, EMPTY, At0("site", "a"))], r.steps + [At0("site", "a")]);
    var s1, first := r.states[1], BatchAt(299, "first", "e");
    Fresh(s1, first);
    RunExtends(cfg, r, first);
    OneWaits(s1.commands, first.now);
    IdleBatch(cfg, s1, first);
    r := Run(r.states + [Next(cfg, s1, first)], r.steps + [first]);
    var s2, second := r.states[2], BatchAt(301, "second", "f");
    Fresh(s2, second);
    RunExtends(cfg, r, second);
    r := Run(r.states + [Next(cfg, s2, second)], r.steps + [second]);
  }

  lemma StartIsRun(cfg: Settings)
    ensures FromEmpty(cfg, Run([EMPTY], []))
  {}

  lemma Fresh(s: Store, step: Step)
    requires s.incidents == []
    requires step.Submit? ==> forall i :: 0 <= i < |s.commands| ==> s.commands[i].commandId != step.draws.commandId
    requires step.Submit? || (step.EvaluateSla? && step.limit == |step.eventIds| == 1)
    ensures ValidStep(s, step)
  {}

  /** The second batch has something to do and comes too soon after the first. */
  lemma SecondRefused(cfg: Settings, r: Run)
    requires cfg == DEFAULTS && |r.states| == 4
    requires r.steps == [At0("site", "a"), BatchAt(299, "first", "e"), BatchAt(301, "second", "f")]
    requires forall k :: 1 <= k <= 2 ==> |r.states[k].commands| == 1 && WaitsFor(r.states[k].commands[0], 300 * SECOND)
    ensures OwnLeases(r.steps) && ForwardClock(r.steps)
    ensures Comparable(cfg, r, 0) && Comparable(cfg, r, 1) && !Served(cfg, r, 2)
  {
    hide CleanCut, Idle;
    OneWaits(r.states[1].commands, 299 * SECOND);
    OneWaits(r.states[2].commands, 301 * SECOND);
    assert GetsLease(cfg, r.steps, 1);
  }

  /** The database has a run of the same calls. */
  lemma OutlivedOnDatabase(cfg: Settings, r: Run) returns (dbs: seq<Database>)
    requires FromEmpty(cfg, r) && |r.steps| == 3 && OwnLeases(r.steps)
    requires Comparable(cfg, r, 0) && Comparable(cfg, r, 1)
    ensures PgRun(cfg, r.steps, dbs)
  {
    hide Next, PgStep, Represents, CleanCut, Idle, IsRun, NoChoice, OwnLeases, GetsLease;
    RunLengths(cfg, r);
    dbs := RunMirrored(cfg, r, 2);
    ReachableNoChoice(cfg, r, 2);
    ValidAt(cfg, r, 2);
    var db' := DatabaseAnswers(cfg, dbs[2], r.states[2], r.steps[2]);
    PgExtends(cfg, r.steps, dbs, 2, db');
    dbs := dbs + [db'];
    assert r.steps[..3] == r.steps;
  }

  /** A batch at 299 s finds nothing overdue, but its lease stays. At 301 s the command is overdue: in
      memory the next batch fails it, and on the database that batch is refused. The database has runs
      of these calls, and none ends on the in-memory commands. */
  lemma LeaseOutlivesBatch(cfg: Settings) returns (r: Run, dbs: seq<Database>)
    requires cfg == DEFAULTS
    ensures FromEmpty(cfg, r) && OwnLeases(r.steps) && ForwardClock(r.steps)
    ensures r.steps == [At0("site", "a"), BatchAt(299, "first", "e"), BatchAt(301, "second", "f")]
    ensures PgRun(cfg, r.steps, dbs)
    ensures forall dbs: seq<Database> :: PgRun(cfg, r.steps, dbs) ==>
      !Represents(dbs[3].commands, r.states[3].commands)
  {
    hide Next, PgStep, Represents, Comparable, Served, OwnLeases, ForwardClock, IsRun;
    r := OutlivedRun(cfg);
    RunLengths(cfg, r);
    SecondRefused(cfg, r);
    dbs := OutlivedOnDatabase(cfg, r);
    assert r.steps[..3] == r.steps;
    forall dbs: seq<Database> | PgRun(cfg, r.steps, dbs)
      ensures |dbs| == 4 && |r.states| == 4 && !Represents(dbs[3].commands, r.states[3].commands)
    {
      RefusedBatchParts(cfg, r, 2, dbs);
    }
  }

  lemma RunLengths(cfg: Settings, r: Run)
    requires FromEmpty(cfg, r)
    ensures |r.states| == |r.steps| + 1
  {}

  lemma ValidAt(cfg: Settings, r: Run, k: nat)
    requires FromEmpty(cfg, r) && k < |r.steps|
    ensures ValidStep(r.states[k], r.steps[k])
  {
    assert Takes(cfg, r, k);
  }

  // A tie across the limit.

  /** Of two commands with one deadline a batch with a limit of 1 takes one; on the database it may be
      the other one. */
  lemma TieAcrossLimit(cfg: Settings) returns (r: Run)
    requires cfg == DEFAULTS
    ensures FromEmpty(cfg, r) && OwnLeases(r.steps) && ForwardClock(r.steps)
    ensures r.steps == [At0("site", "a"), At0("other", "b"), BatchAt(301, "first", "e")]
    ensures !CleanCut(r.states[2].commands, 1, 301 * SECOND)
    ensures AgreesAfter(cfg, r, 2) && !AgreesAfter(cfg, r, 3)
  {
    hide Next, ValidStep, IsRun, AgreesAfter, CleanCut;
    r := Run([EMPTY], []);
    StartIsRun(cfg);
    Fresh(EMPTY, At0("site", "a"));
    Submitted(cfg, EMPTY, At0("site", "a"));
    RunExtends(cfg, r, At0("site", "a"));
    r := Run(r.states + [Next(cfg, EMPTY, At0("site", "a"))], r.steps + [At0("site", "a")]);
    var s1, other := r.states[1], At0("other", "b");
    Fresh(s1, other);
    Submitted(cfg, s1, other);
    RunExtends(cfg, r, other);
    r := Run(r.states + [Next(cfg, s1, other)], r.steps + [other]);
    var s2, batch := r.states[2], BatchAt(301, "first", "e");
    assert s2.commands[0] == s2.commands[..1][0];
    TwoTie(s2.commands, 301 * SECOND);
    Fresh(s2, batch);
    RunExtends(cfg, r, batch);
    r := Run(r.states + [Next(cfg, s2, batch)], r.steps + [batch]);
    BackendsAgree(cfg, r, 2);
    Parts(cfg, r, 2);
  }

  lemma TwoTie(t: Table, now: Time)
    requires |t| == 2 && WaitsFor(t[0], 300 * SECOND) && WaitsFor(t[1], 300 * SECOND) && now > 300 * SECOND
    ensures !CleanCut(t, 1, now)
  {
    var r := ListOverdue(t, now);
    OverdueListed(t, now);
    OverdueNoRepeats(t, now);
    assert 0 in r && 1 in r;
    assert |r| >= 2;
    assert r[0] in Take(r, 1) && r[1] in r && r[1] !in Take(r, 1);
  }
}
