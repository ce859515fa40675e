/**
What each use case decides, given the rows its queries returned. The decisions are shared by both
repositories: a decision names the reply and the one row to write, and the repository writes it.
*/
module UseCases {
  import opened Common
  import opened Entities
  import opened CommandTable

  // Submission.

  datatype SubmitRequest = SubmitRequest(
    organizationId: string,
    point: Point,
    commandClass: CommandClass,
    payload: Payload,
    idempotencyKey: Option<string>,
    correlationId: Option<string>,
    parentCommandId: Option<Id>)
  {
    /** Safety commands must bring both keys. */
    predicate BringsRequiredKeys() {
      commandClass == SafetyCritical ==> !Missing(idempotencyKey) && !Missing(correlationId)
    }
  }

  /** The random identifiers one submission draws. */
  datatype Draws = Draws(commandId: Id, idempotencyKey: string, correlationId: string)

  /** What a submission reads. */
  datatype SubmitQueries = SubmitQueries(
    duplicate: Option<Command>,
    conflicting: Option<Command>,
    pendingDepth: nat,
    inflight: Option<Command>,
    nextQueueSeq: int)

  /** Python's `not key`. */
  predicate Missing(key: Option<string>) {
    key.None? || key.value == ""
  }

  function KeyOr(key: Option<string>, generated: string): string {
    if Missing(key) then generated else key.value
  }

  function Generated(key: Option<string>, generated: string): Option<string> {
    if Missing(key) then Some(generated) else None
  }

  function NewCommand(
    cfg: Settings, req: SubmitRequest, now: Time, draws: Draws, q: SubmitQueries): Command
  {
    var policy := PolicyOf(req.commandClass);
    var status := if q.inflight.None? && q.pendingDepth == 0 then Accepted else Queued;
    Command(
      draws.commandId,
      req.organizationId,
      req.point.siteId,
      req.point.pointId,
      req.commandClass,
      status,
      Api,
      policy.primaryChannel,
      KeyOr(req.idempotencyKey, draws.idempotencyKey),
      KeyOr(req.correlationId, draws.correlationId),
      req.payload,
      req.parentCommandId,
      if req.commandClass == SafetyCritical then 0 else 1,
      if status == Accepted then 0 else q.nextQueueSeq,
      None,
      now + policy.reconciliationSlaSeconds * SECOND + cfg.slaDeadlineOffsetSeconds * SECOND,
      None,
      None,
      None,
      now,
      now)
  }

  /** An Ok reply with no duplicate asks for its command to be added; nothing else is written. */
  function SubmitDecision(
    cfg: Settings, req: SubmitRequest, now: Time, draws: Draws, q: SubmitQueries): Outcome<SubmissionResult>
  {
    var generatedIdempotencyKey := Generated(req.idempotencyKey, draws.idempotencyKey);
    var generatedCorrelationId := Generated(req.correlationId, draws.correlationId);
    if !req.BringsRequiredKeys() then Err(ValidationError)
    else if q.duplicate.Some? then
      Ok(SubmissionResult(q.duplicate.value, Some(q.duplicate.value.commandId),
                          generatedIdempotencyKey, generatedCorrelationId))
    else if q.conflicting.Some? then
      Err(CorrelationConflict(KeyOr(req.correlationId, draws.correlationId), q.conflicting.value.commandId))
    else if q.pendingDepth >= cfg.queueMaxDepthPerPoint then
      Err(QueueOverflow(q.pendingDepth, cfg.queueRetryAfterSeconds))
    else
      Ok(SubmissionResult(NewCommand(cfg, req, now, draws, q), None,
                          generatedIdempotencyKey, generatedCorrelationId))
  }

  /** What a submission looks for: its point, its two keys, and where their windows begin. */
  datatype Probe = Probe(point: Point, key: string, keySince: Time, correlationId: string, correlationSince: Time)

  function ProbeOf(cfg: Settings, req: SubmitRequest, now: Time, draws: Draws): Probe {
    Probe(req.point,
          KeyOr(req.idempotencyKey, draws.idempotencyKey), now - cfg.IdempotencyWindow(),
          KeyOr(req.correlationId, draws.correlationId), now - cfg.CorrelationWindow())
  }

  /** The queries of a submission, on the in-memory table. */
  function QueriesOf(t: Table, p: Probe): SubmitQueries {
    SubmitQueries(
      FindRecentByIdempotency(t, p.point.siteId, p.key, p.keySince),
      FindRecentByCorrelation(t, p.point.siteId, p.correlationId, p.correlationSince),
      CountPendingForPoint(t, p.point),
      FindInflightForPoint(t, p.point),
      NextQueueSeq(t, p.point))
  }

  function SubmitQueriesOf(cfg: Settings, t: Table, req: SubmitRequest, now: Time, draws: Draws): SubmitQueries {
    QueriesOf(t, ProbeOf(cfg, req, now, draws))
  }

  function SubmitReply(cfg: Settings, t: Table, req: SubmitRequest, now: Time, draws: Draws)
    : Outcome<SubmissionResult>
  {
    SubmitDecision(cfg, req, now, draws, SubmitQueriesOf(cfg, t, req, now, draws))
  }

  /** A submission that adds a command, rather than failing or finding a duplicate. */
  predicate Admitted(reply: Outcome<SubmissionResult>) {
    reply.Ok? && reply.value.duplicateOf.None?
  }

  // Use cases that rewrite one row.

  function CancelDecision(row: Option<Command>, now: Time): Outcome<Command> {
    if row.None? then Err(NotFound)
    else if !row.value.IsWaiting() then Err(CancelNotAllowed)
    else Ok(row.value.(status := Canceled, updatedAt := now))
  }

  function OverrideDecision(
    row: Option<Command>, actorRole: string, reason: string, channel: Channel, now: Time): Outcome<Command>
  {
    if actorRole !in {"org_admin", "operations_override"} then Err(OverrideNotAllowed)
    else if Strip(reason) == "" then Err(ValidationError)
    else if row.None? then Err(NotFound)
    else Ok(row.value.(effectiveChannel := channel, overrideReason := Some(reason), updatedAt := now))
  }

  function DispatchDecision(
    inflight: Option<Command>, accepted: Option<Command>, queued: seq<Command>, now: Time): Outcome<Command>
  {
    if inflight.Some? then Err(DispatchNotAllowed)
    else if accepted.None? && queued == [] then Err(NotFound)
    else
      var candidate := if accepted.Some? then accepted.value else queued[0];
      Ok(candidate.(status := Dispatched, dispatchedAt := Some(now), updatedAt := now))
  }

  function DispatchReply(t: Table, p: Point, now: Time): Outcome<Command> {
    DispatchDecision(FindInflightForPoint(t, p), FindAcceptedForPoint(t, p),
                     RowsAt(t, ListQueuedForPoint(t, p)), now)
  }

  function ReconcileDecision(row: Option<Command>, observedMatch: bool, now: Time): Outcome<Command> {
    if row.None? then Err(NotFound)
    else if row.value.status != Dispatched then Err(ReconciliationNotAllowed)
    else
      Ok(row.value.(
        status := if observedMatch then AppliedConfirmed else Failed,
        completedAt := Some(now),
        resultReason := if observedMatch then None else Some(ObservedStateMismatch),
        updatedAt := now))
  }

  /** The table after a use case that writes the row it replies with. */
  function Written(t: Table, reply: Outcome<Command>): Table {
    if reply.Ok? then Put(t, reply.value) else t
  }

  // Deadline checks.

  predicate IsOverdue(c: Command, now: Time) {
    c.IsPending() && c.reconciliationDeadlineAt < now
  }

  function Breached(c: Command, now: Time): Command {
    c.(status := Failed,
       completedAt := Some(now),
       resultReason := Some(ReconciliationSlaBreach),
       updatedAt := now)
  }

  function SlaIncident(c: Command, now: Time, eventId: Id): Incident {
    Incident(eventId, c.commandId, c.organizationId, c.siteId,
             IncidentPayload(c.reconciliationDeadlineAt, now, c.payload),
             0, now, None, None, now)
  }

  function BreachResult(c: Command, now: Time): SlaCheckResult {
    SlaCheckResult(true, Breached(c, now), c.IsSafety(), c.IsSafety())
  }

  function SlaDecision(row: Option<Command>, now: Time): Outcome<SlaCheckResult> {
    if row.None? then Err(NotFound)
    else if !IsOverdue(row.value, now) then Ok(SlaCheckResult(false, row.value, false, false))
    else Ok(BreachResult(row.value, now))
  }

  // Reissue: a read, then a submission of what was read.

  function ReissueDecision(row: Option<Command>, actorRole: string, reason: string): Outcome<SubmitRequest> {
    if actorRole !in {"org_admin", "site_admin", "operations_override"} then Err(OverrideNotAllowed)
    else if Strip(reason) == "" then Err(ValidationError)
    else if row.None? then Err(NotFound)
    else if row.value.status !in {Failed, Canceled} then Err(ValidationError)
    else
      var c := row.value;
      Ok(SubmitRequest(c.organizationId, c.PointOf(), c.commandClass,
                       c.payload.(reissueReason := Some(reason)), None, None, Some(c.commandId)))
  }

  /** Python's str.strip. */
  function Strip(s: string): string {
    StripRight(StripLeft(s))
  }

  function StripLeft(s: string): string {
    if s != "" && IsSpace(s[0]) then StripLeft(s[1..]) else s
  }

  function StripRight(s: string): string {
    if s != "" && IsSpace(s[|s| - 1]) then StripRight(s[..|s| - 1]) else s
  }

  /** The characters that Python's str.strip removes. */
  predicate IsSpace(c: char) {
    || '\U{9}' <= c <= '\U{D}' || '\U{1C}' <= c <= '\U{20}' || c == '\U{85}' || c == '\U{A0}'
    || c == '\U{1680}' || '\U{2000}' <= c <= '\U{200A}' || c == '\U{2028}' || c == '\U{2029}'
    || c == '\U{202F}' || c == '\U{205F}' || c == '\U{3000}'
  }
}
