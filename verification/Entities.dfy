/** The records the router stores and the settings it runs under. */
module Entities {
  import opened Common

  type Id = string

  /** A point on the clock, in microseconds. */
  type Time = int

  const SECOND: Time := 1_000_000

  datatype CommandClass = SafetyCritical | InteractiveControl | RoutineAutomation | BulkNonCritical

  datatype CommandStatus = Accepted | Queued | Dispatched | Canceled | Failed | AppliedConfirmed

  datatype Channel = Api | Mqtt

  /** "observed_state_mismatch" and "reconciliation_sla_breach". */
  datatype ResultReason = ObservedStateMismatch | ReconciliationSlaBreach

  /** A command payload: the two entries the router itself reads or writes, and the rest unread. */
  datatype Payload = Payload(
    simulateDeliveryFailure: bool,
    reissueReason: Option<string>,
    content: string)

  /** A physical point on a site: the unit of queueing. */
  datatype Point = Point(siteId: string, pointId: string)

  datatype Command = Command(
    commandId: Id,
    organizationId: string,
    siteId: string,
    pointId: string,
    commandClass: CommandClass,
    status: CommandStatus,
    requestedChannel: Channel,
    effectiveChannel: Channel,
    idempotencyKey: string,
    correlationId: string,
    payload: Payload,
    parentCommandId: Option<Id>,
    queuePriority: int,
    queueSeq: int,
    overrideReason: Option<string>,
    reconciliationDeadlineAt: Time,
    dispatchedAt: Option<Time>,
    completedAt: Option<Time>,
    resultReason: Option<ResultReason>,
    createdAt: Time,
    updatedAt: Time)
  {
    function PointOf(): Point { Point(siteId, pointId) }

    predicate IsSafety() { commandClass == SafetyCritical }

    /** Counts against the depth limit, and can still breach its deadline. */
    predicate IsPending() { status in {Accepted, Queued, Dispatched} }

    predicate IsTerminal() { !IsPending() }

    /** Waiting for dispatch. */
    predicate IsWaiting() { status in {Accepted, Queued} }
  }

  datatype IncidentPayload = IncidentPayload(deadline: Time, checkedAt: Time, commandPayload: Payload)

  /** Severity, reason and the manual action flag are the same on every event and are left out. */
  datatype Incident = Incident(
    eventId: Id,
    commandId: Id,
    organizationId: string,
    siteId: string,
    payload: IncidentPayload,
    attemptCount: nat,
    nextAttemptAt: Time,
    deliveredAt: Option<Time>,
    lastError: Option<string>,
    createdAt: Time)

  datatype Lease = Lease(ownerId: Id, expiresAt: Time)

  datatype ClassPolicy = ClassPolicy(primaryChannel: Channel, reconciliationSlaSeconds: nat)

  /** The columns of the policy matrix that the use cases read. */
  function PolicyOf(c: CommandClass): ClassPolicy {
    match c
    case SafetyCritical => ClassPolicy(Api, 60)
    case InteractiveControl => ClassPolicy(Api, 60)
    case RoutineAutomation => ClassPolicy(Api, 300)
    case BulkNonCritical => ClassPolicy(Api, 1800)
  }

  datatype SettingsRecord = SettingsRecord(
    queueMaxDepthPerPoint: int,
    queueRetryAfterSeconds: int,
    idempotencyWindowSeconds: int,
    correlationWindowSeconds: int,
    slaDeadlineOffsetSeconds: int,
    slaBatchLockTtlSeconds: int,
    incidentDeliveryLockTtlSeconds: int,
    incidentDeliveryBackoffBaseSeconds: int,
    incidentDeliveryBackoffMaxSeconds: int)
  {
    /** The ranges the settings loader enforces. */
    predicate InRange() {
      && queueMaxDepthPerPoint >= 1
      && queueRetryAfterSeconds >= 1
      && idempotencyWindowSeconds >= 60
      && correlationWindowSeconds >= 60
      && slaBatchLockTtlSeconds >= 1
      && incidentDeliveryLockTtlSeconds >= 1
      && incidentDeliveryBackoffBaseSeconds >= 1
      && incidentDeliveryBackoffMaxSeconds >= 1
    }

    function IdempotencyWindow(): Time { idempotencyWindowSeconds * SECOND }

    function CorrelationWindow(): Time { correlationWindowSeconds * SECOND }
  }

  type Settings = s: SettingsRecord | s.InRange()
    witness SettingsRecord(5, 30, 3600, 86400, 0, 30, 30, 10, 300)

  datatype SubmissionResult = SubmissionResult(
    command: Command,
    duplicateOf: Option<Id>,
    generatedIdempotencyKey: Option<string>,
    generatedCorrelationId: Option<string>)

  datatype SlaCheckResult = SlaCheckResult(
    breached: bool,
    command: Command,
    alertRequired: bool,
    manualActionRequired: bool)

  datatype SlaBatchResult = SlaBatchResult(lockAcquired: bool, items: seq<SlaCheckResult>)

  datatype DeliveryBatchResult = DeliveryBatchResult(
    lockAcquired: bool,
    deliveredCount: nat,
    failedCount: nat)

  datatype Error =
    | ValidationError
    | CorrelationConflict(correlationId: string, existingCommandId: Id)
    | QueueOverflow(queueDepth: nat, retryAfterSeconds: int)
    | NotFound
    | CancelNotAllowed
    | OverrideNotAllowed
    | DispatchNotAllowed
    | ReconciliationNotAllowed

  type Outcome<+T> = Result<T, Error>
}
