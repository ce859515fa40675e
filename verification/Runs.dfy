/**
The router as a state machine: one step per use case call, and runs of many steps. Each call is
atomic. The random ids a call draws are parameters of its step; a valid step draws fresh ones.
*/
module Runs {
  import opened Entities
  import opened CommandTable
  import opened UseCases
  import opened Pipeline

  datatype Step =
    | Submit(req: SubmitRequest, now: Time, draws: Draws)
    | Cancel(commandId: Id, now: Time)
    | Override(commandId: Id, actorRole: string, reason: string, channel: Channel, now: Time)
    | Dispatch(point: Point, now: Time)
    | Reconcile(commandId: Id, observedMatch: bool, now: Time)
    | CheckSla(commandId: Id, now: Time, eventId: Id)
    | EvaluateSla(limit: nat, now: Time, owner: Id, eventIds: seq<Id>)
    | DeliverIncidents(limit: nat, now: Time, owner: Id)
    | AcquireLease(name: string, owner: Id, now: Time, ttlSeconds: int)
    | ReleaseLease(name: string, owner: Id, now: Time)

  function RowReply(s: Store, step: Step): Outcome<Command>
    requires step.Cancel? || step.Override? || step.Dispatch? || step.Reconcile?
  {
    match step
    case Cancel(id, now) => CancelDecision(Get(s.commands, id), now)
    case Override(id, role, reason, channel, now) => OverrideDecision(Get(s.commands, id), role, reason, channel, now)
    case Dispatch(p, now) => DispatchReply(s.commands, p, now)
    case Reconcile(id, observedMatch, now) => ReconcileDecision(Get(s.commands, id), observedMatch, now)
  }

  ghost predicate FreshEvents(s: Store, eventIds: seq<Id>) {
    && (forall k, l :: 0 <= k < |s.incidents| && 0 <= l < |eventIds| ==> s.incidents[k].eventId != eventIds[l])
    && (forall k, l :: 0 <= k < l < |eventIds| ==> eventIds[k] != eventIds[l])
  }

  /** The ids the step draws are new. */
  ghost predicate ValidStep(s: Store, step: Step) {
    match step
    case Submit(_, _, draws) => Find(s.commands, draws.commandId).None?
    case CheckSla(_, _, eventId) => FreshEvents(s, [eventId])
    case EvaluateSla(limit, _, _, eventIds) => limit <= |eventIds| && FreshEvents(s, eventIds)
    case _ => true
  }

  function Next(cfg: Settings, s: Store, step: Step): Store {
    match step
    case Submit(req, now, draws) =>
      var reply := SubmitReply(cfg, s.commands, req, now, draws);
      if Admitted(reply) then s.(commands := Put(s.commands, reply.value.command)) else s
    case CheckSla(id, now, eventId) => SlaChecked(s, id, now, eventId)
    case EvaluateSla(limit, now, owner, eventIds) =>
      if limit <= |eventIds| then SlaBatch(cfg, s, limit, now, owner, eventIds) else s
    case DeliverIncidents(limit, now, owner) => DeliveryBatch(cfg, s, limit, now, owner)
    case AcquireLease(name, owner, now, ttl) => s.(leases := Acquired(s.leases, name, owner, now, ttl))
    case ReleaseLease(name, owner, _) => s.(leases := Released(s.leases, name, owner))
    case _ => s.(commands := Written(s.commands, RowReply(s, step)))
  }

  /** A record of calls: the store before each step, and after the last. */
  datatype Run = Run(states: seq<Store>, steps: seq<Step>)

  /** The k-th step was a valid one, and led where the record says. */
  ghost predicate Takes(cfg: Settings, r: Run, k: nat) {
    && k < |r.steps| && k + 1 < |r.states|
    && ValidStep(r.states[k], r.steps[k])
    && r.states[k + 1] == Next(cfg, r.states[k], r.steps[k])
  }

  ghost predicate IsRun(cfg: Settings, r: Run) {
    && |r.states| == |r.steps| + 1
    && forall k :: 0 <= k < |r.steps| ==> Takes(cfg, r, k)
  }

  /** A run of the router from its start. Its states are the reachable ones. */
  ghost predicate FromEmpty(cfg: Settings, r: Run) {
    IsRun(cfg, r) && r.states[0] == EMPTY
  }

  /** Any valid step goes on from where a run has come to, so calls can follow in any order. */
  lemma RunExtends(cfg: Settings, r: Run, step: Step)
    requires FromEmpty(cfg, r) && ValidStep(r.states[|r.steps|], step)
    ensures FromEmpty(cfg, Run(r.states + [Next(cfg, r.states[|r.steps|], step)], r.steps + [step]))
  {
    hide Next, ValidStep;
    var longer := Run(r.states + [Next(cfg, r.states[|r.steps|], step)], r.steps + [step]);
    forall k | 0 <= k < |longer.steps| ensures Takes(cfg, longer, k) {
      if k < |r.steps| {
        assert Takes(cfg, r, k);
      }
    }
  }
}
