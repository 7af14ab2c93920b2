/** The same events over a JetStream durable consumer: the broker redelivers a message whose
    acknowledgement deadline passes, and the delivery number comes with the message. JetStream
    is taken as documented, with no delivery limit of its own; any acknowledgement form acts
    on a message that is still outstanding. */
module JetStreamEvents {
  import opened Wrappers
  import opened Delivery
  import opened Protocol

  /** A payload has a size in bytes and decodes to an envelope or does not. */
  datatype Payload = Payload(size: nat, decoded: Option<Envelope>)

  datatype Config = Config(policy: Policy, maxEventBytes: nat, concurrency: nat, ackWait: nat, retryDelay: nat)

  datatype AckKind = Ack | Term | Nak

  datatype Stage = Decoding | Handling | DeadLettering | Settling(kind: AckKind)

  /** `touched` is when this task last reached the broker: at its delivery or with a progress message. */
  datatype Task = Task(replica: Replica, stage: Stage, touched: nat)

  /** One message: its delivery count, whether it has been settled, when it may be delivered
      again, its dead letters, what handlers did, and the live tasks under their delivery
      number, which is also the attempt they report. */
  datatype Slot = Slot(payload: Payload, deliveries: nat, settled: bool, dueAt: nat, deadLetters: seq<nat>,
                       succeeded: bool, rejected: bool, invocations: seq<nat>, tasks: map<nat, Task>)

  datatype State = State(slots: seq<Slot>, now: nat)

  function NewSlot(payload: Payload): Slot {
    Slot(payload, 0, false, 0, [], false, false, [], map[])
  }

  predicate Handled(c: Config, p: Payload) { ReadableEvent(p.size, p.decoded, c.maxEventBytes) }

  /** The stage after a handler result. */
  function Settle(policy: Policy, attempt: nat, outcome: Outcome): Stage {
    match outcome
    case Success => Settling(Ack)
    case ClientError => Settling(Term)
    case ServerError =>
      if attempt < policy.maxDeliveries then Settling(Nak)
      else if policy.deadLetter then DeadLettering
      else Settling(Term)
  }

  datatype Action =
    | Deliver(replica: Replica, lost: bool)
    | Decode(task: nat)
    | Progress(task: nat)
    | Finish(task: nat, outcome: Outcome)
    | PublishDeadLetter(task: nat, confirmed: bool, applied: bool)
    | Acknowledge(task: nat)
    | Fail(task: nat, applied: bool)
    | Crash(replica: Replica)
    | Rest

  predicate Possible(c: Config, slot: Slot, action: Action, now: nat) {
    match action
    case Deliver(_, _) => !slot.settled && now >= slot.dueAt
    case Decode(t) => t in slot.tasks && slot.tasks[t].stage.Decoding?
    case Progress(t) => t in slot.tasks && slot.tasks[t].stage.Handling?
    case Finish(t, _) => t in slot.tasks && slot.tasks[t].stage.Handling?
    case PublishDeadLetter(t, confirmed, applied) =>
      t in slot.tasks && slot.tasks[t].stage.DeadLettering? && (confirmed ==> applied)
    case Acknowledge(t) => t in slot.tasks && slot.tasks[t].stage.Settling?
    case Fail(t, _) => t in slot.tasks && (slot.tasks[t].stage.Handling? || slot.tasks[t].stage.Settling?)
    case Crash(_) => true
    case Rest => true
  }

  function Move(slot: Slot, t: nat, stage: Stage): Slot
    requires t in slot.tasks
  {
    slot.(tasks := slot.tasks[t := slot.tasks[t].(stage := stage)])
  }

  /** An acknowledgement reaching the broker. */
  function Acknowledged(c: Config, slot: Slot, kind: AckKind, now: nat): Slot {
    if slot.settled then slot
    else if kind.Nak? then slot.(dueAt := now + c.retryDelay)
    else slot.(settled := true)
  }

  function Act(c: Config, slot: Slot, action: Action, now: nat): Slot
    requires Possible(c, slot, action, now)
  {
    match action
    case Deliver(replica, lost) =>
      var n := slot.deliveries + 1;
      slot.(deliveries := n, dueAt := now + c.ackWait,
            tasks := if lost then slot.tasks else slot.tasks[n := Task(replica, Decoding, now)])
    case Decode(t) =>
      if Handled(c, slot.payload) then Move(slot, t, Handling).(invocations := slot.invocations + [t])
      else Move(slot, t, Settling(Term))
    case Progress(t) =>
      slot.(dueAt := if slot.settled then slot.dueAt else now + c.ackWait,
            tasks := slot.tasks[t := slot.tasks[t].(touched := now)])
    case Finish(t, outcome) =>
      Move(slot, t, Settle(c.policy, t, outcome)).(succeeded := slot.succeeded || outcome.Success?,
                                                   rejected := slot.rejected || outcome.ClientError?)
    case PublishDeadLetter(t, confirmed, applied) =>
      Move(slot, t, Settling(if confirmed then Term else Nak))
        .(deadLetters := if applied then slot.deadLetters + [t] else slot.deadLetters)
    case Acknowledge(t) =>
      Acknowledged(c, slot, slot.tasks[t].stage.kind, now).(tasks := slot.tasks - {t})
    case Fail(t, applied) =>
      var gone := slot.(tasks := slot.tasks - {t});
      if !applied then gone
      else if slot.tasks[t].stage.Settling? then Acknowledged(c, gone, slot.tasks[t].stage.kind, now)
      else if slot.settled then gone
      else gone.(dueAt := now + c.ackWait)
    case Crash(r) => slot.(tasks := map t | t in slot.tasks && slot.tasks[t].replica != r :: slot.tasks[t])
    case Rest => slot
  }

  // ---- The whole system ---------------------------------------------------

  datatype Step =
    | Publish(payload: Payload)
    | At(id: nat, action: Action)
    | CrashReplica(replica: Replica)
    | Elapse(nanos: nat)

  ghost function InFlight(slots: seq<Slot>, replica: Replica): nat {
    |set i, t | 0 <= i < |slots| && t in slots[i].tasks && slots[i].tasks[t].replica == replica :: (i, t)|
  }

  function Part(step: Step, i: nat): Action {
    match step
    case At(id, action) => if i == id then action else Rest
    case CrashReplica(r) => Crash(r)
    case _ => Rest
  }

  ghost predicate Enabled(c: Config, s: State, step: Step) {
    && (forall i :: 0 <= i < |s.slots| ==> Possible(c, s.slots[i], Part(step, i), s.now))
    && match step
       case At(id, action) =>
         && id < |s.slots| && !action.Crash?
         && (action.Deliver? ==> InFlight(s.slots, action.replica) < c.concurrency)
       case _ => true
  }

  ghost function Apply(c: Config, s: State, step: Step): State
    requires Enabled(c, s, step)
  {
    State(seq(|s.slots|, i requires 0 <= i < |s.slots| && Possible(c, s.slots[i], Part(step, i), s.now) =>
                Act(c, s.slots[i], Part(step, i), s.now))
          + (if step.Publish? then [NewSlot(step.payload)] else []),
          if step.Elapse? then s.now + step.nanos else s.now)
  }

  ghost function Exec(c: Config, steps: seq<Step>): Option<State> {
    if steps == [] then Some(State([], 0))
    else
      var n := |steps| - 1;
      match Exec(c, steps[..n])
      case None => None
      case Some(s) => if Enabled(c, s, steps[n]) then Some(Apply(c, s, steps[n])) else None
  }

  // ---- Refinement of at-least-once delivery -------------------------------

  function AbstractEvent(c: Config, slot: Slot): Event {
    Event(Handled(c, slot.payload),
          if slot.deliveries == 0 then Unread else if slot.settled then Settled else Outstanding,
          slot.deliveries, slot.succeeded, slot.rejected, slot.deadLetters != [])
  }

  function Abstract(c: Config, s: State): seq<Event> {
    seq(|s.slots|, i requires 0 <= i < |s.slots| => AbstractEvent(c, s.slots[i]))
  }

  ghost predicate StageHolds(c: Config, slot: Slot, t: nat, stage: Stage) {
    match stage
    case Decoding => true
    case Handling => Handled(c, slot.payload)
    case DeadLettering => Handled(c, slot.payload) && c.policy.deadLetter && t >= c.policy.maxDeliveries
    case Settling(kind) => kind.Nak? || MayForget(c.policy, AbstractEvent(c, slot))
  }

  ghost predicate SlotInv(c: Config, slot: Slot) {
    && (slot.settled ==> slot.deliveries >= 1)
    && forall t <- slot.tasks :: 1 <= t <= slot.deliveries && StageHolds(c, slot, t, slot.tasks[t].stage)
  }

  ghost predicate Inv(c: Config, s: State) {
    forall i :: 0 <= i < |s.slots| ==> SlotInv(c, s.slots[i])
  }

  lemma StageKept(c: Config, slot: Slot, slot': Slot, t: nat, stage: Stage)
    requires slot'.payload == slot.payload
    requires EventStep(c.policy, AbstractEvent(c, slot), AbstractEvent(c, slot'))
    requires StageHolds(c, slot, t, stage)
    ensures StageHolds(c, slot', t, stage)
  {
    if stage.Settling? && !stage.kind.Nak? {
      MayForgetForever(c.policy, AbstractEvent(c, slot), AbstractEvent(c, slot'));
    }
  }

  lemma ActMovesEvent(c: Config, slot: Slot, action: Action, now: nat)
    requires SlotInv(c, slot) && Possible(c, slot, action, now)
    ensures EventStep(c.policy, AbstractEvent(c, slot), AbstractEvent(c, Act(c, slot, action, now)))
  {
    hide Handled;
    if action.Finish? || action.PublishDeadLetter? || action.Acknowledge? || action.Fail? {
      assert StageHolds(c, slot, action.task, slot.tasks[action.task].stage);
    }
  }

  lemma ActKeepsInv(c: Config, slot: Slot, action: Action, now: nat)
    requires SlotInv(c, slot) && Possible(c, slot, action, now)
    ensures SlotInv(c, Act(c, slot, action, now))
  {
    hide Handled, AbstractEvent, EventStep;
    var slot' := Act(c, slot, action, now);
    ActMovesEvent(c, slot, action, now);
    forall t | t in slot'.tasks ensures 1 <= t <= slot'.deliveries && StageHolds(c, slot', t, slot'.tasks[t].stage) {
      if t in slot.tasks && slot'.tasks[t].stage == slot.tasks[t].stage {
        StageKept(c, slot, slot', t, slot.tasks[t].stage);
      } else {
        MovedStageHolds(c, slot, action, now, t);
      }
    }
  }

  lemma MovedStageHolds(c: Config, slot: Slot, action: Action, now: nat, t: nat)
    requires SlotInv(c, slot) && Possible(c, slot, action, now)
    requires var after := Act(c, slot, action, now).tasks;
             t in after && !(t in slot.tasks && after[t].stage == slot.tasks[t].stage)
    ensures var slot' := Act(c, slot, action, now);
            1 <= t <= slot'.deliveries && StageHolds(c, slot', t, slot'.tasks[t].stage)
  {
    hide Handled;
    assert t in slot.tasks ==> StageHolds(c, slot, t, slot.tasks[t].stage);
  }

  lemma StepRefines(c: Config, s: State, step: Step)
    requires Inv(c, s) && Enabled(c, s, step)
    ensures Inv(c, Apply(c, s, step))
    ensures SystemStep(c.policy, Abstract(c, s), Abstract(c, Apply(c, s, step)))
  {
    hide SlotInv, AbstractEvent, InFlight, EventStep, Fresh;
    var s' := Apply(c, s, step);
    forall i | 0 <= i < |s'.slots|
      ensures SlotInv(c, s'.slots[i])
      ensures if i < |s.slots| then EventStep(c.policy, AbstractEvent(c, s.slots[i]), AbstractEvent(c, s'.slots[i]))
              else Fresh(AbstractEvent(c, s'.slots[i]))
    {
      if i < |s.slots| {
        ActKeepsInv(c, s.slots[i], Part(step, i), s.now);
        ActMovesEvent(c, s.slots[i], Part(step, i), s.now);
      } else {
        NewSlotHolds(c, step.payload);
      }
    }
  }

  lemma NewSlotHolds(c: Config, payload: Payload)
    ensures SlotInv(c, NewSlot(payload)) && Fresh(AbstractEvent(c, NewSlot(payload)))
  {
  }

  lemma {:induction false} RunRefines(c: Config, steps: seq<Step>)
    requires Exec(c, steps).Some?
    ensures Inv(c, Exec(c, steps).value)
    ensures Reachable(c.policy, Abstract(c, Exec(c, steps).value))
  {
    if steps == [] {
      ReachableStart(c.policy);
    } else {
      hide Inv, Abstract, Apply, Enabled;
      var n := |steps| - 1;
      RunRefines(c, steps[..n]);
      var s := Exec(c, steps[..n]).value;
      StepRefines(c, s, steps[n]);
      ReachableStep(c.policy, Abstract(c, s), Abstract(c, Apply(c, s, steps[n])));
    }
  }

  /** In every run, a settled event of ours was handled, rejected by a client error, or given
      up after the configured deliveries with its dead letter published. */
  lemma NoJetStreamEventLost(c: Config, steps: seq<Step>, i: nat)
    requires c.policy.maxDeliveries >= 1 && Exec(c, steps).Some? && i < |Exec(c, steps).value.slots|
    requires Handled(c, Exec(c, steps).value.slots[i].payload) && Exec(c, steps).value.slots[i].settled
    ensures var slot := Exec(c, steps).value.slots[i];
            || slot.succeeded
            || slot.rejected
            || (slot.deliveries >= c.policy.maxDeliveries && (c.policy.deadLetter ==> slot.deadLetters != []))
  {
    hide Handled, Exec;
    RunRefines(c, steps);
    var s := Exec(c, steps).value;
    NoEventLost(c.policy, Abstract(c, s));
    assert Abstract(c, s)[i] in Abstract(c, s);
    assert SlotInv(c, s.slots[i]);
  }
}
