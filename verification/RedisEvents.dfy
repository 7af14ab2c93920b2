/** Durable events over one Redis consumer group: replicas read and reclaim stream entries,
    keep them alive with heartbeats, run the handler and settle. Every await is a separate
    step; any of them may fail with its effect applied or not, and replicas may crash.

    The state is kept entry by entry. Redis itself is taken as documented: XREADGROUP records
    a first delivery, XAUTOCLAIM takes entries idle long enough and counts a delivery, XCLAIM
    with IDLE 0 and JUSTID takes over a pending entry without counting, XACK forgets it. */
module RedisEvents {
  import opened Wrappers
  import opened MessageOwners
  import opened Delivery
  import opened Protocol
  import opened RedisPending

  // ---- Data ---------------------------------------------------------------

  /** A stream entry's two fields, either of which a foreign producer may have left out;
      the envelope has a size in bytes and decodes or does not. */
  datatype Entry = Entry(subject: Option<string>, envelope: Option<(nat, Option<Envelope>)>)

  datatype Config = Config(policy: Policy, handlers: seq<Handler>, maxEventBytes: nat,
                           concurrency: nat, retryDelay: nat)

  /** Where a task processing one delivery has got to. */
  datatype Stage =
    | Decoding
    | CountingAttempts
    | Handling(attempt: nat)
    | DeadLettering(attempt: nat)
    | Acknowledging

  /** `touched` is when this task last refreshed its entry at the broker. */
  datatype Task = Task(replica: Replica, stage: Stage, touched: nat)

  /** One entry: its recorded delivery count (kept after it leaves the pending list), its pending
      record, the dead letters written for it, what handlers did, and the live tasks, each
      under the delivery it was spawned for. */
  datatype Slot = Slot(entry: Entry, deliveries: nat, pending: Option<Pending>, deadLetters: seq<nat>,
                       succeeded: bool, rejected: bool, invocations: seq<nat>, tasks: map<nat, Task>)

  /** Entries before the cursor have been delivered to the group. */
  datatype State = State(slots: seq<Slot>, cursor: nat, now: nat)

  function NewSlot(entry: Entry): Slot {
    Slot(entry, 0, None, [], false, false, [], map[])
  }

  // ---- Decisions ----------------------------------------------------------

  /** Entries that fail any of these checks are acknowledged unseen. */
  predicate Handled(c: Config, e: Entry) {
    && e.subject.Some?
    && e.envelope.Some?
    && ReadableEvent(e.envelope.value.0, e.envelope.value.1, c.maxEventBytes)
    && FirstMatch(c.handlers, e.subject.value).Some?
  }

  /** The attempt XPENDING answers with: one for an entry no longer pending. */
  function Attempt(slot: Slot): nat {
    if slot.pending.Some? && slot.deliveries >= 1 then slot.deliveries else 1
  }

  /** The stage after a handler result; `None` leaves the entry pending for a retry. */
  function Settle(policy: Policy, attempt: nat, outcome: Outcome): Option<Stage> {
    if outcome.Success? || outcome.ClientError? then Some(Acknowledging)
    else if attempt >= policy.maxDeliveries then
      Some(if policy.deadLetter then DeadLettering(attempt) else Acknowledging)
    else None
  }

  // ---- One entry's steps --------------------------------------------------

  /** What happens to one entry; tasks are named by their delivery. */
  datatype Action =
    | Deliver(replica: Replica, replyLost: bool)
    | Decode(task: nat)
    | CountAttempts(task: nat)
    | Heartbeat(task: nat)
    | Finish(task: nat, outcome: Outcome)
    | PublishDeadLetter(task: nat)
    | Acknowledge(task: nat)
    | Fail(task: nat, applied: bool)
    | Crash(replica: Replica)
    | Rest

  /** An entry is read once, and afterwards only reclaimed while it is pending and idle. */
  predicate Possible(c: Config, slot: Slot, action: Action, now: nat) {
    match action
    case Deliver(_, _) =>
      if slot.pending.Some? then Reclaimable(c.retryDelay, slot.pending.value, now) else slot.deliveries == 0
    case Decode(t) => t in slot.tasks && slot.tasks[t].stage.Decoding?
    case CountAttempts(t) => t in slot.tasks && slot.tasks[t].stage.CountingAttempts?
    case Heartbeat(t) => t in slot.tasks && slot.tasks[t].stage.Handling?
    case Finish(t, _) => t in slot.tasks && slot.tasks[t].stage.Handling?
    case PublishDeadLetter(t) => t in slot.tasks && slot.tasks[t].stage.DeadLettering?
    case Acknowledge(t) => t in slot.tasks && slot.tasks[t].stage.Acknowledging?
    case Fail(t, _) => t in slot.tasks && !slot.tasks[t].stage.Decoding?
    case Crash(_) => true
    case Rest => true
  }

  function Move(slot: Slot, t: nat, stage: Stage): Slot
    requires t in slot.tasks
  {
    slot.(tasks := slot.tasks[t := slot.tasks[t].(stage := stage)])
  }

  function Act(c: Config, slot: Slot, action: Action, now: nat): Slot
    requires Possible(c, slot, action, now)
  {
    match action
    case Deliver(replica, lost) =>
      var n := slot.deliveries + 1;
      slot.(deliveries := n, pending := Some(Pending(replica, now)),
            tasks := if lost then slot.tasks else slot.tasks[n := Task(replica, Decoding, now)])
    case Decode(t) =>
      Move(slot, t, if Handled(c, slot.entry) then CountingAttempts else Acknowledging)
    case CountAttempts(t) =>
      var attempt := Attempt(slot);
      Move(slot, t, Handling(attempt)).(invocations := slot.invocations + [attempt])
    case Heartbeat(t) =>
      slot.(pending := Refreshed(slot.pending, slot.tasks[t].replica, now),
            tasks := slot.tasks[t := slot.tasks[t].(touched := now)])
    case Finish(t, outcome) =>
      var seen := slot.(succeeded := slot.succeeded || outcome.Success?,
                        rejected := slot.rejected || outcome.ClientError?);
      (match Settle(c.policy, slot.tasks[t].stage.attempt, outcome)
       case Some(stage) => Move(seen, t, stage)
       case None => seen.(tasks := slot.tasks - {t}))
    case PublishDeadLetter(t) =>
      Move(slot, t, Acknowledging).(deadLetters := slot.deadLetters + [slot.tasks[t].stage.attempt])
    case Acknowledge(t) => slot.(pending := None, tasks := slot.tasks - {t})
    case Fail(t, applied) =>
      // The command this stage was waiting for reports an error, and the task ends.
      var gone := slot.(tasks := slot.tasks - {t});
      if !applied then gone
      else (match slot.tasks[t].stage
            case Handling(_) => gone.(pending := Refreshed(slot.pending, slot.tasks[t].replica, now))
            case DeadLettering(attempt) => gone.(deadLetters := slot.deadLetters + [attempt])
            case Acknowledging => gone.(pending := None)
            case _ => gone)
    case Crash(r) => slot.(tasks := map t | t in slot.tasks && slot.tasks[t].replica != r :: slot.tasks[t])
    case Rest => slot
  }

  // ---- Steps of the whole system ------------------------------------------

  type Step = GroupStep<Entry, Action>

  /** The tasks a replica has in flight, each under its entry and delivery. */
  ghost function Tasks(slots: seq<Slot>, replica: Replica): set<(nat, nat)> {
    set i, t | 0 <= i < |slots| && t in slots[i].tasks && slots[i].tasks[t].replica == replica :: (i, t)
  }

  ghost function InFlight(slots: seq<Slot>, replica: Replica): nat { |Tasks(slots, replica)| }

  /** The action a step means for entry `i`. */
  function Part(s: State, step: Step, i: nat): Action {
    match step
    case Append(_) => Rest
    case Read(r, count, lost) => if s.cursor <= i < s.cursor + count then Deliver(r, lost) else Rest
    case Reclaim(r, ids, lost) => if i in ids then Deliver(r, lost) else Rest
    case At(id, action) => if i == id then action else Rest
    case CrashReplica(r) => Crash(r)
    case Elapse(_) => Rest
  }

  /** Reads and reclaims never ask for more than the replica has room for. */
  ghost predicate Enabled(c: Config, s: State, step: Step) {
    && (forall i :: 0 <= i < |s.slots| ==> Possible(c, s.slots[i], Part(s, step, i), s.now))
    && match step
       case Read(r, count, _) =>
         count >= 1 && s.cursor + count <= |s.slots| && InFlight(s.slots, r) + count <= c.concurrency
       case Reclaim(r, ids, _) =>
         && ids != {} && InFlight(s.slots, r) + |ids| <= c.concurrency
         && forall i <- ids :: i < |s.slots| && s.slots[i].pending.Some?
       case At(id, action) => id < |s.slots| && !action.Deliver? && !action.Crash?
       case _ => true
  }

  ghost function Apply(c: Config, s: State, step: Step): State
    requires Enabled(c, s, step)
  {
    State(seq(|s.slots|, i requires 0 <= i < |s.slots| && Possible(c, s.slots[i], Part(s, step, i), s.now) =>
                Act(c, s.slots[i], Part(s, step, i), s.now))
          + (if step.Append? then [NewSlot(step.entry)] else []),
          if step.Read? then s.cursor + step.count else s.cursor,
          if step.Elapse? then s.now + step.nanos else s.now)
  }

  /** The state after a run, if every step was possible. */
  ghost function Exec(c: Config, steps: seq<Step>): Option<State> {
    if steps == [] then Some(State([], 0, 0))
    else
      var n := |steps| - 1;
      match Exec(c, steps[..n])
      case None => None
      case Some(s) => if Enabled(c, s, steps[n]) then Some(Apply(c, s, steps[n])) else None
  }

  // ---- Refinement of at-least-once delivery -------------------------------

  function AbstractEvent(c: Config, slot: Slot): Delivery.Event {
    Delivery.Event.Event(Handled(c, slot.entry),
                         if slot.deliveries == 0 then Unread else if slot.pending.Some? then Outstanding else Settled,
                         slot.deliveries, slot.succeeded, slot.rejected, slot.deadLetters != [])
  }

  function Abstract(c: Config, s: State): seq<Delivery.Event> {
    seq(|s.slots|, i requires 0 <= i < |s.slots| => AbstractEvent(c, s.slots[i]))
  }

  /** What a task's stage says about its entry. */
  ghost predicate StageHolds(c: Config, slot: Slot, stage: Stage) {
    match stage
    case Decoding => true
    case CountingAttempts => Handled(c, slot.entry)
    case Handling(attempt) => Handled(c, slot.entry) && 1 <= attempt <= slot.deliveries
    case DeadLettering(attempt) =>
      Handled(c, slot.entry) && c.policy.deadLetter && c.policy.maxDeliveries <= attempt <= slot.deliveries
    case Acknowledging => MayForget(c.policy, AbstractEvent(c, slot))
  }

  ghost predicate SlotInv(c: Config, slot: Slot) {
    && (slot.pending.Some? ==> slot.deliveries >= 1)
    && forall t <- slot.tasks :: 1 <= t <= slot.deliveries && StageHolds(c, slot, slot.tasks[t].stage)
  }

  ghost predicate Inv(c: Config, s: State) {
    && s.cursor <= |s.slots|
    && (forall i :: 0 <= i < |s.slots| ==> SlotInv(c, s.slots[i]))
    && (forall i :: 0 <= i < |s.slots| ==> (s.slots[i].deliveries == 0 <==> i >= s.cursor))
  }

  /** A stage's promise survives whatever else happens to the entry. */
  lemma StageKept(c: Config, slot: Slot, slot': Slot, stage: Stage)
    requires slot'.entry == slot.entry && slot.deliveries <= slot'.deliveries
    requires EventStep(c.policy, AbstractEvent(c, slot), AbstractEvent(c, slot'))
    requires StageHolds(c, slot, stage)
    ensures StageHolds(c, slot', stage)
  {
    if stage.Acknowledging? {
      MayForgetForever(c.policy, AbstractEvent(c, slot), AbstractEvent(c, slot'));
    }
  }

  /** Whatever happens to an entry is a step of the abstract machine. */
  lemma ActMovesEvent(c: Config, slot: Slot, action: Action, now: nat)
    requires SlotInv(c, slot) && Possible(c, slot, action, now)
    ensures EventStep(c.policy, AbstractEvent(c, slot), AbstractEvent(c, Act(c, slot, action, now)))
  {
    hide Handled;
    if action.Finish? || action.PublishDeadLetter? || action.Acknowledge? || action.Fail? {
      assert StageHolds(c, slot, slot.tasks[action.task].stage);
    }
  }

  lemma ActKeepsInv(c: Config, slot: Slot, action: Action, now: nat)
    requires SlotInv(c, slot) && Possible(c, slot, action, now)
    ensures SlotInv(c, Act(c, slot, action, now))
  {
    hide Handled, AbstractEvent, EventStep;
    var slot' := Act(c, slot, action, now);
    ActMovesEvent(c, slot, action, now);
    forall t | t in slot'.tasks ensures 1 <= t <= slot'.deliveries && StageHolds(c, slot', slot'.tasks[t].stage) {
      if t in slot.tasks && slot'.tasks[t].stage == slot.tasks[t].stage {
        StageKept(c, slot, slot', slot.tasks[t].stage);
      } else {
        MovedStageHolds(c, slot, action, now, t);
      }
    }
  }

  /** The stage an action moves a task to is justified. */
  lemma MovedStageHolds(c: Config, slot: Slot, action: Action, now: nat, t: nat)
    requires SlotInv(c, slot) && Possible(c, slot, action, now)
    requires var after := Act(c, slot, action, now).tasks;
             t in after && !(t in slot.tasks && after[t].stage == slot.tasks[t].stage)
    ensures var slot' := Act(c, slot, action, now);
            1 <= t <= slot'.deliveries && StageHolds(c, slot', slot'.tasks[t].stage)
  {
    hide Handled;
    assert t in slot.tasks ==> StageHolds(c, slot, slot.tasks[t].stage);
  }

  /** The invariant, step by step, together with the step of the abstract machine. */
  lemma StepRefines(c: Config, s: State, step: Step)
    requires Inv(c, s) && Enabled(c, s, step)
    ensures Inv(c, Apply(c, s, step))
    ensures SystemStep(c.policy, Abstract(c, s), Abstract(c, Apply(c, s, step)))
  {
    hide SlotInv, AbstractEvent, InFlight, EventStep, Fresh;
    var s' := Apply(c, s, step);
    forall i | 0 <= i < |s'.slots|
      ensures SlotInv(c, s'.slots[i])
      ensures if i < |s.slots| then EventStep(c.policy, AbstractEvent(c, s.slots[i]), AbstractEvent(c, s'.slots[i]))
              else Fresh(AbstractEvent(c, s'.slots[i]))
    {
      if i < |s.slots| {
        ActKeepsInv(c, s.slots[i], Part(s, step, i), s.now);
        ActMovesEvent(c, s.slots[i], Part(s, step, i), s.now);
      } else {
        NewSlotHolds(c, step.entry);
      }
    }
    forall i | 0 <= i < |s'.slots| ensures s'.slots[i].deliveries == 0 <==> i >= s'.cursor {
      if i < |s.slots| {
        ActCountsDeliveries(c, s, step, i);
      }
    }
  }

  lemma ActCountsDeliveries(c: Config, s: State, step: Step, i: nat)
    requires Inv(c, s) && Enabled(c, s, step) && i < |s.slots|
    ensures Apply(c, s, step).slots[i].deliveries ==
            s.slots[i].deliveries + if Part(s, step, i).Deliver? then 1 else 0
    ensures Part(s, step, i).Deliver? && !step.Read? ==> s.slots[i].deliveries >= 1
  {
    hide StageHolds, InFlight, Handled, Settle;
    assert SlotInv(c, s.slots[i]);
  }

  lemma NewSlotHolds(c: Config, entry: Entry)
    ensures SlotInv(c, NewSlot(entry)) && Fresh(AbstractEvent(c, NewSlot(entry)))
  {
  }

  lemma {:induction false} RunRefines(c: Config, steps: seq<Step>)
    requires Exec(c, steps).Some?
    ensures Inv(c, Exec(c, steps).value)
    ensures Reachable(c.policy, Abstract(c, Exec(c, steps).value))
  {
    if steps == [] {
      ReachableStart(c.policy);
    } else {
      hide Inv, Abstract, Apply, Enabled;
      var n := |steps| - 1;
      RunRefines(c, steps[..n]);
      var s := Exec(c, steps[..n]).value;
      StepRefines(c, s, steps[n]);
      ReachableStep(c.policy, Abstract(c, s), Abstract(c, Apply(c, s, steps[n])));
    }
  }

  /** In every run, whatever crashes and fails, an appended event that some handler takes is
      undelivered, pending, handled, rejected by a client error, or was given up after the
      configured deliveries with its dead letter written. */
  lemma NoRedisEventLost(c: Config, steps: seq<Step>, i: nat)
    requires c.policy.maxDeliveries >= 1 && Exec(c, steps).Some? && i < |Exec(c, steps).value.slots|
    requires Handled(c, Exec(c, steps).value.slots[i].entry)
    ensures var s := Exec(c, steps).value;
            var slot := s.slots[i];
            || i >= s.cursor
            || slot.pending.Some?
            || slot.succeeded
            || slot.rejected
            || (slot.deliveries >= c.policy.maxDeliveries && (c.policy.deadLetter ==> slot.deadLetters != []))
  {
    hide Handled, Exec;
    RunRefines(c, steps);
    var s := Exec(c, steps).value;
    NoEventLost(c.policy, Abstract(c, s));
    assert Abstract(c, s)[i] in Abstract(c, s);
  }
}
