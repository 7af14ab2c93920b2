/** What progress messages buy: sent on time, they keep a message with one handler at a time, and a
    failing event is retried a bounded number of times. */
module JetStreamTiming {
  import opened Wrappers
  import opened Delivery
  import opened Protocol
  import opened JetStreamEvents

  // ---- Exclusion ----------------------------------------------------------

  /** Progress is reported after every half of the acknowledgement wait. */
  function Interval(c: Config): nat { c.ackWait / 2 }

  /** A live task reaches the broker again within a progress interval and `slack`, whatever it is doing. */
  ghost predicate OnTime(c: Config, slack: nat, s: State, step: Step) {
    step.Elapse? ==>
      forall i, t :: 0 <= i < |s.slots| && t in s.slots[i].tasks ==>
        s.now + step.nanos <= s.slots[i].tasks[t].touched + Interval(c) + slack
  }

  ghost predicate SlackFits(c: Config, slack: nat) { Interval(c) + slack < c.ackWait }

  /** A live task works on the latest delivery, whose deadline it keeps ahead of. */
  ghost predicate Holds(c: Config, slack: nat, slot: Slot, t: nat, now: nat)
    requires t in slot.tasks
  {
    && t == slot.deliveries
    && (!slot.settled ==> slot.tasks[t].touched + c.ackWait <= slot.dueAt)
    && now <= slot.tasks[t].touched + Interval(c) + slack
  }

  ghost predicate Exclusive(c: Config, slack: nat, slot: Slot, now: nat) {
    && SlotInv(c, slot)
    && (forall t <- slot.tasks :: Holds(c, slack, slot, t, now))
    && Attempts(slot.invocations, slot.deliveries)
    && (forall t <- slot.tasks :: t >= 1 && slot.tasks[t].stage.Decoding? ==> Attempts(slot.invocations, t - 1))
  }

  lemma HeldIsNotDelivered(c: Config, slack: nat, slot: Slot, action: Action, now: nat)
    requires SlackFits(c, slack) && Possible(c, slot, action, now)
    requires forall t <- slot.tasks :: Holds(c, slack, slot, t, now)
    ensures action.Deliver? ==> slot.tasks == map[]
  {
    forall t | t in slot.tasks ensures slot.settled || now < slot.dueAt {
      assert Holds(c, slack, slot, t, now);
    }
  }

  lemma ActExclusive(c: Config, slack: nat, slot: Slot, action: Action, now: nat)
    requires SlackFits(c, slack) && Exclusive(c, slack, slot, now) && Possible(c, slot, action, now)
    ensures Exclusive(c, slack, Act(c, slot, action, now), now)
  {
    hide Handled, MayForget, AbstractEvent, Attempts, SlotInv, SlackFits;
    ActKeepsInv(c, slot, action, now);
    HeldIsNotDelivered(c, slack, slot, action, now);
    match action
    case Deliver(_, _) => AttemptsWithin(slot.invocations, slot.deliveries, slot.deliveries + 1);
    case Decode(t) =>
      assert Holds(c, slack, slot, t, now);
      DeliveredOnce(c, slot, t);
      AttemptReported(slot.invocations, t);
    case Crash(_) =>
    case Rest =>
    case _ => assert Holds(c, slack, slot, action.task, now);
  }

  lemma DeliveredOnce(c: Config, slot: Slot, t: nat)
    requires SlotInv(c, slot) && t in slot.tasks
    ensures t >= 1
  {
  }

  ghost predicate AllExclusive(c: Config, slack: nat, s: State) {
    forall i :: 0 <= i < |s.slots| ==> Exclusive(c, slack, s.slots[i], s.now)
  }

  lemma StepExclusive(c: Config, slack: nat, s: State, step: Step)
    requires SlackFits(c, slack) && AllExclusive(c, slack, s) && Enabled(c, s, step) && OnTime(c, slack, s, step)
    ensures AllExclusive(c, slack, Apply(c, s, step))
  {
    var s' := Apply(c, s, step);
    forall i | 0 <= i < |s'.slots| ensures Exclusive(c, slack, s'.slots[i], s'.now) {
      hide InFlight, SlotInv, SlackFits, Act, Possible;
      if i < |s.slots| {
        ActExclusive(c, slack, s.slots[i], Part(step, i), s.now);
        if step.Elapse? {
          RestKeepsSlot(c, s.slots[i], s.now);
        }
      } else {
        NewSlotHolds(c, step.payload);
      }
    }
  }

  lemma RestKeepsSlot(c: Config, slot: Slot, now: nat)
    ensures Possible(c, slot, Rest, now) && Act(c, slot, Rest, now) == slot
  {
  }

  /** A run in which no step comes late. */
  ghost predicate Timely(c: Config, slack: nat, steps: seq<Step>) {
    steps == [] ||
    (var n := |steps| - 1;
     && Timely(c, slack, steps[..n])
     && (Exec(c, steps[..n]).Some? ==> OnTime(c, slack, Exec(c, steps[..n]).value, steps[n])))
  }

  lemma {:induction false} TimelyRunExclusive(c: Config, slack: nat, steps: seq<Step>)
    requires SlackFits(c, slack) && Exec(c, steps).Some? && Timely(c, slack, steps)
    ensures AllExclusive(c, slack, Exec(c, steps).value)
  {
    if steps != [] {
      hide AllExclusive, Apply, Enabled, OnTime, SlackFits;
      var n := |steps| - 1;
      TimelyRunExclusive(c, slack, steps[..n]);
      StepExclusive(c, slack, Exec(c, steps[..n]).value, steps[n]);
    }
  }

  /** In a timely run, whatever else fails or crashes: a message has at most one live task, it is not
      delivered again meanwhile, and each invocation sees a larger attempt number than those before. */
  lemma ProgressExcludes(c: Config, slack: nat, steps: seq<Step>, i: nat)
    requires SlackFits(c, slack) && Exec(c, steps).Some? && Timely(c, slack, steps)
    requires i < |Exec(c, steps).value.slots|
    ensures var s := Exec(c, steps).value;
            var slot := s.slots[i];
            && (forall t, u :: t in slot.tasks && u in slot.tasks ==> t == u)
            && (slot.tasks != map[] ==> slot.settled || s.now < slot.dueAt)
            && Attempts(slot.invocations, slot.deliveries)
  {
    hide Exec, Timely, SlackFits, SlotInv, Attempts;
    TimelyRunExclusive(c, slack, steps);
    var s := Exec(c, steps).value;
    var slot := s.slots[i];
    assert Exclusive(c, slack, slot, s.now);
    if slot.tasks != map[] {
      var t :| t in slot.tasks;
      HeldIsNotDue(c, slack, slot, t, s.now);
    }
  }

  lemma HeldIsNotDue(c: Config, slack: nat, slot: Slot, t: nat, now: nat)
    requires SlackFits(c, slack) && t in slot.tasks && Holds(c, slack, slot, t, now)
    ensures slot.settled || now < slot.dueAt
  {
  }

  // ---- Bounded retries ----------------------------------------------------

  /** No crash, and no broker error or lost message. */
  predicate Undisturbed(step: Step) {
    !step.CrashReplica? && (step.At? ==> Smooth(step.action))
  }

  predicate Smooth(action: Action) {
    && !action.Fail? && !action.Crash?
    && (action.Deliver? ==> !action.lost)
    && (action.PublishDeadLetter? ==> action.confirmed)
  }

  ghost predicate Bounded(p: Policy, slot: Slot) {
    && slot.deliveries <= p.maxDeliveries
    && (!slot.settled && slot.tasks == map[] ==> slot.deliveries < p.maxDeliveries)
    && forall t <- slot.tasks :: slot.tasks[t].stage == Settling(Nak) ==> t < p.maxDeliveries
  }

  lemma ActBounded(c: Config, slack: nat, slot: Slot, action: Action, now: nat)
    requires SlackFits(c, slack) && Exclusive(c, slack, slot, now) && Possible(c, slot, action, now)
    requires Bounded(c.policy, slot) && Smooth(action)
    ensures Bounded(c.policy, Act(c, slot, action, now))
  {
    hide Handled, StageHolds, Attempts, SlackFits;
    HeldIsNotDelivered(c, slack, slot, action, now);
    match action
    case Deliver(_, _) => assert slot.deliveries + 1 in Act(c, slot, action, now).tasks;
    case Decode(t) => assert t in Act(c, slot, action, now).tasks;
    case Progress(t) => assert t in Act(c, slot, action, now).tasks;
    case Finish(t, _) => assert t in Act(c, slot, action, now).tasks;
    case PublishDeadLetter(t, _, _) => assert t in Act(c, slot, action, now).tasks;
    case Acknowledge(t) => assert Holds(c, slack, slot, t, now);
    case Rest =>
  }

  ghost predicate AllBounded(c: Config, s: State) {
    forall i :: 0 <= i < |s.slots| ==> Bounded(c.policy, s.slots[i])
  }

  lemma StepBounded(c: Config, slack: nat, s: State, step: Step)
    requires SlackFits(c, slack) && c.policy.maxDeliveries >= 1
    requires AllExclusive(c, slack, s) && AllBounded(c, s) && Enabled(c, s, step) && Undisturbed(step)
    ensures AllBounded(c, Apply(c, s, step))
  {
    var s' := Apply(c, s, step);
    forall i | 0 <= i < |s'.slots| ensures Bounded(c.policy, s'.slots[i]) {
      hide InFlight, Exclusive, Bounded, SlackFits, Act, Possible;
      if i < |s.slots| {
        ActBounded(c, slack, s.slots[i], Part(step, i), s.now);
      } else {
        NewSlotBounded(c.policy, step.payload);
      }
    }
  }

  lemma NewSlotBounded(p: Policy, payload: Payload)
    requires p.maxDeliveries >= 1
    ensures Bounded(p, NewSlot(payload))
  {
  }

  lemma {:induction false} SmoothRunBounded(c: Config, slack: nat, steps: seq<Step>)
    requires SlackFits(c, slack) && c.policy.maxDeliveries >= 1
    requires Exec(c, steps).Some? && Timely(c, slack, steps) && forall step <- steps :: Undisturbed(step)
    ensures AllBounded(c, Exec(c, steps).value)
  {
    if steps != [] {
      hide AllBounded, Apply, Enabled, SlackFits, Undisturbed, AllExclusive;
      var n := |steps| - 1;
      assert steps[n] in steps;
      TimelyRunExclusive(c, slack, steps[..n]);
      SmoothRunBounded(c, slack, steps[..n]);
      StepBounded(c, slack, Exec(c, steps[..n]).value, steps[n]);
    }
  }

  /** In a timely run without crashes or broker errors, a handler that keeps failing is invoked at
      most `maxDeliveries` times per event. */
  lemma FailingHandlerIsBounded(c: Config, slack: nat, steps: seq<Step>, i: nat)
    requires SlackFits(c, slack) && c.policy.maxDeliveries >= 1
    requires Exec(c, steps).Some? && Timely(c, slack, steps) && forall step <- steps :: Undisturbed(step)
    requires i < |Exec(c, steps).value.slots|
    ensures var slot := Exec(c, steps).value.slots[i];
            |slot.invocations| <= slot.deliveries <= c.policy.maxDeliveries
  {
    hide Exec, Timely, SlackFits, SlotInv, Holds, Attempts, Undisturbed;
    TimelyRunExclusive(c, slack, steps);
    SmoothRunBounded(c, slack, steps);
    var s := Exec(c, steps).value;
    assert Exclusive(c, slack, s.slots[i], s.now) && Bounded(c.policy, s.slots[i]);
    AttemptsLength(s.slots[i].invocations, s.slots[i].deliveries);
  }
}
