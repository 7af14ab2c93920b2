/** What heartbeats buy: with ticks and settlement on time, one delivery at a time is handled,
    attempts only go up, and a failing event is retried a bounded number of times. */
module RedisTiming {
  import opened Wrappers
  import opened Delivery
  import opened Protocol
  import opened RedisPending
  import opened RedisEvents

  // ---- Exclusion ----------------------------------------------------------

  /** A live task reaches the broker again within a heartbeat period and `slack` of its last
      refresh, whatever it is doing. */
  ghost predicate OnTime(c: Config, slack: nat, s: State, step: Step) {
    step.Elapse? ==>
      forall i, t :: 0 <= i < |s.slots| && t in s.slots[i].tasks ==>
        s.now + step.nanos <= s.slots[i].tasks[t].touched + Interval(c.retryDelay) + slack
  }

  /** A live task works on the latest delivery, owns the pending record, and is on time. */
  ghost predicate Holds(c: Config, slack: nat, slot: Slot, t: nat, now: nat)
    requires t in slot.tasks
  {
    && t == slot.deliveries
    && slot.pending.Some?
    && slot.pending.value.owner == slot.tasks[t].replica
    && slot.tasks[t].touched <= slot.pending.value.touched
    && now <= slot.tasks[t].touched + Interval(c.retryDelay) + slack
    && (slot.tasks[t].stage.Handling? ==> slot.tasks[t].stage.attempt == t)
    && (slot.tasks[t].stage.DeadLettering? ==> slot.tasks[t].stage.attempt == t)
  }

  ghost predicate Exclusive(c: Config, slack: nat, slot: Slot, now: nat) {
    && SlotInv(c, slot)
    && (forall t <- slot.tasks :: Holds(c, slack, slot, t, now))
    && Attempts(slot.invocations, slot.deliveries)
    && (forall t <- slot.tasks :: t >= 1 && (slot.tasks[t].stage.Decoding? || slot.tasks[t].stage.CountingAttempts?) ==>
          Attempts(slot.invocations, t - 1))
  }

  lemma HeldIsNotReclaimable(c: Config, slack: nat, slot: Slot, t: nat, now: nat)
    requires SlackFits(c.retryDelay, slack) && t in slot.tasks && Holds(c, slack, slot, t, now)
    ensures !Reclaimable(c.retryDelay, slot.pending.value, now)
  {
    RefreshedIsNotReclaimable(c.retryDelay, slack, slot.pending.value, slot.tasks[t].touched, now);
  }

  lemma ActExclusive(c: Config, slack: nat, slot: Slot, action: Action, now: nat)
    requires SlackFits(c.retryDelay, slack) && Exclusive(c, slack, slot, now) && Possible(c, slot, action, now)
    ensures Exclusive(c, slack, Act(c, slot, action, now), now)
  {
    hide Handled, MayForget, AbstractEvent, SlackFits, Reclaimable, Attempts, SlotInv;
    ActKeepsInv(c, slot, action, now);
    OnceDelivered(c, slot);
    match action
    case Deliver(_, _) =>
      forall t | t in slot.tasks ensures false {
        HeldIsNotReclaimable(c, slack, slot, t, now);
      }
      AttemptsWithin(slot.invocations, slot.deliveries, slot.deliveries + 1);
    case CountAttempts(t) =>
      forall u | u in slot.tasks ensures u == t {
        assert Holds(c, slack, slot, u, now) && Holds(c, slack, slot, t, now);
      }
      assert Attempt(slot) == t;
      AttemptReported(slot.invocations, t);
    case _ =>
  }

  lemma OnceDelivered(c: Config, slot: Slot)
    requires SlotInv(c, slot)
    ensures slot.pending.Some? ==> slot.deliveries >= 1
  {
  }

  ghost predicate AllExclusive(c: Config, slack: nat, s: State) {
    forall i :: 0 <= i < |s.slots| ==> Exclusive(c, slack, s.slots[i], s.now)
  }

  lemma StepExclusive(c: Config, slack: nat, s: State, step: Step)
    requires SlackFits(c.retryDelay, slack) && AllExclusive(c, slack, s)
    requires Enabled(c, s, step) && OnTime(c, slack, s, step)
    ensures AllExclusive(c, slack, Apply(c, s, step))
  {
    var s' := Apply(c, s, step);
    forall i | 0 <= i < |s'.slots| ensures Exclusive(c, slack, s'.slots[i], s'.now) {
      hide InFlight, SlotInv, SlackFits, Act, Possible;
      if i < |s.slots| {
        ActExclusive(c, slack, s.slots[i], Part(s, step, i), s.now);
        if step.Elapse? {
          RestKeepsSlot(c, s.slots[i], s.now);
        }
      } else {
        NewSlotHolds(c, step.entry);
      }
    }
  }

  lemma RestKeepsSlot(c: Config, slot: Slot, now: nat)
    ensures Possible(c, slot, Rest, now) && Act(c, slot, Rest, now) == slot
  {
  }

  /** A run in which no step comes late. */
  ghost predicate Timely(c: Config, slack: nat, steps: seq<Step>) {
    steps == [] ||
    (var n := |steps| - 1;
     && Timely(c, slack, steps[..n])
     && (Exec(c, steps[..n]).Some? ==> OnTime(c, slack, Exec(c, steps[..n]).value, steps[n])))
  }

  lemma {:induction false} TimelyRunExclusive(c: Config, slack: nat, steps: seq<Step>)
    requires SlackFits(c.retryDelay, slack) && Exec(c, steps).Some? && Timely(c, slack, steps)
    ensures AllExclusive(c, slack, Exec(c, steps).value)
  {
    if steps != [] {
      hide AllExclusive, Apply, Enabled, OnTime, SlackFits;
      var n := |steps| - 1;
      TimelyRunExclusive(c, slack, steps[..n]);
      StepExclusive(c, slack, Exec(c, steps[..n]).value, steps[n]);
    }
  }

  /** In a timely run, whatever else fails or crashes: an entry has at most one live task, no
      replica can reclaim it meanwhile, and each invocation sees a larger attempt number than
      the ones before it. */
  lemma HeartbeatsExclude(c: Config, slack: nat, steps: seq<Step>, i: nat)
    requires SlackFits(c.retryDelay, slack) && Exec(c, steps).Some? && Timely(c, slack, steps)
    requires i < |Exec(c, steps).value.slots|
    ensures var s := Exec(c, steps).value;
            var slot := s.slots[i];
            && (forall t, u :: t in slot.tasks && u in slot.tasks ==> t == u)
            && (slot.tasks != map[] ==> slot.pending.Some? && !Reclaimable(c.retryDelay, slot.pending.value, s.now))
            && Attempts(slot.invocations, slot.deliveries)
            && forall t <- slot.tasks ::
                 slot.tasks[t].stage.Handling? ==> slot.tasks[t].stage.attempt == slot.deliveries
  {
    hide Exec, Timely, SlackFits, Reclaimable;
    TimelyRunExclusive(c, slack, steps);
    var s := Exec(c, steps).value;
    var slot := s.slots[i];
    assert Exclusive(c, slack, slot, s.now);
    if slot.tasks != map[] {
      var t :| t in slot.tasks;
      HeldIsNotReclaimable(c, slack, slot, t, s.now);
    }
  }

  // ---- Bounded retries ----------------------------------------------------

  /** No crash, and no broker error or lost reply. */
  predicate Undisturbed(step: Step) {
    match step
    case Read(_, _, lost) => !lost
    case Reclaim(_, _, lost) => !lost
    case At(_, action) => !action.Fail?
    case CrashReplica(_) => false
    case _ => true
  }

  predicate Smooth(action: Action) {
    !action.Fail? && !action.Crash? && (action.Deliver? ==> !action.replyLost)
  }

  /** While nothing goes wrong at the broker, an entry is only left for a retry below the
      delivery limit, and its dead letter is the last thing before it is acknowledged. */
  ghost predicate Bounded(p: Policy, slot: Slot) {
    && slot.deliveries <= p.maxDeliveries
    && (slot.pending.Some? && slot.tasks == map[] ==> slot.deliveries < p.maxDeliveries)
    && |slot.deadLetters| <= 1
    && (slot.deadLetters != [] ==> slot.deliveries >= 1)
    && (slot.deadLetters != [] && slot.pending.Some? ==> slot.tasks != map[])
    && (forall t <- slot.tasks :: slot.deadLetters != [] ==> slot.tasks[t].stage.Acknowledging?)
  }

  lemma ActBounded(c: Config, slack: nat, slot: Slot, action: Action, now: nat)
    requires SlackFits(c.retryDelay, slack) && Exclusive(c, slack, slot, now) && Possible(c, slot, action, now)
    requires Bounded(c.policy, slot) && Smooth(action) && c.policy.maxDeliveries >= 1
    ensures Bounded(c.policy, Act(c, slot, action, now))
  {
    hide Handled, StageHolds, SlackFits, Reclaimable, Attempts;
    match action
    case Deliver(_, _) =>
      forall t | t in slot.tasks ensures false {
        HeldIsNotReclaimable(c, slack, slot, t, now);
      }
      assert slot.tasks == map[];
      assert slot.deliveries + 1 in Act(c, slot, action, now).tasks;
    case Finish(t, _) =>
      assert Holds(c, slack, slot, t, now);
    case PublishDeadLetter(t) =>
      forall u | u in slot.tasks ensures u == t {
        assert Holds(c, slack, slot, u, now) && Holds(c, slack, slot, t, now);
      }
      assert slot.deadLetters == [];
      assert t in Act(c, slot, action, now).tasks;
    case _ =>
  }

  ghost predicate AllBounded(c: Config, s: State) {
    forall i :: 0 <= i < |s.slots| ==> Bounded(c.policy, s.slots[i])
  }

  lemma StepBounded(c: Config, slack: nat, s: State, step: Step)
    requires SlackFits(c.retryDelay, slack) && c.policy.maxDeliveries >= 1
    requires AllExclusive(c, slack, s) && AllBounded(c, s) && Enabled(c, s, step) && Undisturbed(step)
    ensures AllBounded(c, Apply(c, s, step))
  {
    var s' := Apply(c, s, step);
    forall i | 0 <= i < |s'.slots| ensures Bounded(c.policy, s'.slots[i]) {
      hide InFlight, Exclusive, Bounded, SlackFits, Act, Possible;
      if i < |s.slots| {
        ActBounded(c, slack, s.slots[i], Part(s, step, i), s.now);
      } else {
        NewSlotBounded(c.policy, step.entry);
      }
    }
  }

  lemma NewSlotBounded(p: Policy, entry: Entry)
    ensures Bounded(p, NewSlot(entry))
  {
  }

  lemma {:induction false} SmoothRunBounded(c: Config, slack: nat, steps: seq<Step>)
    requires SlackFits(c.retryDelay, slack) && c.policy.maxDeliveries >= 1
    requires Exec(c, steps).Some? && Timely(c, slack, steps) && forall step <- steps :: Undisturbed(step)
    ensures AllBounded(c, Exec(c, steps).value)
  {
    if steps != [] {
      hide AllBounded, Apply, Enabled, SlackFits, Undisturbed, AllExclusive;
      var n := |steps| - 1;
      assert steps[n] in steps;
      TimelyRunExclusive(c, slack, steps[..n]);
      SmoothRunBounded(c, slack, steps[..n]);
      StepBounded(c, slack, Exec(c, steps[..n]).value, steps[n]);
    }
  }

  /** In a timely run without crashes or broker errors, a handler that keeps failing is invoked
      at most `maxDeliveries` times per event, each attempt is counted exactly, and at most one
      dead letter is written. */
  lemma FailingHandlerIsBounded(c: Config, slack: nat, steps: seq<Step>, i: nat)
    requires SlackFits(c.retryDelay, slack) && c.policy.maxDeliveries >= 1
    requires Exec(c, steps).Some? && Timely(c, slack, steps) && forall step <- steps :: Undisturbed(step)
    requires i < |Exec(c, steps).value.slots|
    ensures var slot := Exec(c, steps).value.slots[i];
            && |slot.invocations| <= slot.deliveries <= c.policy.maxDeliveries
            && |slot.deadLetters| <= 1
  {
    hide Exec, Timely, SlackFits, SlotInv, Holds, Attempts;
    TimelyRunExclusive(c, slack, steps);
    SmoothRunBounded(c, slack, steps);
    var s := Exec(c, steps).value;
    assert Exclusive(c, slack, s.slots[i], s.now) && Bounded(c.policy, s.slots[i]);
    AttemptsLength(s.slots[i].invocations, s.slots[i].deliveries);
  }

  // ---- Progress -----------------------------------------------------------

  lemma Extend(c: Config, steps: seq<Step>, step: Step)
    requires Exec(c, steps).Some? && Enabled(c, Exec(c, steps).value, step)
    ensures Exec(c, steps + [step]) == Some(Apply(c, Exec(c, steps).value, step))
  {
    assert (steps + [step])[..|steps|] == steps;
  }

  lemma AtExtends(c: Config, steps: seq<Step>, i: nat, action: Action)
    requires Exec(c, steps).Some? && i < |Exec(c, steps).value.slots|
    requires var s := Exec(c, steps).value; Possible(c, s.slots[i], action, s.now)
    requires !action.Deliver? && !action.Crash?
    ensures var s, s' := Exec(c, steps).value, Exec(c, steps + [At(i, action)]);
            && s'.Some? && |s'.value.slots| == |s.slots| && s'.value.now == s.now
            && s'.value.slots[i] == Act(c, s.slots[i], action, s.now)
  {
    Extend(c, steps, At(i, action));
  }

  /** A task that has just been handed a pending entry can settle it. */
  lemma TaskCanSettle(c: Config, steps: seq<Step>, i: nat, t: nat) returns (run: seq<Step>)
    requires Exec(c, steps).Some? && i < |Exec(c, steps).value.slots|
    requires t in Exec(c, steps).value.slots[i].tasks && Exec(c, steps).value.slots[i].tasks[t].stage.Decoding?
    ensures steps <= run && Exec(c, run).Some? && i < |Exec(c, run).value.slots|
    ensures Exec(c, run).value.slots[i].pending.None?
  {
    hide Exec, Handled;
    AtExtends(c, steps, i, Decode(t));
    run := steps + [At(i, Decode(t))];
    if Handled(c, Exec(c, steps).value.slots[i].entry) {
      AtExtends(c, run, i, CountAttempts(t));
      run := run + [At(i, CountAttempts(t))];
      AtExtends(c, run, i, Finish(t, Success));
      run := run + [At(i, Finish(t, Success))];
    }
    AtExtends(c, run, i, Acknowledge(t));
    run := run + [At(i, Acknowledge(t))];
  }

  /** Whatever has happened, a pending event can still be settled by any replica with room. */
  lemma PendingCanSettle(c: Config, steps: seq<Step>, i: nat, r: Replica) returns (run: seq<Step>)
    requires Exec(c, steps).Some? && i < |Exec(c, steps).value.slots|
    requires Exec(c, steps).value.slots[i].pending.Some?
    requires InFlight(Exec(c, steps).value.slots, r) < c.concurrency
    ensures steps <= run && Exec(c, run).Some? && i < |Exec(c, run).value.slots|
    ensures Exec(c, run).value.slots[i].pending.None?
  {
    hide Exec, InFlight, Handled;
    var s := Exec(c, steps).value;
    var wait := Elapse(s.slots[i].pending.value.touched + c.retryDelay);
    Extend(c, steps, wait);
    run := steps + [wait];
    var waited := Exec(c, run).value;
    assert waited.slots == s.slots;
    assert Reclaimable(c.retryDelay, waited.slots[i].pending.value, waited.now);
    assert |{i}| == 1;
    Extend(c, run, Reclaim(r, {i}, false));
    run := run + [Reclaim(r, {i}, false)];
    run := TaskCanSettle(c, run, i, s.slots[i].deliveries + 1);
  }
}
