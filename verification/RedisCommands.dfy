/** Durable commands over one Redis consumer group: a replica takes an entry, runs the handler,
    publishes one reply and removes the entry. As for events, every await is a separate step
    that may fail with its effect applied or not, and replicas may crash. */
module RedisCommands {
  import opened Wrappers
  import opened Protocol
  import opened RedisPending

  const MAX_CORRELATION := 128
  const MAX_CHANNEL := 256

  // ---- Data ---------------------------------------------------------------

  /** A decoded request; of its identifiers only the lengths matter. */
  datatype Request = Request(version: nat, correlation: nat, channel: Option<nat>, deadlineMillis: Option<nat>)

  /** The envelope field, if there is one: its size, and the request it decodes to. */
  datatype Entry = Entry(envelope: Option<(nat, Option<Request>)>)

  datatype Config = Config(maxRequestBytes: nat, concurrency: nat, recoveryDelay: nat)

  datatype Stage = Decoding | Handling | Replying | Completing

  datatype Task = Task(replica: Replica, stage: Stage, touched: nat)

  datatype ReplyResult = Published | PublishFailed(applied: bool) | Unencodable

  /** One entry: its delivery count, its pending record, how often a handler was started and
      returned, how often it was started although one had returned before, how many replies
      were attempted and published, and the live tasks under their deliveries. */
  datatype Slot = Slot(entry: Entry, deliveries: nat, pending: Option<Pending>, started: nat, returned: nat,
                       reruns: nat, attempted: nat, published: nat, tasks: map<nat, Task>)

  datatype State = State(slots: seq<Slot>, cursor: nat, now: nat)

  function NewSlot(entry: Entry): Slot { Slot(entry, 0, None, 0, 0, 0, 0, 0, map[]) }

  // ---- Decisions ----------------------------------------------------------

  /** Entries nobody could be answered about are removed without a reply. */
  predicate Answerable(c: Config, e: Entry) {
    && e.envelope.Some?
    && e.envelope.value.0 <= c.maxRequestBytes
    && e.envelope.value.1.Some?
    && 1 <= e.envelope.value.1.value.correlation <= MAX_CORRELATION
    && e.envelope.value.1.value.channel.Some?
    && 1 <= e.envelope.value.1.value.channel.value <= MAX_CHANNEL
  }

  /** Others are refused with an error reply when they speak another protocol or come too late. */
  predicate Runnable(c: Config, e: Entry) {
    Answerable(c, e) && e.envelope.value.1.value.version == PROTOCOL_VERSION
  }

  function Deadline(e: Entry): Option<nat> {
    if e.envelope.Some? && e.envelope.value.1.Some? then e.envelope.value.1.value.deadlineMillis else None
  }

  predicate InTime(e: Entry, millis: nat) { Deadline(e).Some? ==> millis < Deadline(e).value }

  function FirstStage(c: Config, e: Entry, now: nat): Stage {
    if !Answerable(c, e) then Completing
    else if Runnable(c, e) && InTime(e, now / NANOS_PER_MILLI) then Handling
    else Replying
  }

  // ---- One entry's steps --------------------------------------------------

  datatype Action =
    | Deliver(replica: Replica, replyLost: bool)
    | Decode(task: nat)
    | Heartbeat(task: nat)
    | Finish(task: nat)
    | Reply(task: nat, result: ReplyResult)
    | Complete(task: nat)
    | Fail(task: nat, applied: bool)
    | Crash(replica: Replica)
    | Rest

  predicate Possible(c: Config, slot: Slot, action: Action, now: nat) {
    match action
    case Deliver(_, _) =>
      if slot.pending.Some? then Reclaimable(c.recoveryDelay, slot.pending.value, now) else slot.deliveries == 0
    case Decode(t) => t in slot.tasks && slot.tasks[t].stage.Decoding?
    case Heartbeat(t) => t in slot.tasks && slot.tasks[t].stage.Handling?
    case Finish(t) => t in slot.tasks && slot.tasks[t].stage.Handling?
    case Reply(t, _) => t in slot.tasks && slot.tasks[t].stage.Replying?
    case Complete(t) => t in slot.tasks && slot.tasks[t].stage.Completing?
    case Fail(t, _) => t in slot.tasks && (slot.tasks[t].stage.Handling? || slot.tasks[t].stage.Completing?)
    case Crash(_) => true
    case Rest => true
  }

  function Move(slot: Slot, t: nat, stage: Stage): Slot
    requires t in slot.tasks
  {
    slot.(tasks := slot.tasks[t := slot.tasks[t].(stage := stage)])
  }

  function Act(c: Config, slot: Slot, action: Action, now: nat): Slot
    requires Possible(c, slot, action, now)
  {
    match action
    case Deliver(replica, lost) =>
      var n := slot.deliveries + 1;
      slot.(deliveries := n, pending := Some(Pending(replica, now)),
            tasks := if lost then slot.tasks else slot.tasks[n := Task(replica, Decoding, now)])
    case Decode(t) =>
      var stage := FirstStage(c, slot.entry, now);
      var moved := Move(slot, t, stage);
      var rerun := if slot.returned > 0 then 1 else 0;
      if stage.Handling? then moved.(started := slot.started + 1, reruns := slot.reruns + rerun) else moved
    case Heartbeat(t) =>
      slot.(pending := Refreshed(slot.pending, slot.tasks[t].replica, now),
            tasks := slot.tasks[t := slot.tasks[t].(touched := now)])
    case Finish(t) => Move(slot, t, Replying).(returned := slot.returned + 1)
    case Reply(t, result) =>
      // Whatever becomes of the reply, the command is completed next.
      var sent := if result.Published? || result == PublishFailed(true) then 1 else 0;
      Move(slot, t, Completing).(attempted := slot.attempted + 1, published := slot.published + sent)
    case Complete(t) => slot.(pending := None, tasks := slot.tasks - {t})
    case Fail(t, applied) =>
      var gone := slot.(tasks := slot.tasks - {t});
      if !applied then gone
      else if slot.tasks[t].stage.Handling? then gone.(pending := Refreshed(slot.pending, slot.tasks[t].replica, now))
      else gone.(pending := None)
    case Crash(r) => slot.(tasks := map t | t in slot.tasks && slot.tasks[t].replica != r :: slot.tasks[t])
    case Rest => slot
  }

  // ---- The whole system ---------------------------------------------------

  type Step = GroupStep<Entry, Action>

  ghost function InFlight(slots: seq<Slot>, replica: Replica): nat {
    |set i, t | 0 <= i < |slots| && t in slots[i].tasks && slots[i].tasks[t].replica == replica :: (i, t)|
  }

  function Part(s: State, step: Step, i: nat): Action {
    match step
    case Append(_) => Rest
    case Read(r, count, lost) => if s.cursor <= i < s.cursor + count then Deliver(r, lost) else Rest
    case Reclaim(r, ids, lost) => if i in ids then Deliver(r, lost) else Rest
    case At(id, action) => if i == id then action else Rest
    case CrashReplica(r) => Crash(r)
    case Elapse(_) => Rest
  }

  ghost predicate Enabled(c: Config, s: State, step: Step) {
    && (forall i :: 0 <= i < |s.slots| ==> Possible(c, s.slots[i], Part(s, step, i), s.now))
    && match step
       case Read(r, count, _) =>
         count >= 1 && s.cursor + count <= |s.slots| && InFlight(s.slots, r) + count <= c.concurrency
       case Reclaim(r, ids, _) =>
         && ids != {} && InFlight(s.slots, r) + |ids| <= c.concurrency
         && forall i <- ids :: i < |s.slots| && s.slots[i].pending.Some?
       case At(id, action) => id < |s.slots| && !action.Deliver? && !action.Crash?
       case _ => true
  }

  ghost function Apply(c: Config, s: State, step: Step): State
    requires Enabled(c, s, step)
  {
    State(seq(|s.slots|, i requires 0 <= i < |s.slots| && Possible(c, s.slots[i], Part(s, step, i), s.now) =>
                Act(c, s.slots[i], Part(s, step, i), s.now))
          + (if step.Append? then [NewSlot(step.entry)] else []),
          if step.Read? then s.cursor + step.count else s.cursor,
          if step.Elapse? then s.now + step.nanos else s.now)
  }

  ghost function Exec(c: Config, steps: seq<Step>): Option<State> {
    if steps == [] then Some(State([], 0, 0))
    else
      var n := |steps| - 1;
      match Exec(c, steps[..n])
      case None => None
      case Some(s) => if Enabled(c, s, steps[n]) then Some(Apply(c, s, steps[n])) else None
  }

  // ---- Every command is answered ------------------------------------------

  /** A removed entry was answered, or could not be; what ran was meant to. */
  ghost predicate Answered(c: Config, slot: Slot) {
    && (slot.returned > 0 ==> slot.deliveries >= 1 && Runnable(c, slot.entry))
    && (slot.deliveries >= 1 && slot.pending.None? ==> !Answerable(c, slot.entry) || slot.attempted >= 1)
    && (slot.pending.Some? ==> slot.deliveries >= 1)
    && slot.published <= slot.attempted
    && forall t <- slot.tasks ::
         && 1 <= t <= slot.deliveries
         && (slot.tasks[t].stage.Completing? ==> !Answerable(c, slot.entry) || slot.attempted >= 1)
         && (slot.tasks[t].stage.Replying? ==> Answerable(c, slot.entry))
         && (slot.tasks[t].stage.Handling? ==> Runnable(c, slot.entry))
  }

  lemma ActAnswered(c: Config, slot: Slot, action: Action, now: nat)
    requires Answered(c, slot) && Possible(c, slot, action, now)
    ensures Answered(c, Act(c, slot, action, now))
  {
    hide InTime;
  }

  ghost predicate Inv(c: Config, s: State) {
    && s.cursor <= |s.slots|
    && (s.cursor > 0 ==> c.concurrency >= 1)
    && (forall i :: 0 <= i < |s.slots| ==> Answered(c, s.slots[i]))
    && (forall i :: 0 <= i < |s.slots| ==> (s.slots[i].deliveries == 0 <==> i >= s.cursor))
  }

  lemma StepKeepsInv(c: Config, s: State, step: Step)
    requires Inv(c, s) && Enabled(c, s, step)
    ensures Inv(c, Apply(c, s, step))
  {
    hide InFlight, Answered;
    var s' := Apply(c, s, step);
    forall i | 0 <= i < |s'.slots|
      ensures Answered(c, s'.slots[i]) && (s'.slots[i].deliveries == 0 <==> i >= s'.cursor)
    {
      if i < |s.slots| {
        ActAnswered(c, s.slots[i], Part(s, step, i), s.now);
        ActDelivers(c, s, step, i);
      } else {
        NewSlotAnswered(c, step.entry);
      }
    }
  }

  lemma ActDelivers(c: Config, s: State, step: Step, i: nat)
    requires Inv(c, s) && Enabled(c, s, step) && i < |s.slots|
    ensures Apply(c, s, step).slots[i].deliveries == s.slots[i].deliveries + if Part(s, step, i).Deliver? then 1 else 0
    ensures Part(s, step, i).Deliver? && !step.Read? ==> s.slots[i].deliveries >= 1
  {
    hide InFlight, Answerable, InTime;
    assert Answered(c, s.slots[i]);
  }

  lemma NewSlotAnswered(c: Config, entry: Entry)
    ensures Answered(c, NewSlot(entry))
  {
  }

  lemma {:induction false} RunKeepsInv(c: Config, steps: seq<Step>)
    requires Exec(c, steps).Some?
    ensures Inv(c, Exec(c, steps).value)
  {
    if steps != [] {
      hide Inv, Apply, Enabled;
      var n := |steps| - 1;
      RunKeepsInv(c, steps[..n]);
      StepKeepsInv(c, Exec(c, steps[..n]).value, steps[n]);
    }
  }

  /** In every run, whatever crashes and fails, a command that can be answered is unread, pending,
      or was removed after a reply to it had been attempted. */
  lemma NoCommandDropped(c: Config, steps: seq<Step>, i: nat)
    requires Exec(c, steps).Some? && i < |Exec(c, steps).value.slots|
    requires Answerable(c, Exec(c, steps).value.slots[i].entry)
    ensures var s := Exec(c, steps).value;
            i >= s.cursor || s.slots[i].pending.Some? || s.slots[i].attempted >= 1
  {
    hide Exec, Answerable;
    RunKeepsInv(c, steps);
    assert Answered(c, Exec(c, steps).value.slots[i]);
  }

  // ---- Time ---------------------------------------------------------------

  ghost predicate OnTime(c: Config, slack: nat, s: State, step: Step) {
    step.Elapse? ==>
      forall i, t :: 0 <= i < |s.slots| && t in s.slots[i].tasks ==>
        s.now + step.nanos <= s.slots[i].tasks[t].touched + Interval(c.recoveryDelay) + slack
  }

  /** A run in which live tasks reach the broker on time. */
  ghost predicate Timely(c: Config, slack: nat, steps: seq<Step>) {
    steps == [] ||
    (var n := |steps| - 1;
     && Timely(c, slack, steps[..n])
     && (Exec(c, steps[..n]).Some? ==> OnTime(c, slack, Exec(c, steps[..n]).value, steps[n])))
  }

  /** A live task works on the latest delivery, holds its record, and is on time. */
  ghost predicate Holds(c: Config, slack: nat, slot: Slot, t: nat, now: nat)
    requires t in slot.tasks
  {
    && t == slot.deliveries
    && slot.pending.Some?
    && slot.tasks[t].touched <= slot.pending.value.touched
    && now <= slot.tasks[t].touched + Interval(c.recoveryDelay) + slack
  }

  ghost predicate Exclusive(c: Config, slack: nat, slot: Slot, now: nat) {
    && Answered(c, slot)
    && (slot.pending.Some? ==> slot.pending.value.touched <= now)
    && forall t <- slot.tasks :: Holds(c, slack, slot, t, now)
  }

  lemma HeldIsNotDelivered(c: Config, slack: nat, slot: Slot, action: Action, now: nat)
    requires SlackFits(c.recoveryDelay, slack) && Exclusive(c, slack, slot, now) && Possible(c, slot, action, now)
    ensures action.Deliver? ==> slot.tasks == map[]
  {
    forall t | t in slot.tasks ensures slot.pending.Some? && !Reclaimable(c.recoveryDelay, slot.pending.value, now) {
      assert Holds(c, slack, slot, t, now);
      RefreshedIsNotReclaimable(c.recoveryDelay, slack, slot.pending.value, slot.tasks[t].touched, now);
    }
  }

  lemma ActExclusive(c: Config, slack: nat, slot: Slot, action: Action, now: nat)
    requires SlackFits(c.recoveryDelay, slack) && Exclusive(c, slack, slot, now) && Possible(c, slot, action, now)
    ensures Exclusive(c, slack, Act(c, slot, action, now), now)
  {
    hide FirstStage, SlackFits, Reclaimable, Answered;
    ActAnswered(c, slot, action, now);
    HeldIsNotDelivered(c, slack, slot, action, now);
    if !action.Deliver? && !action.Crash? && !action.Rest? {
      assert Holds(c, slack, slot, action.task, now);
    }
  }

  ghost predicate AllExclusive(c: Config, slack: nat, s: State) {
    forall i :: 0 <= i < |s.slots| ==> Exclusive(c, slack, s.slots[i], s.now)
  }

  lemma StepExclusive(c: Config, slack: nat, s: State, step: Step)
    requires SlackFits(c.recoveryDelay, slack) && AllExclusive(c, slack, s) && Enabled(c, s, step)
    requires OnTime(c, slack, s, step)
    ensures AllExclusive(c, slack, Apply(c, s, step))
  {
    var s' := Apply(c, s, step);
    forall i | 0 <= i < |s'.slots| ensures Exclusive(c, slack, s'.slots[i], s'.now) {
      hide InFlight, SlackFits, Act, Possible, Answered;
      if i < |s.slots| {
        ActExclusive(c, slack, s.slots[i], Part(s, step, i), s.now);
        if step.Elapse? {
          RestKeepsSlot(c, s.slots[i], s.now);
        }
      } else {
        NewSlotAnswered(c, step.entry);
      }
    }
  }

  lemma RestKeepsSlot(c: Config, slot: Slot, now: nat)
    ensures Possible(c, slot, Rest, now) && Act(c, slot, Rest, now) == slot
  {
  }

  lemma {:induction false} RunExclusive(c: Config, slack: nat, steps: seq<Step>)
    requires SlackFits(c.recoveryDelay, slack) && Exec(c, steps).Some? && Timely(c, slack, steps)
    ensures AllExclusive(c, slack, Exec(c, steps).value)
  {
    if steps != [] {
      hide AllExclusive, Apply, Enabled, OnTime, SlackFits;
      var n := |steps| - 1;
      RunExclusive(c, slack, steps[..n]);
      StepExclusive(c, slack, Exec(c, steps[..n]).value, steps[n]);
    }
  }

  // ---- Completions that reach the broker ----------------------------------

  predicate Leaving(stage: Stage) { stage.Replying? || stage.Completing? }

  /** The entry is not removed although its handler is done with: the removal is lost, or the
      replica dies before it. */
  predicate Loses(slot: Slot, action: Action) {
    || (action.Fail? && !action.applied && action.task in slot.tasks && slot.tasks[action.task].stage.Completing?)
    || (action.Crash?
        && exists t <- slot.tasks :: slot.tasks[t].replica == action.replica && Leaving(slot.tasks[t].stage))
  }

  /** From position `from` on, no completion of entry `i` is lost; others may be. */
  ghost predicate Keeps(c: Config, steps: seq<Step>, from: nat, i: nat) {
    |steps| <= from ||
    (var n := |steps| - 1;
     && Keeps(c, steps[..n], from, i)
     && (Exec(c, steps[..n]).Some? && i < |Exec(c, steps[..n]).value.slots| ==>
           !Loses(Exec(c, steps[..n]).value.slots[i], Part(Exec(c, steps[..n]).value, steps[n], i))))
  }

  /** The entry has been removed, or its task is on the way to it. */
  ghost predicate Closed(slot: Slot) {
    slot.deliveries >= 1
    && (slot.pending.None? || (slot.deliveries in slot.tasks && Leaving(slot.tasks[slot.deliveries].stage)))
  }

  /** Once a handler has returned the entry is closed, and the handler has run once only. */
  ghost predicate Once(slot: Slot) {
    && (slot.returned > 0 || slot.attempted > 0 ==> Closed(slot))
    && slot.reruns == 0 && slot.returned <= 1 && slot.published <= slot.attempted <= 1
    && (slot.attempted > 0 && slot.pending.Some? ==> slot.tasks[slot.deliveries].stage.Completing?)
  }

  lemma ActOnce(c: Config, slack: nat, slot: Slot, action: Action, now: nat)
    requires SlackFits(c.recoveryDelay, slack) && Exclusive(c, slack, slot, now) && Once(slot)
    requires Possible(c, slot, action, now) && !Loses(slot, action)
    ensures Once(Act(c, slot, action, now))
  {
    hide FirstStage, SlackFits, Reclaimable;
    HeldIsNotDelivered(c, slack, slot, action, now);
    if !action.Deliver? && !action.Crash? && !action.Rest? {
      assert Holds(c, slack, slot, action.task, now);
    }
  }

  lemma {:induction false} RunOnce(c: Config, slack: nat, steps: seq<Step>, i: nat)
    requires SlackFits(c.recoveryDelay, slack) && Exec(c, steps).Some? && Timely(c, slack, steps)
    requires Keeps(c, steps, 0, i)
    ensures i < |Exec(c, steps).value.slots| ==> Once(Exec(c, steps).value.slots[i])
  {
    if steps != [] {
      hide AllExclusive, Enabled, OnTime, SlackFits, Loses, Once, Act, Possible, InFlight, Part;
      var n := |steps| - 1;
      RunOnce(c, slack, steps[..n], i);
      RunExclusive(c, slack, steps[..n]);
      StepOnce(c, slack, Exec(c, steps[..n]).value, steps[n], i);
    }
  }

  lemma StepOnce(c: Config, slack: nat, s: State, step: Step, i: nat)
    requires SlackFits(c.recoveryDelay, slack) && AllExclusive(c, slack, s) && Enabled(c, s, step)
    requires i < |s.slots| ==> Once(s.slots[i]) && !Loses(s.slots[i], Part(s, step, i))
    ensures i < |Apply(c, s, step).slots| ==> Once(Apply(c, s, step).slots[i])
  {
    hide InFlight, SlackFits, Act, Possible, Exclusive, Loses;
    if i < |s.slots| {
      ActOnce(c, slack, s.slots[i], Part(s, step, i), s.now);
    }
  }

  /** What the source promises of a command whose handler has returned, as long as no completion of
      that command is lost, whatever happens to others: the handler is never started again, whatever
      became of the reply, and at most one reply is sent. */
  lemma ReturnedCommandIsComplete(c: Config, slack: nat, steps: seq<Step>, i: nat)
    requires SlackFits(c.recoveryDelay, slack) && Exec(c, steps).Some? && Timely(c, slack, steps)
    requires i < |Exec(c, steps).value.slots| && Keeps(c, steps, 0, i)
    ensures var slot := Exec(c, steps).value.slots[i];
            && slot.reruns == 0 && slot.returned <= 1 && slot.published <= 1
            && (slot.returned > 0 ==> Closed(slot))
  {
    hide Exec, Timely, Keeps, SlackFits;
    RunOnce(c, slack, steps, i);
  }

  /** A lost completion leaves the entry pending with nobody working on it. */
  lemma LossOrphans(c: Config, slack: nat, slot: Slot, action: Action, now: nat)
    requires Exclusive(c, slack, slot, now) && Possible(c, slot, action, now) && Loses(slot, action)
    ensures Act(c, slot, action, now).pending.Some? && Act(c, slot, action, now).tasks == map[]
  {
    hide Answered, Interval;
    forall u | u in slot.tasks ensures u == slot.deliveries && slot.pending.Some? {
      assert Holds(c, slack, slot, u, now);
    }
    assert forall u :: u !in Act(c, slot, action, now).tasks;
  }
}
