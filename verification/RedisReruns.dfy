/** When the handler of a command can run again although it has returned. */
module RedisReruns {
  import opened Wrappers
  import opened Protocol
  import opened RedisPending
  import opened RedisCommands

  // ---- The condition ------------------------------------------------------

  ghost predicate BeingDecoded(slot: Slot) { exists t <- slot.tasks :: slot.tasks[t].stage.Decoding? }

  function Later(a: nat, b: nat): nat { if a > b then a else b }

  /** The earliest millisecond at which a delivery of a pending entry can be decoded: now, if there
      is such a delivery; otherwise once the record can be reclaimed. */
  ghost function EarliestMillis(c: Config, slot: Slot, now: nat): nat
    requires slot.pending.Some?
  {
    var today := now / NANOS_PER_MILLI;
    if BeingDecoded(slot) then today
    else Later(today, slot.pending.value.touched / NANOS_PER_MILLI + c.recoveryDelay / NANOS_PER_MILLI)
  }

  /** The entry is pending, no task is on the way to removing it, and the deadline is still ahead
      when the next delivery can be decoded. */
  ghost predicate Rerunnable(c: Config, slot: Slot, now: nat) {
    && slot.pending.Some?
    && (forall t <- slot.tasks :: !Leaving(slot.tasks[t].stage))
    && InTime(slot.entry, EarliestMillis(c, slot, now))
  }

  /** Some timely continuation, in which no completion of this command is lost, starts its handler again. */
  ghost predicate CanRerun(c: Config, slack: nat, steps: seq<Step>, i: nat)
    requires Exec(c, steps).Some? && i < |Exec(c, steps).value.slots|
  {
    exists more :: Reruns(c, slack, steps, more, i)
  }

  ghost predicate Reruns(c: Config, slack: nat, steps: seq<Step>, more: seq<Step>, i: nat)
    requires Exec(c, steps).Some? && i < |Exec(c, steps).value.slots|
  {
    && Exec(c, steps + more).Some? && Timely(c, slack, steps + more) && Keeps(c, steps + more, |steps|, i)
    && i < |Exec(c, steps + more).value.slots|
    && Exec(c, steps + more).value.slots[i].reruns > Exec(c, steps).value.slots[i].reruns
  }

  // ---- No rerun without it ------------------------------------------------

  ghost predicate Over(c: Config, slot: Slot, now: nat) {
    slot.returned > 0 && !Rerunnable(c, slot, now)
  }

  lemma OverIsClosed(c: Config, slack: nat, slot: Slot, now: nat)
    requires Exclusive(c, slack, slot, now) && Over(c, slot, now)
    ensures Closed(slot) || (slot.pending.Some? && !InTime(slot.entry, EarliestMillis(c, slot, now)))
  {
    hide Answered, InTime;
    if t :| t in slot.tasks && Leaving(slot.tasks[t].stage) {
      assert Holds(c, slack, slot, t, now);
    }
    assert slot.deliveries >= 1 by { ReturnedWasDelivered(c, slot); }
  }

  lemma ReturnedWasDelivered(c: Config, slot: Slot)
    requires Answered(c, slot) && slot.returned > 0
    ensures slot.deliveries >= 1 && Runnable(c, slot.entry)
  {
  }

  lemma ActClosed(c: Config, slack: nat, slot: Slot, action: Action, now: nat)
    requires SlackFits(c.recoveryDelay, slack) && Exclusive(c, slack, slot, now) && Closed(slot)
    requires Possible(c, slot, action, now) && !Loses(slot, action)
    ensures Closed(Act(c, slot, action, now)) && Act(c, slot, action, now).reruns == slot.reruns
  {
    hide FirstStage, SlackFits, Reclaimable, Answered;
    HeldIsNotDelivered(c, slack, slot, action, now);
    if !action.Deliver? && !action.Crash? && !action.Rest? {
      assert Holds(c, slack, slot, action.task, now);
    }
  }

  lemma ClosedIsOver(c: Config, slack: nat, slot: Slot, now: nat)
    requires Exclusive(c, slack, slot, now) && Closed(slot) && slot.returned > 0
    ensures Over(c, slot, now)
  {
    hide Answered, InTime;
  }

  /** Time only brings the deadline closer. */
  lemma ActLate(c: Config, slack: nat, slot: Slot, action: Action, now: nat)
    requires Exclusive(c, slack, slot, now) && slot.returned > 0 && slot.pending.Some?
    requires !InTime(slot.entry, EarliestMillis(c, slot, now))
    requires Possible(c, slot, action, now) && !Loses(slot, action)
    ensures var after := Act(c, slot, action, now);
            && after.reruns == slot.reruns
            && (Closed(after) || (after.pending.Some? && !InTime(after.entry, EarliestMillis(c, after, now))))
  {
    hide Interval, SlackFits;
    var after := Act(c, slot, action, now);
    if !action.Deliver? && !action.Crash? && !action.Rest? {
      assert Holds(c, slack, slot, action.task, now);
    }
    if after.pending.Some? && BeingDecoded(after) {
      var t :| t in after.tasks && after.tasks[t].stage.Decoding?;
      assert t in slot.tasks ==> slot.tasks[t].stage.Decoding?;
    }
  }

  lemma LateIsOver(c: Config, slot: Slot, now: nat)
    requires slot.returned > 0 && slot.pending.Some? && !InTime(slot.entry, EarliestMillis(c, slot, now))
    ensures Over(c, slot, now)
  {
  }

  lemma ActOver(c: Config, slack: nat, slot: Slot, action: Action, now: nat)
    requires SlackFits(c.recoveryDelay, slack) && Exclusive(c, slack, slot, now) && Over(c, slot, now)
    requires Possible(c, slot, action, now) && !Loses(slot, action)
    ensures Over(c, Act(c, slot, action, now), now) && Act(c, slot, action, now).reruns == slot.reruns
  {
    hide Act, Possible, Exclusive, Closed, Loses, SlackFits, EarliestMillis, InTime, Over;
    var after := Act(c, slot, action, now);
    OverIsClosed(c, slack, slot, now);
    ReturnedStays(c, slot, action, now);
    ActExclusive(c, slack, slot, action, now);
    OverReturned(c, slot, now);
    if Closed(slot) {
      ActClosed(c, slack, slot, action, now);
    } else {
      ActLate(c, slack, slot, action, now);
    }
    if Closed(after) {
      ClosedIsOver(c, slack, after, now);
    } else {
      LateIsOver(c, after, now);
    }
  }

  lemma OverReturned(c: Config, slot: Slot, now: nat)
    requires Over(c, slot, now)
    ensures slot.returned > 0
  {
  }

  lemma ReturnedStays(c: Config, slot: Slot, action: Action, now: nat)
    requires Possible(c, slot, action, now)
    ensures Act(c, slot, action, now).returned >= slot.returned
  {
  }

  lemma WaitingStaysOver(c: Config, slot: Slot, now: nat, later: nat)
    requires Over(c, slot, now) && now <= later
    ensures Over(c, slot, later)
  {
  }

  lemma StepOver(c: Config, slack: nat, s: State, step: Step, i: nat)
    requires SlackFits(c.recoveryDelay, slack) && AllExclusive(c, slack, s) && Enabled(c, s, step)
    requires i < |s.slots| && Over(c, s.slots[i], s.now) && !Loses(s.slots[i], Part(s, step, i))
    ensures var s' := Apply(c, s, step);
            i < |s'.slots| && Over(c, s'.slots[i], s'.now) && s'.slots[i].reruns == s.slots[i].reruns
  {
    hide InFlight, SlackFits, Act, Possible, Exclusive, Loses, Over;
    ActOver(c, slack, s.slots[i], Part(s, step, i), s.now);
    WaitingStaysOver(c, Act(c, s.slots[i], Part(s, step, i), s.now), s.now, Apply(c, s, step).now);
  }

  lemma {:induction false} StaysOver(c: Config, slack: nat, steps: seq<Step>, more: seq<Step>, i: nat)
    requires SlackFits(c.recoveryDelay, slack) && Exec(c, steps).Some? && i < |Exec(c, steps).value.slots|
    requires Over(c, Exec(c, steps).value.slots[i], Exec(c, steps).value.now)
    requires Exec(c, steps + more).Some? && Timely(c, slack, steps + more) && Keeps(c, steps + more, |steps|, i)
    ensures i < |Exec(c, steps + more).value.slots|
    ensures Over(c, Exec(c, steps + more).value.slots[i], Exec(c, steps + more).value.now)
    ensures Exec(c, steps + more).value.slots[i].reruns == Exec(c, steps).value.slots[i].reruns
  {
    hide Enabled, Apply, Over, AllExclusive, OnTime, SlackFits, Loses, Part;
    if more == [] {
      assert steps + more == steps;
    } else {
      var n := |more| - 1;
      assert (steps + more)[..|steps| + n] == steps + more[..n] && (steps + more)[|steps| + n] == more[n];
      StaysOver(c, slack, steps, more[..n], i);
      RunExclusive(c, slack, steps + more[..n]);
      StepOver(c, slack, Exec(c, steps + more[..n]).value, more[n], i);
    }
  }

  // ---- A rerun with it ----------------------------------------------------

  /** One more step that keeps a run timely and entry `i`'s completions. */
  lemma Extend(c: Config, slack: nat, steps: seq<Step>, from: nat, step: Step, i: nat)
    requires Exec(c, steps).Some? && Timely(c, slack, steps) && Keeps(c, steps, from, i)
    requires Enabled(c, Exec(c, steps).value, step) && OnTime(c, slack, Exec(c, steps).value, step)
    requires var s := Exec(c, steps).value; i < |s.slots| && !Loses(s.slots[i], Part(s, step, i))
    ensures Exec(c, steps + [step]) == Some(Apply(c, Exec(c, steps).value, step))
    ensures Timely(c, slack, steps + [step]) && Keeps(c, steps + [step], from, i)
  {
    hide Enabled, Apply, OnTime, Loses, Part;
    assert (steps + [step])[..|steps|] == steps;
  }

  /** Replicas with a live task. */
  ghost function Busy(slots: seq<Slot>): set<Replica> {
    set i, t | 0 <= i < |slots| && t in slots[i].tasks :: slots[i].tasks[t].replica
  }

  /** A slot whose tasks, none of them leaving, may have died and nothing else. */
  ghost predicate Remains(slot: Slot, after: Slot) {
    after == slot.(tasks := after.tasks) && after.tasks.Keys <= slot.tasks.Keys
    && forall t <- after.tasks :: after.tasks[t] == slot.tasks[t]
  }

  lemma CrashApplied(c: Config, s: State, r: Replica)
    ensures Enabled(c, s, CrashReplica(r))
    ensures var s' := Apply(c, s, CrashReplica(r));
            && s'.now == s.now && |s'.slots| == |s.slots| && Busy(s'.slots) == Busy(s.slots) - {r}
            && forall i :: 0 <= i < |s.slots| ==> Remains(s.slots[i], s'.slots[i])
  {
    hide InFlight;
    var s' := Apply(c, s, CrashReplica(r));
    forall i | 0 <= i < |s.slots|
      ensures Remains(s.slots[i], s'.slots[i])
      ensures forall t :: t in s'.slots[i].tasks <==> t in s.slots[i].tasks && s.slots[i].tasks[t].replica != r
    {
      assert s'.slots[i] == Act(c, s.slots[i], Crash(r), s.now);
    }
    assert Busy(s'.slots) == Busy(s.slots) - {r};
  }

  /** All replicas die, one after another. */
  lemma {:induction false} EverybodyCrashes(c: Config, slack: nat, steps: seq<Step>, from: nat, i: nat)
    returns (run: seq<Step>)
    requires Exec(c, steps).Some? && Timely(c, slack, steps) && Keeps(c, steps, from, i)
    requires i < |Exec(c, steps).value.slots|
    requires forall t <- Exec(c, steps).value.slots[i].tasks :: !Leaving(Exec(c, steps).value.slots[i].tasks[t].stage)
    ensures steps <= run && Exec(c, run).Some? && Timely(c, slack, run) && Keeps(c, run, from, i)
    ensures var s, s' := Exec(c, steps).value, Exec(c, run).value;
            && s'.now == s.now && |s'.slots| == |s.slots| && Busy(s'.slots) == {}
            && s'.slots[i] == s.slots[i].(tasks := map[])
    decreases Busy(Exec(c, steps).value.slots)
  {
    hide Exec, Timely, Keeps, Enabled, Apply;
    var s := Exec(c, steps).value;
    if Busy(s.slots) == {} {
      run := steps;
      assert s.slots[i].tasks == map[] by { BusyWhere(s.slots, i); }
    } else {
      hide Busy;
      var r :| r in Busy(s.slots);
      CrashApplied(c, s, r);
      Extend(c, slack, steps, from, CrashReplica(r), i);
      run := EverybodyCrashes(c, slack, steps + [CrashReplica(r)], from, i);
    }
  }

  lemma BusyWhere(slots: seq<Slot>, i: nat)
    requires i < |slots|
    ensures slots[i].tasks != map[] ==> Busy(slots) != {}
  {
    if slots[i].tasks != map[] {
      var t :| t in slots[i].tasks;
      assert slots[i].tasks[t].replica in Busy(slots);
    }
  }

  /** With nobody working, time passes until the entry can be reclaimed and decoded. */
  lemma ReclaimAndDecode(c: Config, slack: nat, steps: seq<Step>, from: nat, i: nat) returns (run: seq<Step>)
    requires Exec(c, steps).Some? && Timely(c, slack, steps) && Keeps(c, steps, from, i)
    requires i < |Exec(c, steps).value.slots| && Busy(Exec(c, steps).value.slots) == {} && c.concurrency >= 1
    requires var slot := Exec(c, steps).value.slots[i];
             Rerunnable(c, slot, Exec(c, steps).value.now) && slot.returned > 0 && Runnable(c, slot.entry)
    ensures steps <= run && Exec(c, run).Some? && Timely(c, slack, run) && Keeps(c, run, from, i)
    ensures i < |Exec(c, run).value.slots|
    ensures Exec(c, run).value.slots[i].reruns > Exec(c, steps).value.slots[i].reruns
  {
    hide Exec, Timely, Keeps, Runnable;
    var s := Exec(c, steps).value;
    var slot := s.slots[i];
    BusyWhere(s.slots, i);
    var due := (slot.pending.value.touched / NANOS_PER_MILLI + c.recoveryDelay / NANOS_PER_MILLI) * NANOS_PER_MILLI;
    var wait := Elapse(if due > s.now then due - s.now else 0);
    DueIsEarliest(c, slot, s.now, due);
    ElapseApplied(c, slack, s, wait.nanos);
    Extend(c, slack, steps, from, wait, i);
    run := steps + [wait];
    var waited := Exec(c, run).value;
    ReclaimApplied(c, waited, i);
    Extend(c, slack, run, from, Reclaim(0, {i}, false), i);
    run := run + [Reclaim(0, {i}, false)];
    var t := slot.deliveries + 1;
    DecodeApplied(c, Exec(c, run).value, i, t);
    Extend(c, slack, run, from, At(i, Decode(t)), i);
    run := run + [At(i, Decode(t))];
  }

  lemma DueIsEarliest(c: Config, slot: Slot, now: nat, due: nat)
    requires slot.pending.Some? && slot.tasks == map[]
    requires due == (slot.pending.value.touched / NANOS_PER_MILLI + c.recoveryDelay / NANOS_PER_MILLI) * NANOS_PER_MILLI
    ensures var later := Later(now, due);
            && later / NANOS_PER_MILLI == EarliestMillis(c, slot, now)
            && Reclaimable(c.recoveryDelay, slot.pending.value, later)
  {
  }

  lemma ElapseApplied(c: Config, slack: nat, s: State, nanos: nat)
    requires Busy(s.slots) == {}
    ensures Enabled(c, s, Elapse(nanos)) && OnTime(c, slack, s, Elapse(nanos))
    ensures Apply(c, s, Elapse(nanos)) == s.(now := s.now + nanos)
  {
    hide InFlight;
    forall i | 0 <= i < |s.slots| ensures s.slots[i].tasks == map[] {
      BusyWhere(s.slots, i);
    }
  }

  lemma ReclaimApplied(c: Config, s: State, i: nat)
    requires Busy(s.slots) == {} && i < |s.slots| && c.concurrency >= 1
    requires s.slots[i].pending.Some? && Reclaimable(c.recoveryDelay, s.slots[i].pending.value, s.now)
    ensures Enabled(c, s, Reclaim(0, {i}, false))
    ensures var s' := Apply(c, s, Reclaim(0, {i}, false));
            && s'.now == s.now && |s'.slots| == |s.slots|
            && s'.slots[i] == Act(c, s.slots[i], Deliver(0, false), s.now)
  {
    NothingInFlight(s.slots);
    assert |{i}| == 1;
  }

  lemma NothingInFlight(slots: seq<Slot>)
    requires Busy(slots) == {}
    ensures InFlight(slots, 0) == 0
  {
    forall i | 0 <= i < |slots| ensures slots[i].tasks == map[] {
      BusyWhere(slots, i);
    }
  }

  lemma DecodeApplied(c: Config, s: State, i: nat, t: nat)
    requires i < |s.slots| && t in s.slots[i].tasks && s.slots[i].tasks[t].stage.Decoding?
    requires s.slots[i].returned > 0 && Runnable(c, s.slots[i].entry)
    requires InTime(s.slots[i].entry, s.now / NANOS_PER_MILLI)
    ensures Enabled(c, s, At(i, Decode(t)))
    ensures var s' := Apply(c, s, At(i, Decode(t)));
            |s'.slots| == |s.slots| && s'.slots[i].reruns == s.slots[i].reruns + 1
  {
    hide InFlight;
  }

  lemma RerunnableReruns(c: Config, slack: nat, steps: seq<Step>, i: nat)
    requires SlackFits(c.recoveryDelay, slack) && Exec(c, steps).Some? && Timely(c, slack, steps)
    requires i < |Exec(c, steps).value.slots| && Exec(c, steps).value.slots[i].returned > 0
    requires Rerunnable(c, Exec(c, steps).value.slots[i], Exec(c, steps).value.now)
    ensures CanRerun(c, slack, steps, i)
  {
    hide Exec, Timely, Keeps, Answered, InTime, Runnable, Busy, Inv;
    var s := Exec(c, steps).value;
    var slot := s.slots[i];
    KeepsNothing(c, steps, i);
    ConcurrencyIsPositive(c, steps, i);
    var run;
    if t :| t in slot.tasks && slot.tasks[t].stage.Decoding? {
      DecodeApplied(c, s, i, t);
      Extend(c, slack, steps, |steps|, At(i, Decode(t)), i);
      run := steps + [At(i, Decode(t))];
    } else {
      run := EverybodyCrashes(c, slack, steps, |steps|, i);
      run := ReclaimAndDecode(c, slack, run, |steps|, i);
    }
    assert steps + run[|steps|..] == run;
    assert Reruns(c, slack, steps, run[|steps|..], i);
  }

  lemma KeepsNothing(c: Config, steps: seq<Step>, i: nat)
    ensures Keeps(c, steps, |steps|, i)
  {
  }

  /** A handler has run, so replicas take entries at all, and the entry was meant to be handled. */
  lemma ConcurrencyIsPositive(c: Config, steps: seq<Step>, i: nat)
    requires Exec(c, steps).Some? && i < |Exec(c, steps).value.slots|
    requires Exec(c, steps).value.slots[i].returned > 0
    ensures c.concurrency >= 1 && Runnable(c, Exec(c, steps).value.slots[i].entry)
  {
    hide Exec, Answered, Runnable;
    RunKeepsInv(c, steps);
    assert Answered(c, Exec(c, steps).value.slots[i]);
    ReturnedWasDelivered(c, Exec(c, steps).value.slots[i]);
  }

  // ---- Exactly ------------------------------------------------------------

  /** After any timely run, the handler of a command that has returned can be started again exactly
      when the entry is left pending with no task on the way to removing it and its deadline comes
      after the next delivery. */
  lemma RerunExactly(c: Config, slack: nat, steps: seq<Step>, i: nat)
    requires SlackFits(c.recoveryDelay, slack) && Exec(c, steps).Some? && Timely(c, slack, steps)
    requires i < |Exec(c, steps).value.slots| && Exec(c, steps).value.slots[i].returned > 0
    ensures CanRerun(c, slack, steps, i) <==>
            Rerunnable(c, Exec(c, steps).value.slots[i], Exec(c, steps).value.now)
  {
    hide Exec, Timely, Keeps, Rerunnable;
    var s := Exec(c, steps).value;
    if Rerunnable(c, s.slots[i], s.now) {
      RerunnableReruns(c, slack, steps, i);
    } else {
      assert Over(c, s.slots[i], s.now);
      forall more ensures !Reruns(c, slack, steps, more, i) {
        if Exec(c, steps + more).Some? && Timely(c, slack, steps + more) && Keeps(c, steps + more, |steps|, i) {
          StaysOver(c, slack, steps, more, i);
        }
      }
    }
  }

  /** Where no completion of the command has been lost, it cannot. */
  lemma KeptIsNotRerunnable(c: Config, slack: nat, steps: seq<Step>, i: nat)
    requires SlackFits(c.recoveryDelay, slack) && Exec(c, steps).Some? && Timely(c, slack, steps)
    requires Keeps(c, steps, 0, i)
    requires i < |Exec(c, steps).value.slots| && Exec(c, steps).value.slots[i].returned > 0
    ensures !CanRerun(c, slack, steps, i)
  {
    hide Exec, Timely, Keeps, CanRerun, Rerunnable, Closed;
    ReturnedCommandIsComplete(c, slack, steps, i);
    RunExclusive(c, slack, steps);
    var s := Exec(c, steps).value;
    assert Exclusive(c, slack, s.slots[i], s.now);
    ClosedIsOver(c, slack, s.slots[i], s.now);
    assert !Rerunnable(c, s.slots[i], s.now);
    RerunExactly(c, slack, steps, i);
  }

  // ---- A run that loses a completion --------------------------------------

  /** One command, handled and answered, whose removal fails. */
  function LosingActions(): seq<Action> { [Decode(1), Finish(1), Reply(1, Published), Fail(1, false)] }

  function LosingRun(entry: Entry, count: nat): seq<Step>
    requires count <= |LosingActions()|
  {
    if count == 0 then [Append(entry), Read(0, 1, false)]
    else LosingRun(entry, count - 1) + [At(0, LosingActions()[count - 1])]
  }

  function StageAfter(count: nat): Stage {
    if count == 0 then Decoding else if count == 1 then Handling else if count == 2 then Replying else Completing
  }

  function LosingSlot(entry: Entry, count: nat): Slot {
    Slot(entry, 1, Some(Pending(0, 0)), if count >= 1 then 1 else 0, if count >= 2 then 1 else 0, 0,
         if count >= 3 then 1 else 0, if count >= 3 then 1 else 0,
         if count == 4 then map[] else map[1 := Task(0, StageAfter(count), 0)])
  }

  lemma OneSlot(c: Config, slot: Slot, action: Action)
    requires Possible(c, slot, action, 0) && !action.Deliver? && !action.Crash?
    ensures Enabled(c, State([slot], 1, 0), At(0, action))
    ensures Apply(c, State([slot], 1, 0), At(0, action)) == State([Act(c, slot, action, 0)], 1, 0)
  {
    hide InFlight, Act;
  }

  lemma ExecNext(c: Config, slack: nat, steps: seq<Step>, step: Step)
    requires Exec(c, steps).Some? && Timely(c, slack, steps) && Enabled(c, Exec(c, steps).value, step) && !step.Elapse?
    ensures Exec(c, steps + [step]) == Some(Apply(c, Exec(c, steps).value, step)) && Timely(c, slack, steps + [step])
  {
    hide Enabled, Apply;
    assert (steps + [step])[..|steps|] == steps;
  }

  lemma {:induction false} LosingRunReaches(c: Config, slack: nat, entry: Entry, count: nat)
    requires c.concurrency >= 1 && count <= 4 && Runnable(c, entry) && InTime(entry, 0)
    ensures Exec(c, LosingRun(entry, count)) == Some(State([LosingSlot(entry, count)], 1, 0))
    ensures Timely(c, slack, LosingRun(entry, count))
  {
    hide Enabled, Apply, Runnable, InTime, Exec, Timely;
    if count == 0 {
      CommandRead(c, slack, entry);
    } else {
      LosingRunReaches(c, slack, entry, count - 1);
      var action := LosingActions()[count - 1];
      LosingAct(c, entry, count);
      OneSlot(c, LosingSlot(entry, count - 1), action);
      ExecNext(c, slack, LosingRun(entry, count - 1), At(0, action));
    }
  }

  lemma LosingAct(c: Config, entry: Entry, count: nat)
    requires 1 <= count <= 4 && Runnable(c, entry) && InTime(entry, 0)
    ensures Possible(c, LosingSlot(entry, count - 1), LosingActions()[count - 1], 0)
    ensures Act(c, LosingSlot(entry, count - 1), LosingActions()[count - 1], 0) == LosingSlot(entry, count)
  {
  }

  lemma CommandRead(c: Config, slack: nat, entry: Entry)
    requires c.concurrency >= 1
    ensures Exec(c, LosingRun(entry, 0)) == Some(State([LosingSlot(entry, 0)], 1, 0))
    ensures Timely(c, slack, LosingRun(entry, 0))
  {
    hide InFlight;
    var appended := State([NewSlot(entry)], 0, 0);
    var first: seq<Step> := [Append(entry)];
    assert Apply(c, State([], 0, 0), first[0]) == appended;
    ExecNext(c, slack, [], first[0]);
    assert [] + [first[0]] == first;
    NothingInFlight(appended.slots);
    assert Apply(c, appended, Read(0, 1, false)) == State([LosingSlot(entry, 0)], 1, 0);
    ExecNext(c, slack, first, Read(0, 1, false));
    assert first + [Read(0, 1, false)] == LosingRun(entry, 0);
  }

  /** The promise fails in this run, on time throughout: the handler has returned and its reply is
      published, and the handler can be started again. */
  lemma PromiseFails(c: Config, slack: nat, entry: Entry)
    requires SlackFits(c.recoveryDelay, slack) && c.concurrency >= 1
    requires Runnable(c, entry) && InTime(entry, c.recoveryDelay / NANOS_PER_MILLI)
    ensures var run := LosingRun(entry, 4);
            && Exec(c, run) == Some(State([LosingSlot(entry, 4)], 1, 0)) && Timely(c, slack, run)
            && LosingSlot(entry, 4).returned == LosingSlot(entry, 4).published == 1
            && CanRerun(c, slack, run, 0)
  {
    hide Exec, Timely, CanRerun, Runnable;
    LosingRunReaches(c, slack, entry, 4);
    RerunnableReruns(c, slack, LosingRun(entry, 4), 0);
  }
}
