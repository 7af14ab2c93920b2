/** No replica ever works on more entries at once than it is configured to. */
module RedisConcurrency {
  import opened Wrappers
  import opened Protocol
  import opened RedisPending
  import opened RedisEvents

  /** The entries a step hands to a replica. */
  ghost function Handed(s: State, step: Step, replica: Replica): set<nat> {
    set i | 0 <= i < |s.slots| && Part(s, step, i).Deliver? && Part(s, step, i).replica == replica
  }

  ghost function Spawned(s: State, ids: set<nat>): set<(nat, nat)>
    requires forall i <- ids :: i < |s.slots|
  {
    set i | i in ids :: (i, s.slots[i].deliveries + 1)
  }

  lemma SmallerSet<T>(a: set<T>, b: set<T>)
    requires a <= b
    ensures |a| <= |b|
  {
    var rest := b - a;
    assert b == a + rest && a !! rest;
  }

  lemma {:induction false} SpawnedSize(s: State, ids: set<nat>)
    requires forall i <- ids :: i < |s.slots|
    ensures |Spawned(s, ids)| <= |ids|
  {
    if ids != {} {
      var i :| i in ids;
      SpawnedSize(s, ids - {i});
      assert Spawned(s, ids) == Spawned(s, ids - {i}) + {(i, s.slots[i].deliveries + 1)};
    }
  }

  ghost function Range(from: nat, count: nat): (range: set<nat>)
    ensures |range| == count && forall i :: i in range <==> from <= i < from + count
  {
    if count == 0 then {} else Range(from, count - 1) + {from + count - 1}
  }

  /** Only a delivery gives a replica a task, and only one. */
  lemma ActSpawns(c: Config, slot: Slot, action: Action, now: nat, t: nat)
    requires Possible(c, slot, action, now) && t in Act(c, slot, action, now).tasks
    ensures var replica := Act(c, slot, action, now).tasks[t].replica;
            || (t in slot.tasks && slot.tasks[t].replica == replica)
            || (action.Deliver? && t == slot.deliveries + 1 && action.replica == replica)
  {
    hide Handled, Settle, Attempt;
  }

  lemma StepSpawns(c: Config, s: State, step: Step, replica: Replica)
    requires Enabled(c, s, step)
    ensures Tasks(Apply(c, s, step).slots, replica) <= Tasks(s.slots, replica) + Spawned(s, Handed(s, step, replica))
  {
    hide Act, Possible, InFlight;
    var s' := Apply(c, s, step);
    forall i, t | 0 <= i < |s'.slots| && t in s'.slots[i].tasks && s'.slots[i].tasks[t].replica == replica
      ensures (i, t) in Tasks(s.slots, replica) + Spawned(s, Handed(s, step, replica))
    {
      if i < |s.slots| {
        ActSpawns(c, s.slots[i], Part(s, step, i), s.now, t);
      }
    }
  }

  /** What is handed out fits the room there was. */
  lemma HandedFits(c: Config, s: State, step: Step, replica: Replica)
    requires Enabled(c, s, step) && Handed(s, step, replica) != {}
    ensures InFlight(s.slots, replica) + |Handed(s, step, replica)| <= c.concurrency
  {
    hide InFlight, Possible;
    var handed := Handed(s, step, replica);
    if step.Read? {
      SmallerSet(handed, Range(s.cursor, step.count));
    } else {
      SmallerSet(handed, step.ids);
    }
  }

  lemma StepWithinConcurrency(c: Config, s: State, step: Step, replica: Replica)
    requires Enabled(c, s, step) && InFlight(s.slots, replica) <= c.concurrency
    ensures InFlight(Apply(c, s, step).slots, replica) <= c.concurrency
  {
    hide Enabled, Apply, Tasks, Spawned;
    var handed := Handed(s, step, replica);
    StepSpawns(c, s, step, replica);
    SpawnedSize(s, handed);
    SmallerSet(Tasks(Apply(c, s, step).slots, replica), Tasks(s.slots, replica) + Spawned(s, handed));
    if handed != {} {
      HandedFits(c, s, step, replica);
    }
  }

  /** In every run, a replica has at most the configured number of entries in flight. */
  lemma {:induction false} ConcurrencyBounded(c: Config, steps: seq<Step>, replica: Replica)
    requires Exec(c, steps).Some?
    ensures InFlight(Exec(c, steps).value.slots, replica) <= c.concurrency
  {
    hide Enabled, Apply;
    if steps == [] {
      assert Tasks([], replica) == {};
    } else {
      var n := |steps| - 1;
      ConcurrencyBounded(c, steps[..n], replica);
      StepWithinConcurrency(c, Exec(c, steps[..n]).value, steps[n], replica);
    }
  }
}
