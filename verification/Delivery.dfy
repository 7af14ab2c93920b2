/** At-least-once delivery of one consumer's events, with nothing said about how it is done. */
module Delivery {

  /** When a failing event is given up, and whether it is copied elsewhere first. */
  datatype Policy = Policy(maxDeliveries: nat, deadLetter: bool)

  datatype Phase = Unread | Outstanding | Settled

  datatype Event = Event(wellFormed: bool, phase: Phase, deliveries: nat,
                         succeeded: bool, rejected: bool, deadLettered: bool)

  ghost predicate Fresh(e: Event) {
    e.phase.Unread? && e.deliveries == 0 && !e.succeeded && !e.rejected && !e.deadLettered
  }

  /** The reasons for which an event may be forgotten. */
  ghost predicate MayForget(p: Policy, e: Event) {
    || !e.wellFormed
    || e.succeeded
    || e.rejected
    || (e.deliveries >= p.maxDeliveries && (p.deadLetter ==> e.deadLettered))
  }

  /** What may happen to one event. */
  ghost predicate EventStep(p: Policy, a: Event, b: Event) {
    || b == a
    || (!a.phase.Settled? && b == a.(phase := Outstanding, deliveries := a.deliveries + 1))
    || (!a.phase.Unread? && a.wellFormed && (b == a.(succeeded := true) || b == a.(rejected := true)))
    || (a.wellFormed && p.deadLetter && a.deliveries >= p.maxDeliveries && b == a.(deadLettered := true))
    || (a.phase.Outstanding? && MayForget(p, a) && b == a.(phase := Settled))
  }

  /** Events move on independently; new ones join at the end. */
  ghost predicate SystemStep(p: Policy, a: seq<Event>, b: seq<Event>) {
    && |a| <= |b|
    && (forall i :: 0 <= i < |a| ==> EventStep(p, a[i], b[i]))
    && (forall i :: |a| <= i < |b| ==> Fresh(b[i]))
  }

  lemma MayForgetForever(p: Policy, a: Event, b: Event)
    requires MayForget(p, a) && EventStep(p, a, b)
    ensures MayForget(p, b)
  {
  }

  ghost predicate Trace(p: Policy, states: seq<seq<Event>>) {
    && states != [] && states[0] == []
    && forall i :: 0 < i < |states| ==> SystemStep(p, states[i - 1], states[i])
  }

  ghost predicate Reachable(p: Policy, state: seq<Event>) {
    exists states :: Trace(p, states) && states[|states| - 1] == state
  }

  /** An event is undelivered, outstanding, or was forgotten for a reason. */
  ghost predicate Accounted(p: Policy, e: Event) {
    && (e.phase.Unread? <==> e.deliveries == 0)
    && (e.phase.Settled? ==> MayForget(p, e))
    && (e.deadLettered ==> e.deliveries >= p.maxDeliveries && p.deadLetter)
  }

  lemma ReachableStart(p: Policy)
    ensures Reachable(p, [])
  {
    var states: seq<seq<Event>> := [[]];
    assert Trace(p, states) && states[|states| - 1] == [];
  }

  lemma ReachableStep(p: Policy, a: seq<Event>, b: seq<Event>)
    requires Reachable(p, a) && SystemStep(p, a, b)
    ensures Reachable(p, b)
  {
    var states :| Trace(p, states) && states[|states| - 1] == a;
    var longer := states + [b];
    forall i | 0 < i < |longer| ensures SystemStep(p, longer[i - 1], longer[i]) {
      if i < |states| {
        assert SystemStep(p, states[i - 1], states[i]);
      }
    }
    assert Trace(p, longer) && longer[|longer| - 1] == b;
  }

  lemma {:induction false} TraceAccounted(p: Policy, states: seq<seq<Event>>, i: nat)
    requires p.maxDeliveries >= 1 && Trace(p, states) && i < |states|
    ensures forall e <- states[i] :: Accounted(p, e)
  {
    if i > 0 {
      TraceAccounted(p, states, i - 1);
      var a, b := states[i - 1], states[i];
      assert SystemStep(p, a, b);
      forall e | e in b ensures Accounted(p, e) {
        var k :| 0 <= k < |b| && b[k] == e;
        if k < |a| {
          assert Accounted(p, a[k]) && EventStep(p, a[k], b[k]);
        } else {
          assert Fresh(b[k]);
        }
      }
    }
  }

  /** No event is ever lost, in any run of the machine. */
  lemma NoEventLost(p: Policy, state: seq<Event>)
    requires p.maxDeliveries >= 1 && Reachable(p, state)
    ensures forall e <- state :: Accounted(p, e)
  {
    var states :| Trace(p, states) && states[|states| - 1] == state;
    TraceAccounted(p, states, |states| - 1);
  }

  // ---- Attempt numbers ----------------------------------------------------

  ghost predicate Ascending(attempts: seq<nat>) {
    forall i, j :: 0 <= i < j < |attempts| ==> attempts[i] < attempts[j]
  }

  /** Attempt numbers reported so far: strictly increasing, from one up to at most `latest`. */
  ghost predicate Attempts(attempts: seq<nat>, latest: nat) {
    Ascending(attempts) && forall a <- attempts :: 1 <= a <= latest
  }

  lemma AttemptReported(attempts: seq<nat>, t: nat)
    requires t >= 1 && Attempts(attempts, t - 1)
    ensures Attempts(attempts + [t], t)
  {
    forall j | 0 <= j < |attempts| ensures attempts[j] < t {
      assert attempts[j] in attempts;
    }
  }

  lemma AttemptsWithin(attempts: seq<nat>, latest: nat, later: nat)
    requires Attempts(attempts, latest) && latest <= later
    ensures Attempts(attempts, later)
  {
  }

  lemma {:induction false} AttemptsLength(attempts: seq<nat>, limit: nat)
    requires Attempts(attempts, limit)
    ensures |attempts| <= limit
    decreases limit
  {
    if attempts != [] {
      var n := |attempts| - 1;
      assert attempts[n] in attempts;
      forall a | a in attempts[..n] ensures 1 <= a <= attempts[n] - 1 {
        var k :| 0 <= k < n && attempts[k] == a;
        assert attempts[k] in attempts && attempts[k] < attempts[n];
      }
      AttemptsLength(attempts[..n], attempts[n] - 1);
    }
  }
}
