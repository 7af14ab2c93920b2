/** What a run did to its providers: the builds and lifecycle hooks it called, in order. */
module Traces {
  import opened Wrappers
  import opened Graphs
  import opened ProviderGraph

  /** The container as one provider's constructor sees it. */
  datatype Handle = Handle(services: set<Id>, allowed: Option<set<Id>>)

  datatype ResolveError = Undeclared(id: Id) | Unregistered(id: Id)

  /** `None` when the handle yields the service. */
  function Resolve(handle: Handle, id: Id): Option<ResolveError> {
    if handle.allowed.Some? && id != LOGGER && id !in handle.allowed.value then Some(Undeclared(id))
    else if id !in handle.services then Some(Unregistered(id))
    else None
  }

  datatype Hook = Init | Bootstrap | Shutdown

  /** `own` is false for what an override runs in a provider's place. */
  datatype Call =
    | Built(def: ProviderDef, own: bool, handle: Handle)
    | Ran(hook: Hook, id: Id, own: bool, succeeded: bool)

  /** The providers whose own `hook` was called. */
  ghost function Called(calls: seq<Call>, hook: Hook): seq<Id> {
    if calls == [] then []
    else
      var n := |calls| - 1;
      Called(calls[..n], hook)
      + if calls[n].Ran? && calls[n].hook == hook && calls[n].own then [calls[n].id] else []
  }

  /** The providers whose own `hook` was called and succeeded. */
  ghost function Succeeded(calls: seq<Call>, hook: Hook): seq<Id> {
    if calls == [] then []
    else
      var n := |calls| - 1;
      Succeeded(calls[..n], hook)
      + if calls[n].Ran? && calls[n].hook == hook && calls[n].own && calls[n].succeeded then [calls[n].id] else []
  }

  lemma {:induction false} Concatenated(a: seq<Call>, b: seq<Call>, hook: Hook)
    ensures Called(a + b, hook) == Called(a, hook) + Called(b, hook)
    ensures Succeeded(a + b, hook) == Succeeded(a, hook) + Succeeded(b, hook)
  {
    if b == [] {
      assert a + b == a;
    } else {
      var n := |b| - 1;
      assert (a + b)[..|a| + n] == a + b[..n];
      Concatenated(a, b[..n], hook);
    }
  }

  function Phase(call: Call): nat {
    match call
    case Built(_, _, _) => 0
    case Ran(hook, _, _, _) => if hook.Init? then 0 else if hook.Bootstrap? then 1 else 2
  }

  ghost predicate During(calls: seq<Call>, phase: nat) { forall call <- calls :: Phase(call) == phase }

  lemma {:induction false} SilentHook(calls: seq<Call>, phase: nat, hook: Hook)
    requires During(calls, phase)
    requires (hook.Init? ==> phase != 0) && (hook.Bootstrap? ==> phase != 1) && (hook.Shutdown? ==> phase != 2)
    ensures Called(calls, hook) == Succeeded(calls, hook) == []
  {
    if calls != [] {
      var n := |calls| - 1;
      assert calls[n] in calls && forall call <- calls[..n] :: call in calls;
      SilentHook(calls[..n], phase, hook);
    }
  }

  /** Every initialization precedes every bootstrap, and every bootstrap every shutdown. */
  ghost predicate PhasesInOrder(calls: seq<Call>) {
    forall i, j :: 0 <= i < j < |calls| ==> Phase(calls[i]) <= Phase(calls[j])
  }

  lemma ThreePhases(a: seq<Call>, b: seq<Call>, c: seq<Call>)
    requires During(a, 0) && During(b, 1) && During(c, 2)
    ensures PhasesInOrder(a + b + c)
  {
    var all := a + b + c;
    forall i, j | 0 <= i < j < |all| ensures Phase(all[i]) <= Phase(all[j]) {
      assert i < |a| ==> all[i] in a;
      assert |a| <= i < |a| + |b| ==> all[i] in b;
      assert |a| <= j < |a| + |b| ==> all[j] in b;
      assert |a| + |b| <= j ==> all[j] in c;
    }
  }

  /** A constructor resolves what its definition declares, and the logger, and nothing else. */
  ghost predicate Supplied(call: Call) {
    call.Built? ==> forall id :: Resolve(call.handle, id).None? <==> id == LOGGER || id in call.def.dependencies
  }

  // ---- Orders of providers ------------------------------------------------

  function Reversed(ids: seq<Id>): (r: seq<Id>)
    ensures |r| == |ids| && forall i :: 0 <= i < |ids| ==> r[i] == ids[|ids| - 1 - i]
  {
    seq(|ids|, i requires 0 <= i < |ids| => ids[|ids| - 1 - i])
  }

  ghost predicate Distinct(ids: seq<Id>) {
    forall i, j :: 0 <= i < j < |ids| ==> ids[i] != ids[j]
  }

  ghost predicate Before(ids: seq<Id>, a: Id, b: Id) {
    exists i, j :: 0 <= i < j < |ids| && ids[i] == a && ids[j] == b
  }

  lemma BeforeReversed(ids: seq<Id>, a: Id, b: Id)
    ensures Before(Reversed(ids), a, b) <==> Before(ids, b, a)
  {
    var r, n := Reversed(ids), |ids| - 1;
    if Before(ids, b, a) {
      var i, j :| 0 <= i < j < |ids| && ids[i] == b && ids[j] == a;
      assert r[n - j] == a && r[n - i] == b;
    }
    if Before(r, a, b) {
      var i, j :| 0 <= i < j < |r| && r[i] == a && r[j] == b;
      assert ids[n - j] == b && ids[n - i] == a;
    }
  }

  function TypeSet(defs: seq<ProviderDef>): set<Id> { set d <- defs :: d.id }

  /** The types of `defs` that belong to `ids`, in order. */
  ghost function Keep(defs: seq<ProviderDef>, ids: set<Id>): seq<Id> {
    if defs == [] then []
    else
      var n := |defs| - 1;
      Keep(defs[..n], ids) + if defs[n].id in ids then [defs[n].id] else []
  }

  lemma KeepNext(defs: seq<ProviderDef>, next: ProviderDef, ids: set<Id>)
    ensures Keep(defs + [next], ids) == Keep(defs, ids) + if next.id in ids then [next.id] else []
    ensures TypeSet(defs + [next]) == TypeSet(defs) + {next.id}
  {
    assert (defs + [next])[..|defs|] == defs;
  }

  ghost predicate DistinctTypes(defs: seq<ProviderDef>) {
    forall i, j :: 0 <= i < j < |defs| ==> defs[i].id != defs[j].id
  }

  lemma {:induction false} KeepSelects(defs: seq<ProviderDef>, ids: set<Id>)
    requires DistinctTypes(defs)
    ensures Distinct(Keep(defs, ids)) && forall id :: id in Keep(defs, ids) <==> id in ids && id in TypeSet(defs)
  {
    if defs != [] {
      var n := |defs| - 1;
      KeepSelects(defs[..n], ids);
      KeepNext(defs[..n], defs[n], ids);
      assert defs[..n] + [defs[n]] == defs;
      assert defs[n].id !in TypeSet(defs[..n]);
      forall k | 0 <= k < |Keep(defs[..n], ids)| ensures Keep(defs[..n], ids)[k] != defs[n].id {
        assert Keep(defs[..n], ids)[k] in Keep(defs[..n], ids);
      }
    }
  }

  lemma {:induction false} KeepOrders(defs: seq<ProviderDef>, ids: set<Id>, i: nat, j: nat)
    requires i < j < |defs| && defs[i].id in ids && defs[j].id in ids
    ensures Before(Keep(defs, ids), defs[i].id, defs[j].id)
  {
    var n := |defs| - 1;
    var kept := Keep(defs[..n], ids);
    if j < n {
      KeepOrders(defs[..n], ids, i, j);
      var a, b :| 0 <= a < b < |kept| && kept[a] == defs[i].id && kept[b] == defs[j].id;
      assert Keep(defs, ids)[a] == kept[a] && Keep(defs, ids)[b] == kept[b];
    } else {
      KeepHolds(defs[..n], ids, i);
      var a :| 0 <= a < |kept| && kept[a] == defs[i].id;
      assert Keep(defs, ids)[a] == kept[a] && Keep(defs, ids)[|kept|] == defs[j].id;
    }
  }

  lemma {:induction false} KeepHolds(defs: seq<ProviderDef>, ids: set<Id>, i: nat)
    requires i < |defs| && defs[i].id in ids
    ensures defs[i].id in Keep(defs, ids)
  {
    if i < |defs| - 1 {
      KeepHolds(defs[..|defs| - 1], ids, i);
    }
  }
}
