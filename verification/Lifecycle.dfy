/** Building an application container: construct and initialize every provider, validate again,
    bootstrap, and take everything back when a step fails. */
module Lifecycle {
  import opened Wrappers
  import opened Graphs
  import opened ProviderGraph
  import opened ProviderSchedule
  import opened Preflight
  import opened Traces

  datatype Failure =
    | Refused(error: StartupError)
    | BuildFailed(id: Id)
    | HookFailed(hook: Hook, id: Id)
    | MissingDuring(hook: Hook, id: Id)
    | HandlerFailed(id: Id)
    | OverridesUnused(ids: set<Id>)
    | NotRegistered(id: Id)
    | BadGateway(gateway: Gateway)

  class Container {
    var services: set<Id>
    var pending: map<Id, ProviderDef>
    var applied: set<Id>
    var initialized: seq<Id>
    var bootstrapped: set<Id>

    constructor (instances: set<Id>, overrides: map<Id, ProviderDef>)
      ensures services == instances + {LOGGER} && pending == overrides && applied == {}
      ensures initialized == [] && bootstrapped == {}
    {
      services, pending, applied := instances + {LOGGER}, overrides, {};
      initialized, bootstrapped := [], {};
    }

    function Sees(): View
      reads this
    {
      View(services, pending, applied)
    }

    /** Overrides are keyed by the type they provide. */
    ghost predicate Keyed()
      reads this
    {
      OverridesKeyed(pending)
    }

    /** Constructs and initializes one provider. */
    method Construct(declared: ProviderDef) returns (failure: Option<Failure>, ghost calls: seq<Call>)
      requires Keyed() && declared.id !in services && declared.id !in applied
      modifies this
      ensures Keyed() && bootstrapped == old(bootstrapped)
      ensures failure.Some? ==> !failure.value.Refused?
      ensures var effective := Effective(old(pending), declared);
              var own := declared.id !in old(pending);
              && (failure.None? <==> effective.hooks.build && effective.hooks.init)
              && pending == old(pending) - {declared.id}
              && applied == old(applied) + (if own then {} else {declared.id})
              && services == old(services) + (if effective.hooks.build then {declared.id} else {})
              && initialized == old(initialized) + (if failure.None? && own then [declared.id] else [])
              && calls == [Built(effective, own, Handle(old(services), Some(DependencySet(effective))))]
                          + if effective.hooks.build then [Ran(Init, declared.id, own, effective.hooks.init)] else []
    {
      var effective := Effective(pending, declared);
      var own := declared.id !in pending;
      pending := pending - {declared.id};
      if !own {
        applied := applied + {declared.id};
      }
      calls := [Built(effective, own, Handle(services, Some(DependencySet(effective))))];
      if !effective.hooks.build {
        return Some(BuildFailed(effective.id)), calls;
      }
      services := services + {effective.id};
      calls := calls + [Ran(Init, effective.id, own, effective.hooks.init)];
      if !effective.hooks.init {
        return Some(HookFailed(Init, effective.id)), calls;
      }
      if own {
        initialized := initialized + [declared.id];
      }
      failure := None;
    }
  }

  ghost predicate OverridesKeyed(pending: map<Id, ProviderDef>) { forall t <- pending :: pending[t].id == t }

  function DependencySet(def: ProviderDef): set<Id> { set d <- def.dependencies }

  // ---- Taking everything back ---------------------------------------------

  /** The first definition of a type, in registration order. */
  function FindDef(registrations: seq<Registration>, id: Id): (found: Option<ProviderDef>)
    ensures found.Some? ==> found.value.id == id && exists r <- registrations :: r.def == found.value
    ensures found.None? <==> forall r <- registrations :: r.def.id != id
  {
    if registrations == [] then None
    else if registrations[0].def.id == id then Some(registrations[0].def)
    else
      assert forall r <- registrations :: r == registrations[0] || r in registrations[1..];
      FindDef(registrations[1..], id)
  }

  /** Shutdown hooks of the initialized providers, last initialized first. */
  ghost function StopCalls(graph: Graph, services: set<Id>, initialized: seq<Id>): seq<Call> {
    if initialized == [] then []
    else
      var n := |initialized| - 1;
      StopCall(graph, services, initialized[n]) + StopCalls(graph, services, initialized[..n])
  }

  ghost function StopCall(graph: Graph, services: set<Id>, id: Id): seq<Call> {
    var def := FindDef(Definitions(graph), id);
    if def.Some? && id in services then [Ran(Shutdown, id, true, def.value.hooks.shutdown)] else []
  }

  /** The failure reported for stopping one provider. */
  ghost function StopFailure(graph: Graph, services: set<Id>, id: Id): Option<Failure> {
    var def := FindDef(Definitions(graph), id);
    if def.None? then None
    else if id !in services then Some(MissingDuring(Shutdown, id))
    else if !def.value.hooks.shutdown then Some(HookFailed(Shutdown, id))
    else None
  }

  /** Runs one provider's shutdown hook on its registered value. */
  method StopProvider(graph: Graph, services: set<Id>, id: Id)
    returns (failure: Option<Failure>, ghost calls: seq<Call>)
    ensures failure == StopFailure(graph, services, id) && calls == StopCall(graph, services, id)
  {
    hide Registrations;
    var def := FindDef(Definitions(graph), id);
    if def.None? {
      return None, [];
    }
    if id !in services {
      return Some(MissingDuring(Shutdown, id)), [];
    }
    calls := [Ran(Shutdown, id, true, def.value.hooks.shutdown)];
    failure := if def.value.hooks.shutdown then None else Some(HookFailed(Shutdown, id));
  }

  method RollbackGraph(graph: Graph, container: Container) returns (ghost calls: seq<Call>)
    modifies container`initialized
    ensures container.initialized == []
    ensures calls == StopCalls(graph, container.services, old(container.initialized))
  {
    hide StopCall, StopFailure;
    var taken := container.initialized;
    container.initialized := [];
    calls := [];
    assert taken[..|taken|] == taken;
    for i := |taken| downto 0
      invariant container.initialized == []
      invariant calls + StopCalls(graph, container.services, taken[..i]) == StopCalls(graph, container.services, taken)
    {
      assert taken[..i + 1][..i] == taken[..i];
      var _, stopped := StopProvider(graph, container.services, taken[i]);
      calls := calls + stopped;
    }
  }

  /** The failure, if any, reported after stopping everything initialized at `from` or later. */
  ghost predicate FirstStopFailure(graph: Graph, services: set<Id>, taken: seq<Id>, from: nat, first: Option<Failure>) {
    match first
    case None => forall j :: from <= j < |taken| ==> StopFailure(graph, services, taken[j]).None?
    case Some(_) =>
      exists k :: from <= k < |taken| && first == StopFailure(graph, services, taken[k])
        && (forall j :: k < j < |taken| ==> StopFailure(graph, services, taken[j]).None?)
  }

  lemma NothingStopped(graph: Graph, services: set<Id>, taken: seq<Id>)
    ensures FirstStopFailure(graph, services, taken, |taken|, None)
  {
  }

  lemma FirstStopStep(graph: Graph, services: set<Id>, taken: seq<Id>, i: nat, first: Option<Failure>)
    requires i < |taken| && FirstStopFailure(graph, services, taken, i + 1, first)
    ensures FirstStopFailure(graph, services, taken, i,
                             if first.None? then StopFailure(graph, services, taken[i]) else first)
  {
    hide StopFailure;
  }

  /** Every hook is run whatever the others do; the first failure is the one reported. */
  method ShutdownModule(graph: Graph, container: Container) returns (first: Option<Failure>, ghost calls: seq<Call>)
    modifies container`initialized
    ensures container.initialized == []
    ensures calls == StopCalls(graph, container.services, old(container.initialized))
    ensures FirstStopFailure(graph, container.services, old(container.initialized), 0, first)
  {
    hide FirstStopFailure, StopCall, StopFailure;
    var taken := container.initialized;
    container.initialized := [];
    calls, first := [], None;
    assert taken[..|taken|] == taken;
    assert FirstStopFailure(graph, container.services, taken, |taken|, first) by {
      NothingStopped(graph, container.services, taken);
    }
    for i := |taken| downto 0
      invariant container.initialized == []
      invariant calls + StopCalls(graph, container.services, taken[..i]) == StopCalls(graph, container.services, taken)
      invariant FirstStopFailure(graph, container.services, taken, i, first)
    {
      assert taken[..i + 1][..i] == taken[..i];
      FirstStopStep(graph, container.services, taken, i, first);
      var failure, stopped := StopProvider(graph, container.services, taken[i]);
      calls := calls + stopped;
      if first.None? {
        first := failure;
      }
    }
  }

  ghost predicate Stoppable(graph: Graph, services: set<Id>, id: Id) {
    id in services && exists r <- Definitions(graph) :: r.def.id == id
  }

  lemma StopsOne(graph: Graph, services: set<Id>, id: Id)
    requires Stoppable(graph, services, id)
    ensures Called(StopCall(graph, services, id), Shutdown) == [id] && During(StopCall(graph, services, id), 2)
  {
    hide Registrations;
    var calls := StopCall(graph, services, id);
    assert calls[..0] == [];
  }

  /** Every provider known to the graph is stopped exactly once, in reverse order of initialization. */
  lemma {:induction false} StopsInReverse(graph: Graph, services: set<Id>, initialized: seq<Id>)
    requires forall id <- initialized :: Stoppable(graph, services, id)
    ensures During(StopCalls(graph, services, initialized), 2)
    ensures Called(StopCalls(graph, services, initialized), Shutdown) == Reversed(initialized)
  {
    hide Stoppable, StopCall, Phase;
    if initialized == [] {
      assert Reversed(initialized) == [];
    } else {
      var n := |initialized| - 1;
      assert initialized[n] in initialized && forall id <- initialized[..n] :: id in initialized;
      StopsInReverse(graph, services, initialized[..n]);
      StopsOne(graph, services, initialized[n]);
      Concatenated(StopCall(graph, services, initialized[n]), StopCalls(graph, services, initialized[..n]), Shutdown);
      assert Reversed(initialized) == [initialized[n]] + Reversed(initialized[..n]);
    }
  }
}
