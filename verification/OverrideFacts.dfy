/** When a build with overrides succeeds, and what an override cannot do. */
module OverrideFacts {
  import opened Wrappers
  import opened Graphs
  import opened ProviderGraph
  import opened ProviderSchedule
  import opened Preflight
  import opened Traces
  import opened Lifecycle
  import opened Startup

  /** Every override is for a type that will be constructed. */
  predicate Applicable(graph: Graph, instances: set<Id>, overrides: map<Id, ProviderDef>) {
    overrides.Keys <= DeclaredTypes(graph) - instances - {LOGGER}
  }

  lemma PendingAfter(view: View, ids: set<Id>)
    ensures InitializedView(view, ids).pending == map[] <==> view.pending.Keys <= ids - view.services - view.applied
  {
    var added := ids - view.services - view.applied;
    forall id | id in view.pending ensures id in added || id in (view.pending - added) {
    }
    if view.pending.Keys <= added {
      assert (view.pending - added).Keys == {};
    }
  }

  /** An override for a type the modules do not declare, or that is supplied beforehand, makes the
      build fail. */
  lemma OverridesMustApply(graph: Graph, instances: set<Id>, overrides: map<Id, ProviderDef>)
    ensures LastView(graph, instances, overrides).pending == map[] <==> Applicable(graph, instances, overrides)
    ensures Buildable(graph, instances, overrides) ==> Applicable(graph, instances, overrides)
  {
    hide Startable, HooksSucceed, HandlersRegister, BootstrapsSucceed, GatewaysSound, DeclaredTypes, Scheduled,
      InitializedView;
    PendingAfter(FirstView(instances, overrides), DeclaredTypes(graph));
  }

  /** The definitions as written have their dependencies, whatever is overridden. */
  ghost predicate OwnDependenciesMet(graph: Graph, instances: set<Id>) {
    DependenciesMet(graph, Definitions(graph), FirstView(instances, map[]))
  }

  /** The definitions as written do not depend on each other in a circle. */
  ghost predicate OwnCycleFree(graph: Graph) { DependencyCycleFree(ContextOf(graph, map[])) }

  lemma LastViewWithout(graph: Graph, instances: set<Id>, overrides: map<Id, ProviderDef>)
    requires Applicable(graph, instances, overrides)
    ensures var last := LastView(graph, instances, overrides);
            && last.pending == map[] && last.applied == overrides.Keys
            && last.services == instances + {LOGGER} + DeclaredTypes(graph)
  {
    hide DeclaredTypes;
    PendingAfter(FirstView(instances, overrides), DeclaredTypes(graph));
  }

  lemma SameDependencies(graph: Graph, instances: set<Id>, last: View)
    requires last.pending == map[] && last.services == instances + {LOGGER} + DeclaredTypes(graph)
    ensures DependenciesMet(graph, Definitions(graph), last) <==> OwnDependenciesMet(graph, instances)
  {
    hide Visible, Registrations;
    var registrations, first := Definitions(graph), FirstView(instances, map[]);
    forall owner, d | 0 <= owner < |graph|
      ensures DependencyMet(graph, registrations, last, owner, d) <==>
              DependencyMet(graph, registrations, first, owner, d)
    {
    }
  }

  /** The second validation, of which a caller may think before the build: when no type is
      registered twice and every override applies, it accepts what the first one accepted exactly if
      the definitions the overrides replace have their dependencies and run in no circle. */
  lemma SecondValidationExact(graph: Graph, instances: set<Id>, overrides: map<Id, ProviderDef>)
    requires NoDuplicates(Definitions(graph), NoContainer)
    requires Startable(graph, FirstView(instances, overrides)) && Applicable(graph, instances, overrides)
    ensures Startable(graph, LastView(graph, instances, overrides)) <==>
              OwnDependenciesMet(graph, instances) && OwnCycleFree(graph)
  {
    hide Schedule, ExportsSound, EventHandlersMet, OwnersSound, DependenciesMet, DependencyCycleFree, ByType,
      Registrations, LastByType, DeclaredTypes, LastView;
    var last := LastView(graph, instances, overrides);
    LastViewWithout(graph, instances, overrides);
    SameDependencies(graph, instances, last);
    assert Uniform(ContextOf(graph, map[])) by { UniformBeforeOverridesApply(ContextOf(graph, map[]), NoContainer); }
    ScheduleExact(ContextOf(graph, map[]));
    assert NoDuplicates(Definitions(graph), last);
  }

  /** Exactly when a build with overrides succeeds, in terms of what is known before it. */
  lemma BuildableWithOverrides(graph: Graph, instances: set<Id>, overrides: map<Id, ProviderDef>)
    requires NoDuplicates(Definitions(graph), NoContainer)
    ensures Buildable(graph, instances, overrides) <==>
              && Startable(graph, FirstView(instances, overrides)) && Applicable(graph, instances, overrides)
              && OwnDependenciesMet(graph, instances) && OwnCycleFree(graph)
              && GatewaysSound(Gateways(graph))
              && HooksSucceed(Scheduled(graph, overrides), FirstView(instances, overrides))
              && HandlersRegister(graph, instances + {LOGGER} + DeclaredTypes(graph))
              && BootstrapsSucceed(Scheduled(graph, map[]),
                                   DeclaredTypes(graph) - instances - {LOGGER} - overrides.Keys,
                                   instances + {LOGGER} + DeclaredTypes(graph))
  {
    hide Startable, HooksSucceed, HandlersRegister, BootstrapsSucceed, GatewaysSound, DeclaredTypes, Scheduled,
      LastView, OwnDependenciesMet, OwnCycleFree, NoDuplicates;
    OverridesMustApply(graph, instances, overrides);
    if Startable(graph, FirstView(instances, overrides)) && Applicable(graph, instances, overrides) {
      LastViewWithout(graph, instances, overrides);
      SecondValidationExact(graph, instances, overrides);
      assert OwnTypes(graph, instances, overrides) == DeclaredTypes(graph) - instances - {LOGGER} - overrides.Keys;
    }
  }

  // ---- Overrides that rescue nothing --------------------------------------

  const GOOD := Hooks(true, true, true, true)
  const NEEDY := ProviderDef(2, [3], GOOD)
  const BACK := ProviderDef(3, [2], GOOD)
  const STAND_IN := ProviderDef(2, [], GOOD)

  /** One module declaring `defs`. */
  function Single(defs: seq<ProviderDef>): Graph { [ModuleNode([], defs, [], false, [], [], [])] }

  lemma SingleDefinitions(defs: seq<ProviderDef>)
    ensures |Definitions(Single(defs))| == |defs|
    ensures forall i :: 0 <= i < |defs| ==> Definitions(Single(defs))[i] == Registration(0, defs[i])
  {
    assert Registrations(Single(defs), 0) == [];
  }

  lemma SingleHasNoOwners(defs: seq<ProviderDef>)
    ensures OwnersSound(Single(defs))
  {
    var graph := Single(defs);
    assert Messages(graph)[..0] == [] && Messages(graph)[0] == [];
  }

  /** What an override whose own dependencies are met gets past the first validation. */
  lemma StandInAccepted(defs: seq<ProviderDef>, instances: set<Id>)
    requires defs == [NEEDY] || defs == [NEEDY, BACK]
    ensures Startable(Single(defs), FirstView(instances, map[2 := STAND_IN]))
    ensures NoDuplicates(Definitions(Single(defs)), NoContainer)
  {
    hide OwnersSound, Schedule, DependencyCycleFree, Startable, ByType, LastByType, Registrations;
    var graph, view := Single(defs), FirstView(instances, map[2 := STAND_IN]);
    SingleDefinitions(defs);
    SingleHasNoOwners(defs);
    assert 0 < |defs| && graph[0].definitions == defs;
    assert defs == [NEEDY, BACK] ==> Local(graph, 0, 2) by { assert NEEDY in defs; }
    assert DependenciesMet(graph, Definitions(graph), view);
    StandInHasNoCycle(defs);
    StartableExactly(graph, view);
  }

  lemma StandInHasNoCycle(defs: seq<ProviderDef>)
    requires defs == [NEEDY] || defs == [NEEDY, BACK]
    ensures DependencyCycleFree(ContextOf(Single(defs), map[2 := STAND_IN]))
  {
    hide Acyclic, LastByType, Registrations, DependencyEdges, Edge, Topological;
    SingleDefinitions(defs);
    var c := ContextOf(Single(defs), map[2 := STAND_IN]);
    StandInOrder(defs);
    forall t | t in c.byType ensures Acyclic(DependencyEdges(c), t) {
      assert TypeOf(c, c.byType[t]) == t && t in [2, 3];
      TopologicalIsAcyclic(DependencyEdges(c), [2, 3], t);
    }
  }

  lemma StandInOrder(defs: seq<ProviderDef>)
    requires defs == [NEEDY] || defs == [NEEDY, BACK]
    ensures Topological(DependencyEdges(ContextOf(Single(defs), map[2 := STAND_IN])), [2, 3])
  {
    hide LastByType, Registrations, DependencyEdges, Edge, ByType;
    SingleDefinitions(defs);
    var c := ContextOf(Single(defs), map[2 := STAND_IN]);
    forall i, b | 0 <= i < 2 && Edge(DependencyEdges(c), [2, 3][i], b) ensures b in [2, 3][..i] {
      EdgeHasRegistration(c, [2, 3][i], b);
      var k :| 0 <= k < |c.registrations| && TypeOf(c, k) == [2, 3][i] && b in Dependencies(c, k);
      assert TypeOf(c, 0) == 2 && Dependencies(c, 0) == [];
      assert k == i == 1 && Dependencies(c, 1) == [2] && [2, 3][..1] == [2];
    }
  }

  /** An override cannot rescue a provider whose own dependency is missing, although the first
      validation, reading the override, accepts it. */
  lemma OverrideCannotRescue(instances: set<Id>)
    requires 2 !in instances && 3 !in instances
    ensures Startable(Single([NEEDY]), FirstView(instances, map[2 := STAND_IN]))
    ensures !Buildable(Single([NEEDY]), instances, map[2 := STAND_IN])
  {
    hide Startable, Buildable, Visible, Registrations, BootstrapsSucceed, HooksSucceed, HandlersRegister, GatewaysSound,
      OwnCycleFree, Scheduled;
    var graph := Single([NEEDY]);
    StandInAccepted([NEEDY], instances);
    SingleDefinitions([NEEDY]);
    assert Definitions(graph)[0] in Definitions(graph) && 3 in NEEDY.dependencies;
    assert !DependencyMet(graph, Definitions(graph), FirstView(instances, map[]), 0, 3);
    BuildableWithOverrides(graph, instances, map[2 := STAND_IN]);
  }

  /** Nor can it break a circle its provider is part of. */
  lemma OverrideCannotBreakCycle(instances: set<Id>)
    ensures Startable(Single([NEEDY, BACK]), FirstView(instances, map[2 := STAND_IN]))
    ensures !Buildable(Single([NEEDY, BACK]), instances, map[2 := STAND_IN])
  {
    hide Startable, Buildable, BootstrapsSucceed, HooksSucceed, HandlersRegister, GatewaysSound, OwnDependenciesMet,
      Scheduled, OwnCycleFree;
    StandInAccepted([NEEDY, BACK], instances);
    BackToBack();
    BuildableWithOverrides(Single([NEEDY, BACK]), instances, map[2 := STAND_IN]);
  }

  lemma BackToBack()
    ensures !OwnCycleFree(Single([NEEDY, BACK]))
  {
    hide LastByType, Registrations, DependencyEdges, DependencyCycleFree, Edge;
    var defs := [NEEDY, BACK];
    SingleDefinitions(defs);
    var c := ContextOf(Single(defs), map[]);
    assert TypeOf(c, 0) == 2 && TypeOf(c, 1) == 3;
    TypeRegistered(c, 0);
    TypeRegistered(c, 1);
    DependencyEdge(c, 0, 3);
    DependencyEdge(c, 1, 2);
    var path := [2, 3, 2];
    assert path[..2] == [2, 3] && Path(DependencyEdges(c), path);
    CycleStartsAtDeclaredType(c, path);
  }
}
