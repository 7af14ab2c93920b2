/** What follows from the exact conditions under which a container is built. */
module StartupFacts {
  import opened Wrappers
  import opened Graphs
  import opened ProviderGraph
  import opened ProviderSchedule
  import opened Preflight
  import opened Traces
  import opened Lifecycle
  import opened Startup
  import ModuleDiscovery

  /** Discovery delivers what every operation here requires of a graph. */
  lemma DiscoveredImportsEarlier(u: ModuleDiscovery.Universe, root: Id, nodes: seq<ModuleDiscovery.Node>, graph: Graph)
    requires ModuleDiscovery.Sorted(u, root, nodes) && |graph| == |nodes|
    requires forall m :: 0 <= m < |graph| ==> graph[m].imports == nodes[m].imports
    ensures ImportsEarlier(graph)
  {
    hide ModuleDiscovery.FullyResolved, Reaches;
  }

  /** After a successful build, providers are shut down before the providers they depend on. */
  lemma DependentsStopFirst(graph: Graph, services: set<Id>, initialized: seq<Id>, r: Registration, d: Id)
    requires DependenciesBefore(graph, initialized) && forall id <- initialized :: Stoppable(graph, services, id)
    requires r in Definitions(graph) && r.def.id in initialized && d in r.def.dependencies && d in initialized
    ensures Before(Called(StopCalls(graph, services, initialized), Shutdown), r.def.id, d)
  {
    hide StopCalls, Registrations, Before, Called, Stoppable;
    StopsInReverse(graph, services, initialized);
    BeforeReversed(initialized, r.def.id, d);
  }

  // ---- Without overrides --------------------------------------------------

  /** No function the application supplies fails. */
  ghost predicate AllSucceed(graph: Graph, instances: set<Id>) {
    && (forall r <- Definitions(graph) :: r.def.id !in instances && r.def.id != LOGGER ==>
          r.def.hooks.build && r.def.hooks.init && r.def.hooks.bootstrap)
    && forall node <- graph :: forall h <- node.eventHandlers :: h.registers
  }

  lemma VisibleTypeIsDeclared(graph: Graph, m: nat, id: Id)
    requires ImportsEarlier(graph) && ExportsSound(graph) && m < |graph| && Visible(graph, m, id)
    ensures id in DeclaredTypes(graph)
  {
    hide Visible, ExportsSound, ImportsEarlier;
    var chain := VisibleIsDeclared(graph, m, id);
    if Local(graph, m, id) {
      LocalIsDeclared(graph, m, id);
    } else {
      LocalIsDeclared(graph, chain[|chain| - 1], id);
    }
  }

  lemma LocalIsDeclared(graph: Graph, m: nat, id: Id)
    requires m < |graph| && Local(graph, m, id)
    ensures id in DeclaredTypes(graph)
  {
    var d :| d in graph[m].definitions && d.id == id;
    assert Registration(m, d) in Definitions(graph);
  }

  /** An event handler and the bus it listens on are always there to be resolved. */
  lemma HandlersResolve(graph: Graph, services: set<Id>)
    requires ImportsEarlier(graph) && ExportsSound(graph) && EventHandlersMet(graph) && DeclaredTypes(graph) <= services
    ensures HandlersRegister(graph, services) <==> forall node <- graph :: forall h <- node.eventHandlers :: h.registers
  {
    hide Local, Visible, ExportsSound, ImportsEarlier, DeclaredTypes;
    forall m, h | 0 <= m < |graph| && h in graph[m].eventHandlers ensures h.id in services && EVENT_BUS in services {
      LocalIsDeclared(graph, m, h.id);
      VisibleTypeIsDeclared(graph, m, EVENT_BUS);
    }
  }

  lemma HooksOfDefinitions(graph: Graph, instances: set<Id>)
    requires Startable(graph, FirstView(instances, map[]))
    ensures (forall r <- Definitions(graph) :: r.def.id !in instances && r.def.id != LOGGER ==>
               r.def.hooks.build && r.def.hooks.init && r.def.hooks.bootstrap)
            <==>
            && HooksSucceed(Scheduled(graph, map[]), FirstView(instances, map[]))
            && BootstrapsSucceed(Scheduled(graph, map[]), OwnTypes(graph, instances, map[]),
                                 LastView(graph, instances, map[]).services)
  {
    hide Startable, Scheduled, Registrations, Schedule, LastByType;
    SameDefinitions(graph, instances);
  }

  /** Without overrides it is the definitions as written that are scheduled. */
  lemma SameDefinitions(graph: Graph, instances: set<Id>)
    requires Startable(graph, FirstView(instances, map[]))
    ensures forall r <- Definitions(graph) :: r.def in Scheduled(graph, map[])
    ensures forall d <- Scheduled(graph, map[]) :: exists r <- Definitions(graph) :: r.def == d
  {
    hide Startable, Scheduled, Registrations, DeclaredFirst, Schedule, LastByType, ExportsSound, EventHandlersMet,
      DistinctTypes;
    var view, defs := FirstView(instances, map[]), Scheduled(graph, map[]);
    assert Schedule(ContextOf(graph, map[])).Ok? by { StartableSchedules(graph, view); }
    ScheduledIsOrder(graph, map[]);
    forall r | r in Definitions(graph) ensures r.def in defs {
      var k := ScheduledPosition(graph, map[], r.def.id);
      OwnDefinitionIsScheduled(graph, view, r, k);
    }
    forall d | d in defs ensures exists r <- Definitions(graph) :: r.def == d {
    }
  }

  lemma StartableSchedules(graph: Graph, view: View)
    requires Startable(graph, view)
    ensures Schedule(ContextOf(graph, view.pending)).Ok? && ExportsSound(graph) && EventHandlersMet(graph)
  {
  }

  /** Without overrides the second validation repeats the first and cannot fail, so only the
      application's own functions and the gateway paths decide; and providers are bootstrapped in
      the order they were initialized in. */
  lemma WithoutOverrides(graph: Graph, instances: set<Id>)
    requires ImportsEarlier(graph)
    ensures Buildable(graph, instances, map[]) <==>
              && Startable(graph, FirstView(instances, map[])) && AllSucceed(graph, instances)
              && GatewaysSound(Gateways(graph))
    ensures forall initialized, bootstrapped, calls ::
              Started(graph, instances, map[], initialized, bootstrapped, calls) ==>
                Called(calls, Bootstrap) == Called(calls, Init)
  {
    hide Startable, Scheduled, Registrations, GatewaysSound, HooksSucceed, BootstrapsSucceed, HandlersRegister,
      ImportsEarlier, ExportsSound, EventHandlersMet, Keep, Called, Succeeded, DeclaredTypes;
    var first, last := FirstView(instances, map[]), LastView(graph, instances, map[]);
    if Startable(graph, first) {
      StartableSchedules(graph, first);
      HooksOfDefinitions(graph, instances);
      HandlersResolve(graph, last.services);
      assert last == View(last.services, map[], {});
      MoreServicesKeepStartable(graph, first.services, last.services);
    }
  }

  /** What metadata-only validation promises: afterwards only the application's own functions can
      make a build without overrides fail. */
  lemma ValidatedModuleBuilds(graph: Graph, instances: set<Id>)
    requires ImportsEarlier(graph) && Startable(graph, NoContainer) && GatewaysSound(Gateways(graph))
    ensures Buildable(graph, instances, map[]) <==> AllSucceed(graph, instances)
  {
    hide Startable, Buildable, GatewaysSound, AllSucceed;
    MoreServicesKeepStartable(graph, {}, instances + {LOGGER});
    WithoutOverrides(graph, instances);
  }
}
