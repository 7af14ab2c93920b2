/** The whole of startup's metadata validation, with and without a container. */
module Preflight {
  import opened Wrappers
  import opened Graphs
  import opened MessageOwners
  import opened ProviderGraph
  import opened ProviderSchedule

  /** The position of the last registration of each type. */
  ghost function LastByType(registrations: seq<Registration>): map<Id, nat> {
    if registrations == [] then map[]
    else
      var n := |registrations| - 1;
      LastByType(registrations[..n])[registrations[n].def.id := n]
  }

  lemma {:induction false} LastByTypeIndexes(registrations: seq<Registration>)
    ensures ByType(registrations, LastByType(registrations))
  {
    if registrations != [] {
      var n := |registrations| - 1;
      LastByTypeIndexes(registrations[..n]);
      IndexedNext(registrations, LastByType(registrations[..n]));
    }
  }

  lemma IndexedNext(registrations: seq<Registration>, byType: map<Id, nat>)
    requires registrations != [] && ByType(registrations[..|registrations| - 1], byType)
    ensures ByType(registrations, byType[registrations[|registrations| - 1].def.id := |registrations| - 1])
  {
    var n := |registrations| - 1;
    assert forall i :: 0 <= i < n ==> registrations[..n][i] == registrations[i];
  }

  lemma ByTypeIsUnique(registrations: seq<Registration>, a: map<Id, nat>, b: map<Id, nat>)
    requires ByType(registrations, a) && ByType(registrations, b)
    ensures a == b
  {
    forall t | t in a ensures t in b && a[t] == b[t] {
      assert registrations[a[t]].def.id == t;
      assert t in b && !(a[t] < b[t]) && !(b[t] < a[t]);
    }
    forall t | t in b ensures t in a {
      assert registrations[b[t]].def.id == t;
    }
  }

  ghost function ContextOf(graph: Graph, pending: map<Id, ProviderDef>): (c: Context)
    ensures ValidContext(c)
  {
    LastByTypeIndexes(Definitions(graph));
    Context(Definitions(graph), LastByType(Definitions(graph)), pending)
  }

  function Messages(graph: Graph): seq<seq<Handler>> { seq(|graph|, m requires 0 <= m < |graph| => graph[m].messages) }

  ghost predicate OwnersSound(graph: Graph) {
    (forall h <- Flatten(Messages(graph)) :: ValidHandler(h)) && SoleOwners(Flatten(Messages(graph)))
  }

  /** Everything startup requires of a graph before it constructs anything. */
  ghost predicate Startable(graph: Graph, view: View) {
    && NoDuplicates(Definitions(graph), view)
    && ExportsSound(graph)
    && DependenciesMet(graph, Definitions(graph), view)
    && EventHandlersMet(graph)
    && OwnersSound(graph)
    && Schedule(ContextOf(graph, view.pending)).Ok?
  }

  /** A refusal names something that is indeed wrong. */
  ghost predicate Explains(graph: Graph, view: View, error: StartupError) {
    match error
    case DuplicateProvider(_, _, _) => DuplicateHolds(Definitions(graph), view, error)
    case CannotExport(owner, id) => UnsoundExport(graph, owner, id)
    case NotVisible(_, _, _) => UnmetDependency(graph, Definitions(graph), view, error)
    case MissingProvider(_, _) => UnmetDependency(graph, Definitions(graph), view, error)
    case UndeclaredEventHandler(_) => UnmetEventHandler(graph, error)
    case NoEventBus(_) => UnmetEventHandler(graph, error)
    case MessageSubjects(conflict) => Conflict(Messages(graph), conflict)
    case DependencyCycle(path) => path != [] && Cycle(DependencyEdges(ContextOf(graph, view.pending)), path, path[0])
  }

  method Preflight(graph: Graph, view: View) returns (r: Result<seq<nat>, StartupError>)
    requires ImportsEarlier(graph)
    ensures r.Ok? <==> Startable(graph, view)
    ensures r.Ok? ==> Schedule(ContextOf(graph, view.pending)) == Ok(r.value)
    ensures r.Err? ==> Explains(graph, view, r.error)
  {
    hide Cycle, DependencyEdges, Conflict, DependencyMet, UnsoundExport;
    hide NoDuplicates, ExportsSound, DependenciesMet, EventHandlersMet, ByType, Schedule, SoleOwners, ValidHandler,
      Registrations, LastByType;
    var registrations := Definitions(graph);
    var error, byType := IndexByType(registrations, view);
    if error.Some? {
      return Err(error.value);
    }
    error := CheckExports(graph);
    if error.Some? {
      return Err(error.value);
    }
    error := CheckDependencies(graph, registrations, byType, view);
    if error.Some? {
      return Err(error.value);
    }
    error := CheckEventHandlers(graph);
    if error.Some? {
      return Err(error.value);
    }
    var ownership := CheckMessageOwners(Messages(graph));
    if ownership.Some? {
      return Err(MessageSubjects(ownership.value));
    }
    LastByTypeIndexes(registrations);
    ByTypeIsUnique(registrations, byType, LastByType(registrations));
    var scheduler := new Scheduler(Context(registrations, byType, view.pending));
    var scheduled := scheduler.Run();
    if scheduled.Err? {
      ScheduleSound(ContextOf(graph, view.pending));
      return Err(DependencyCycle(scheduled.error));
    }
    return Ok(scheduled.value);
  }

  /** Before any override has been applied the schedule exists exactly when no effective
      dependencies of declared types run in a circle. */
  lemma StartableExactly(graph: Graph, view: View)
    requires view.applied == {}
    ensures Startable(graph, view) <==>
              && NoDuplicates(Definitions(graph), view) && ExportsSound(graph)
              && DependenciesMet(graph, Definitions(graph), view) && EventHandlersMet(graph) && OwnersSound(graph)
              && DependencyCycleFree(ContextOf(graph, view.pending))
  {
    hide ExportsSound, DependenciesMet, EventHandlersMet, OwnersSound, DependencyCycleFree, Schedule, ByType,
      Registrations, LastByType, NoDuplicates;
    var c := ContextOf(graph, view.pending);
    if NoDuplicates(Definitions(graph), view) {
      UniformBeforeOverridesApply(c, view);
      ScheduleExact(c);
    }
  }

  /** Without overrides a container can only help: what passes with fewer services passes with more. */
  lemma MoreServicesKeepStartable(graph: Graph, services: set<Id>, more: set<Id>)
    requires services <= more && Startable(graph, View(services, map[], {}))
    ensures Startable(graph, View(more, map[], {}))
  {
    hide ExportsSound, EventHandlersMet, OwnersSound, Schedule, ByType, Registrations, LastByType, Visible;
    var registrations := Definitions(graph);
    forall r | r in registrations && r.owner < |graph|
      ensures forall d <- Effective(map[], r.def).dependencies ::
                DependencyMet(graph, registrations, View(more, map[], {}), r.owner, d)
    {
      assert forall d <- Effective(map[], r.def).dependencies ::
          DependencyMet(graph, registrations, View(services, map[], {}), r.owner, d);
    }
  }

  // ---- Gateways -----------------------------------------------------------

  function Gateways(graph: Graph): seq<Gateway> {
    if graph == [] then [] else Gateways(graph[..|graph| - 1]) + graph[|graph| - 1].gateways
  }

  /** Absolute paths, at most one gateway of each kind on each. */
  ghost predicate GatewaysSound(gateways: seq<Gateway>) {
    && (forall g <- gateways :: g.path != "" && g.path[0] == '/')
    && forall i, j :: 0 <= i < j < |gateways| ==> gateways[i] != gateways[j]
  }

  lemma {:induction false} GatewaysPrefix(graph: Graph, m: nat, g: nat)
    requires m < |graph| && g <= |graph[m].gateways|
    ensures Gateways(graph[..m]) + graph[m].gateways[..g] <= Gateways(graph)
    decreases |graph| - m
  {
    assert graph[..m + 1][..m] == graph[..m];
    if m + 1 == |graph| {
      assert graph[..m + 1] == graph;
    } else {
      GatewaysPrefix(graph, m + 1, 0);
      assert graph[m + 1].gateways[..0] == [];
    }
  }

  /** The path set of the gateways checked so far, none of them objectionable. */
  ghost predicate Checked(seen: seq<Gateway>, paths: set<(string, bool)>) {
    GatewaysSound(seen) && forall path, webSocket :: (path, webSocket) in paths <==> Gateway(path, webSocket) in seen
  }

  method CheckGatewayPaths(graph: Graph) returns (bad: Option<Gateway>)
    ensures bad.None? <==> GatewaysSound(Gateways(graph))
    ensures bad.Some? ==> bad.value in Gateways(graph)
  {
    hide GatewaysSound, Checked;
    var paths: set<(string, bool)> := {};
    assert Checked([], paths) by { NothingChecked(); }
    for m := 0 to |graph|
      invariant Checked(Gateways(graph[..m]), paths)
    {
      ghost var before := Gateways(graph[..m]);
      assert graph[..m + 1][..m] == graph[..m];
      assert before + graph[m].gateways[..0] == before;
      for i := 0 to |graph[m].gateways|
        invariant Checked(before + graph[m].gateways[..i], paths)
      {
        var g := graph[m].gateways[i];
        ghost var seen := before + graph[m].gateways[..i];
        GatewaysPrefix(graph, m, i + 1);
        assert before + graph[m].gateways[..i + 1] == seen + [g];
        CheckedNext(seen, paths, g, Gateways(graph));
        if g.path == "" || g.path[0] != '/' {
          return Some(g);
        }
        if (g.path, g.webSocket) in paths {
          return Some(g);
        }
        paths := paths + {(g.path, g.webSocket)};
      }
      assert graph[m].gateways[..|graph[m].gateways|] == graph[m].gateways;
    }
    assert graph[..|graph|] == graph;
    assert GatewaysSound(Gateways(graph)) by { CheckedIsSound(Gateways(graph), paths); }
    return None;
  }

  lemma NothingChecked()
    ensures Checked([], {})
  {
  }

  lemma CheckedIsSound(seen: seq<Gateway>, paths: set<(string, bool)>)
    requires Checked(seen, paths)
    ensures GatewaysSound(seen)
  {
  }

  lemma CheckedNext(seen: seq<Gateway>, paths: set<(string, bool)>, g: Gateway, all: seq<Gateway>)
    requires Checked(seen, paths) && seen + [g] <= all
    ensures g in all
    ensures g.path == "" || g.path[0] != '/' || (g.path, g.webSocket) in paths ==> !GatewaysSound(all)
    ensures g.path != "" && g.path[0] == '/' && (g.path, g.webSocket) !in paths ==>
              Checked(seen + [g], paths + {(g.path, g.webSocket)})
  {
    assert all[|seen|] == (seen + [g])[|seen|] == g;
    if (g.path, g.webSocket) in paths {
      assert Gateway(g.path, g.webSocket) == g;
      var i :| 0 <= i < |seen| && seen[i] == g;
      assert all[i] == (seen + [g])[i];
    }
  }

  /** Validation without a container; needs nothing constructed. */
  method ValidateModule(graph: Graph) returns (valid: bool)
    requires ImportsEarlier(graph)
    ensures valid <==> Startable(graph, NoContainer) && GatewaysSound(Gateways(graph))
  {
    hide Startable, GatewaysSound, Schedule, ImportsEarlier;
    var checked := Preflight(graph, NoContainer);
    if checked.Err? {
      return false;
    }
    var bad := CheckGatewayPaths(graph);
    return bad.None?;
  }
}
