/** Startup's checks on a discovered module list: one registration per provider type, exports
    and visibility, event handlers, message owners, and an order to construct providers in. */
module ProviderGraph {
  import opened Wrappers
  import opened Graphs
  import opened MessageOwners

  const LOGGER: Id := 0
  const EVENT_BUS: Id := 1

  /** Whether each of a provider's functions succeeds in the run considered. */
  datatype Hooks = Hooks(build: bool, init: bool, bootstrap: bool, shutdown: bool)

  datatype ProviderDef = ProviderDef(id: Id, dependencies: seq<Id>, hooks: Hooks)

  datatype EventHandlerDef = EventHandlerDef(id: Id, registers: bool)

  datatype Gateway = Gateway(path: string, webSocket: bool)

  /** A discovered module. `definitions` holds the provider definitions of its providers,
      controllers, gateways and microservices, in that order; imports are positions. */
  datatype ModuleNode = ModuleNode(imports: seq<nat>, definitions: seq<ProviderDef>, exports: seq<Id>, isGlobal: bool,
                                   eventHandlers: seq<EventHandlerDef>, messages: seq<Handler>, gateways: seq<Gateway>)

  type Graph = seq<ModuleNode>

  /** What discovery guarantees. */
  ghost predicate ImportsEarlier(graph: Graph) {
    forall m :: 0 <= m < |graph| ==> forall i <- graph[m].imports :: i < m
  }

  /** A provider definition and the module declaring it. */
  datatype Registration = Registration(owner: nat, def: ProviderDef)

  /** What a container contributes; checking without one is checking against `NoContainer`. */
  datatype View = View(services: set<Id>, pending: map<Id, ProviderDef>, applied: set<Id>)

  const NoContainer := View({}, map[], {})

  datatype StartupError =
    | DuplicateProvider(id: Id, existing: nat, owner: nat)
    | CannotExport(owner: nat, id: Id)
    | NotVisible(id: Id, dependency: Id, owner: nat)
    | MissingProvider(id: Id, dependency: Id)
    | UndeclaredEventHandler(id: Id)
    | NoEventBus(owner: nat)
    | MessageSubjects(error: OwnerError)
    | DependencyCycle(path: seq<Id>)

  // ---- Definitions --------------------------------------------------------

  function Registrations(graph: Graph, count: nat): (registrations: seq<Registration>)
    requires count <= |graph|
    ensures forall r <- registrations :: r.owner < count && r.def in graph[r.owner].definitions
    ensures forall m, d :: 0 <= m < count && d in graph[m].definitions ==> Registration(m, d) in registrations
  {
    if count == 0 then []
    else
      var m := count - 1;
      var own := seq(|graph[m].definitions|,
                     i requires 0 <= i < |graph[m].definitions| => Registration(m, graph[m].definitions[i]));
      assert forall d <- graph[m].definitions :: exists i :: 0 <= i < |own| && own[i] == Registration(m, d) by {
        forall d | d in graph[m].definitions ensures exists i :: 0 <= i < |own| && own[i] == Registration(m, d) {
          var i :| 0 <= i < |own| && graph[m].definitions[i] == d;
          assert own[i] == Registration(m, d);
        }
      }
      Registrations(graph, m) + own
  }

  function Definitions(graph: Graph): seq<Registration> { Registrations(graph, |graph|) }

  predicate Local(graph: Graph, m: nat, id: Id)
    requires m < |graph|
  {
    exists d <- graph[m].definitions :: d.id == id
  }

  /** What is constructed for a registration: its override while one is pending. */
  function Effective(pending: map<Id, ProviderDef>, def: ProviderDef): ProviderDef {
    if def.id in pending then pending[def.id] else def
  }

  predicate Overridden(view: View, id: Id) { id in view.pending || id in view.applied }

  /** The last registration of each type. */
  ghost predicate ByType(registrations: seq<Registration>, byType: map<Id, nat>) {
    && (forall i :: 0 <= i < |registrations| ==> registrations[i].def.id in byType)
    && (forall t <- byType :: byType[t] < |registrations| && registrations[byType[t]].def.id == t
                              && forall i :: byType[t] < i < |registrations| ==> registrations[i].def.id != t)
  }

  /** Only overridden types may be registered more than once. */
  ghost predicate NoDuplicates(registrations: seq<Registration>, view: View) {
    forall i, j :: 0 <= i < j < |registrations| && registrations[i].def.id == registrations[j].def.id ==>
      Overridden(view, registrations[i].def.id)
  }

  /** A reported duplicate is one. */
  ghost predicate DuplicateHolds(registrations: seq<Registration>, view: View, error: StartupError) {
    && error.DuplicateProvider? && !Overridden(view, error.id)
    && exists i, j :: 0 <= i < j < |registrations|
                      && registrations[i] == Registration(error.existing, registrations[i].def)
                      && registrations[j] == Registration(error.owner, registrations[j].def)
                      && registrations[i].def.id == registrations[j].def.id == error.id
  }

  method IndexByType(registrations: seq<Registration>, view: View)
    returns (error: Option<StartupError>, byType: map<Id, nat>)
    ensures error.None? <==> NoDuplicates(registrations, view)
    ensures error.None? ==> ByType(registrations, byType)
    ensures error.Some? ==> DuplicateHolds(registrations, view, error.value)
  {
    byType := map[];
    for i := 0 to |registrations|
      invariant ByType(registrations[..i], byType) && NoDuplicates(registrations[..i], view)
    {
      assert registrations[..i + 1] == registrations[..i] + [registrations[i]];
      var id := registrations[i].def.id;
      if id in byType && !Overridden(view, id) {
        assert byType[id] < i && registrations[byType[id]].def.id == id;
        return Some(DuplicateProvider(id, registrations[byType[id]].owner, registrations[i].owner)), byType;
      }
      byType := byType[id := i];
    }
    assert registrations[..|registrations|] == registrations;
    error := None;
  }

  // ---- Exports and visibility ---------------------------------------------

  predicate ImportExports(graph: Graph, m: nat, id: Id)
    requires m < |graph|
  {
    exists child <- graph[m].imports :: child < |graph| && id in graph[child].exports
  }

  ghost predicate UnsoundExport(graph: Graph, m: nat, id: Id) {
    m < |graph| && id in graph[m].exports && !Local(graph, m, id) && !ImportExports(graph, m, id)
  }

  /** A module may export what it declares and what its direct imports export. */
  ghost predicate ExportsSound(graph: Graph) {
    forall m :: 0 <= m < |graph| ==> forall id <- graph[m].exports :: Local(graph, m, id) || ImportExports(graph, m, id)
  }

  predicate GlobalExport(graph: Graph, id: Id) {
    exists node <- graph :: node.isGlobal && id in node.exports
  }

  predicate Visible(graph: Graph, m: nat, id: Id)
    requires m < |graph|
  {
    Local(graph, m, id) || GlobalExport(graph, id) || ImportExports(graph, m, id)
  }

  /** A chain of modules, each importing the next, all exporting `id`, the last declaring it. */
  ghost predicate ExportChain(graph: Graph, chain: seq<nat>, id: Id) {
    && chain != []
    && (forall k :: 0 <= k < |chain| ==> chain[k] < |graph| && id in graph[chain[k]].exports)
    && (forall k :: 0 < k < |chain| ==> chain[k] in graph[chain[k - 1]].imports)
    && Local(graph, chain[|chain| - 1], id)
  }

  lemma {:induction false} ExportHasChain(graph: Graph, m: nat, id: Id) returns (chain: seq<nat>)
    requires ImportsEarlier(graph) && ExportsSound(graph) && m < |graph| && id in graph[m].exports
    ensures ExportChain(graph, chain, id) && chain[0] == m
  {
    if Local(graph, m, id) {
      chain := [m];
    } else {
      var child :| child in graph[m].imports && child < |graph| && id in graph[child].exports;
      var rest := ExportHasChain(graph, child, id);
      chain := [m] + rest;
    }
  }

  /** Whatever is visible in a module is declared there, or by a module a chain of exports leads to. */
  lemma VisibleIsDeclared(graph: Graph, m: nat, id: Id) returns (chain: seq<nat>)
    requires ImportsEarlier(graph) && ExportsSound(graph) && m < |graph| && Visible(graph, m, id)
    ensures Local(graph, m, id) || ExportChain(graph, chain, id)
    ensures Local(graph, m, id) || chain[0] in graph[m].imports || graph[chain[0]].isGlobal
  {
    chain := [];
    if !Local(graph, m, id) {
      var start: nat;
      if GlobalExport(graph, id) {
        var node :| node in graph && node.isGlobal && id in node.exports;
        start :| start < |graph| && graph[start] == node;
      } else {
        var child :| child in graph[m].imports && child < |graph| && id in graph[child].exports;
        start := child;
      }
      chain := ExportHasChain(graph, start, id);
    }
  }

  lemma ImportedExactly(graph: Graph, m: nat, exports: seq<set<Id>>, id: Id)
    requires ImportsEarlier(graph) && |exports| == m < |graph|
    requires forall k :: 0 <= k < m ==> (id in exports[k] <==> id in graph[k].exports)
    ensures (exists child <- graph[m].imports :: child < m && id in exports[child]) <==> ImportExports(graph, m, id)
  {
  }

  /** Collects each module's exports, imported modules first. */
  method CheckExports(graph: Graph) returns (error: Option<StartupError>)
    requires ImportsEarlier(graph)
    ensures error.None? <==> ExportsSound(graph)
    ensures error.Some? ==> error.value.CannotExport? && UnsoundExport(graph, error.value.owner, error.value.id)
  {
    hide Local, ImportExports;
    var exports: seq<set<Id>> := [];
    for m := 0 to |graph|
      invariant |exports| == m
      invariant forall k :: 0 <= k < m ==> forall id :: id in exports[k] <==> id in graph[k].exports
      invariant forall k :: 0 <= k < m ==>
                  forall id <- graph[k].exports :: Local(graph, k, id) || ImportExports(graph, k, id)
    {
      var own: set<Id> := {};
      for e := 0 to |graph[m].exports|
        invariant forall id :: id in own <==> id in graph[m].exports[..e]
        invariant forall id <- graph[m].exports[..e] :: Local(graph, m, id) || ImportExports(graph, m, id)
      {
        var id := graph[m].exports[e];
        var imported := exists child <- graph[m].imports :: child < m && id in exports[child];
        ImportedExactly(graph, m, exports, id);
        if !Local(graph, m, id) && !imported {
          assert id in graph[m].exports;
          return Some(CannotExport(m, id));
        }
        own := own + {id};
      }
      assert graph[m].exports[..|graph[m].exports|] == graph[m].exports;
      exports := exports + [own];
    }
    error := None;
  }

  ghost predicate DependencyMet(graph: Graph, registrations: seq<Registration>, view: View, owner: nat, dependency: Id)
    requires owner < |graph|
  {
    || dependency == LOGGER
    || (if exists r <- registrations :: r.def.id == dependency then Visible(graph, owner, dependency)
        else dependency in view.services)
  }

  ghost predicate DependenciesMet(graph: Graph, registrations: seq<Registration>, view: View) {
    forall r <- registrations :: r.owner < |graph| ==>
      forall d <- Effective(view.pending, r.def).dependencies :: DependencyMet(graph, registrations, view, r.owner, d)
  }

  /** A reported dependency is one that is not met. */
  ghost predicate UnmetDependency(graph: Graph, registrations: seq<Registration>, view: View, error: StartupError) {
    (error.NotVisible? || error.MissingProvider?) &&
    exists r <- registrations ::
      && r.owner < |graph|
      && Effective(view.pending, r.def).id == error.id
      && error.dependency in Effective(view.pending, r.def).dependencies
      && !DependencyMet(graph, registrations, view, r.owner, error.dependency)
      && (error.NotVisible? ==> error.owner == r.owner && exists q <- registrations :: q.def.id == error.dependency)
      && (error.MissingProvider? ==> forall q <- registrations :: q.def.id != error.dependency)
  }

  method CheckDependencies(graph: Graph, registrations: seq<Registration>, byType: map<Id, nat>, view: View)
    returns (error: Option<StartupError>)
    requires ByType(registrations, byType) && forall r <- registrations :: r.owner < |graph|
    ensures error.None? <==> DependenciesMet(graph, registrations, view)
    ensures error.Some? ==> UnmetDependency(graph, registrations, view, error.value)
  {
    hide Visible;
    for i := 0 to |registrations|
      invariant forall k :: 0 <= k < i ==> forall d <- Effective(view.pending, registrations[k].def).dependencies ::
        DependencyMet(graph, registrations, view, registrations[k].owner, d)
    {
      var r := registrations[i];
      var effective := Effective(view.pending, r.def);
      for k := 0 to |effective.dependencies|
        invariant forall d <- effective.dependencies[..k] :: DependencyMet(graph, registrations, view, r.owner, d)
      {
        var d := effective.dependencies[k];
        DeclaredByType(registrations, byType, d);
        if d == LOGGER {
        } else if d in byType {
          if !Visible(graph, r.owner, d) {
            assert r in registrations && d in effective.dependencies;
            assert !DependencyMet(graph, registrations, view, r.owner, d);
            return Some(NotVisible(effective.id, d, r.owner));
          }
        } else if d !in view.services {
          assert r in registrations && d in effective.dependencies;
          assert !DependencyMet(graph, registrations, view, r.owner, d);
          return Some(MissingProvider(effective.id, d));
        }
      }
      assert effective.dependencies[..|effective.dependencies|] == effective.dependencies;
    }
    error := None;
  }

  lemma DeclaredByType(registrations: seq<Registration>, byType: map<Id, nat>, id: Id)
    requires ByType(registrations, byType)
    ensures id in byType <==> exists r <- registrations :: r.def.id == id
  {
    if id in byType {
      assert registrations[byType[id]] in registrations;
    }
  }

  ghost predicate EventHandlersMet(graph: Graph) {
    forall m :: 0 <= m < |graph| ==>
      forall h <- graph[m].eventHandlers :: Local(graph, m, h.id) && Visible(graph, m, EVENT_BUS)
  }

  ghost predicate UnmetEventHandler(graph: Graph, error: StartupError) {
    || (error.UndeclaredEventHandler?
        && exists m ::
             0 <= m < |graph| && !Local(graph, m, error.id) && exists h <- graph[m].eventHandlers :: h.id == error.id)
    || (error.NoEventBus? && error.owner < |graph| && graph[error.owner].eventHandlers != []
        && !Visible(graph, error.owner, EVENT_BUS))
  }

  method CheckEventHandlers(graph: Graph) returns (error: Option<StartupError>)
    ensures error.None? <==> EventHandlersMet(graph)
    ensures error.Some? ==> UnmetEventHandler(graph, error.value)
  {
    hide Local, Visible;
    for m := 0 to |graph|
      invariant forall k :: 0 <= k < m ==>
                  forall h <- graph[k].eventHandlers :: Local(graph, k, h.id) && Visible(graph, k, EVENT_BUS)
    {
      for i := 0 to |graph[m].eventHandlers|
        invariant forall h <- graph[m].eventHandlers[..i] :: Local(graph, m, h.id) && Visible(graph, m, EVENT_BUS)
      {
        var h := graph[m].eventHandlers[i];
        assert h in graph[m].eventHandlers;
        if !Local(graph, m, h.id) {
          return Some(UndeclaredEventHandler(h.id));
        }
        if !Visible(graph, m, EVENT_BUS) {
          return Some(NoEventBus(m));
        }
      }
      assert graph[m].eventHandlers[..|graph[m].eventHandlers|] == graph[m].eventHandlers;
    }
    error := None;
  }
}
