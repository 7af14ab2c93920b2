/** Starting a module graph in a container. */
module Startup {
  import opened Wrappers
  import opened Graphs
  import opened ProviderGraph
  import opened ProviderSchedule
  import opened Preflight
  import opened Traces
  import opened Lifecycle

  // ---- Construction order -------------------------------------------------

  function DeclaredTypes(graph: Graph): set<Id> { set r <- Definitions(graph) :: r.def.id }

  function DefsAt(registrations: seq<Registration>, sorted: seq<nat>): (defs: seq<ProviderDef>)
    requires forall k :: 0 <= k < |sorted| ==> sorted[k] < |registrations|
    ensures |defs| == |sorted| && forall k :: 0 <= k < |sorted| ==> defs[k] == registrations[sorted[k]].def
  {
    seq(|sorted|, k requires 0 <= k < |sorted| && sorted[k] < |registrations| => registrations[sorted[k]].def)
  }

  /** The definitions startup goes through, in order. */
  ghost function Scheduled(graph: Graph, pending: map<Id, ProviderDef>): seq<ProviderDef> {
    var r := Schedule(ContextOf(graph, pending));
    if r.Ok? && forall k :: 0 <= k < |r.value| ==> r.value[k] < |Definitions(graph)|
    then DefsAt(Definitions(graph), r.value)
    else []
  }

  ghost predicate DeclaredFirst(declared: set<Id>, pending: map<Id, ProviderDef>, defs: seq<ProviderDef>) {
    forall i :: 0 <= i < |defs| ==>
      forall d <- Effective(pending, defs[i]).dependencies :: d in declared ==> d in TypeSet(defs[..i])
  }

  /** Every declared type once, each after the declared types it depends on. */
  ghost predicate OrderFor(graph: Graph, pending: map<Id, ProviderDef>, defs: seq<ProviderDef>) {
    && DistinctTypes(defs)
    && TypeSet(defs) == DeclaredTypes(graph)
    && (forall d <- defs :: exists r <- Definitions(graph) :: r.def == d)
    && DeclaredFirst(DeclaredTypes(graph), pending, defs)
  }

  lemma ScheduledIsOrder(graph: Graph, pending: map<Id, ProviderDef>)
    requires Schedule(ContextOf(graph, pending)).Ok?
    ensures var sorted := Schedule(ContextOf(graph, pending)).value;
            (forall k :: 0 <= k < |sorted| ==> sorted[k] < |Definitions(graph)|)
            && Scheduled(graph, pending) == DefsAt(Definitions(graph), sorted)
    ensures OrderFor(graph, pending, Scheduled(graph, pending))
  {
    hide Schedule, LastByType, Registrations, DeclaredFirst, Listed, ByType, Dependencies;
    var c := ContextOf(graph, pending);
    ScheduleSound(c);
    var sorted := Schedule(c).value;
    assert forall k :: 0 <= k < |sorted| ==> DependenciesListed(c, sorted[k], sorted[..k]);
    var defs := DefsAt(Definitions(graph), sorted);
    forall id ensures id in TypeSet(defs) <==> id in DeclaredTypes(graph) {
      assert sorted[..|sorted|] == sorted && defs[..|sorted|] == defs;
      ListedInDefs(c, sorted, defs, |sorted|, id);
      DeclaredByType(c.registrations, c.byType, id);
    }
    assert forall d <- defs :: exists r <- Definitions(graph) :: r.def == d by {
      forall d | d in defs ensures exists r <- Definitions(graph) :: r.def == d {
        var k :| 0 <= k < |defs| && defs[k] == d;
        assert Definitions(graph)[sorted[k]] in Definitions(graph);
      }
    }
    assert DeclaredFirst(DeclaredTypes(graph), pending, defs) by { ListedFirst(graph, pending, sorted, defs); }
  }

  lemma ListedInDefs(c: Context, sorted: seq<nat>, defs: seq<ProviderDef>, i: nat, id: Id)
    requires |defs| == |sorted| && i <= |sorted|
    requires forall k :: 0 <= k < |sorted| ==>
               sorted[k] < |c.registrations| && defs[k] == c.registrations[sorted[k]].def
    ensures id in TypeSet(defs[..i]) <==> Listed(c, sorted[..i], id)
  {
    if Listed(c, sorted[..i], id) {
      var k :| 0 <= k < i && HasType(c, sorted[..i][k], id);
      assert defs[..i][k] in defs[..i] && defs[k].id == id;
    }
    if id in TypeSet(defs[..i]) {
      var k :| 0 <= k < i && defs[..i][k].id == id;
      assert HasType(c, sorted[..i][k], id);
    }
  }

  lemma ListedFirst(graph: Graph, pending: map<Id, ProviderDef>, sorted: seq<nat>, defs: seq<ProviderDef>)
    requires Complete(ContextOf(graph, pending), sorted) && |defs| == |sorted|
    requires forall k :: 0 <= k < |sorted| ==>
               sorted[k] < |Definitions(graph)| && defs[k] == Definitions(graph)[sorted[k]].def
    ensures DeclaredFirst(DeclaredTypes(graph), pending, defs)
  {
    hide Listed, LastByType, Registrations;
    var c := ContextOf(graph, pending);
    forall i, d | 0 <= i < |defs| && d in Effective(pending, defs[i]).dependencies && d in DeclaredTypes(graph)
      ensures d in TypeSet(defs[..i])
    {
      assert DependenciesListed(c, sorted[i], sorted[..i]);
      DeclaredByType(c.registrations, c.byType, d);
      ListedInDefs(c, sorted, defs, i, d);
    }
  }

  method OrderProviders(graph: Graph, view: View) returns (r: Result<seq<ProviderDef>, StartupError>)
    requires ImportsEarlier(graph)
    ensures r.Ok? <==> Startable(graph, view)
    ensures r.Ok? ==> r.value == Scheduled(graph, view.pending) && OrderFor(graph, view.pending, r.value)
    ensures r.Err? ==> Explains(graph, view, r.error)
  {
    hide Explains, Startable, Schedule, OrderFor, Registrations, Scheduled;
    var checked := Preflight.Preflight(graph, view);
    if checked.Err? {
      return Err(checked.error);
    }
    ScheduledIsOrder(graph, view.pending);
    return Ok(DefsAt(Definitions(graph), checked.value));
  }

  // ---- Initialization -----------------------------------------------------

  /** The view after every type of `ids` has been constructed or found present. */
  ghost function InitializedView(view: View, ids: set<Id>): View {
    var added := ids - view.services - view.applied;
    View(view.services + added, view.pending - added, view.applied + added * view.pending.Keys)
  }

  /** Types constructed by their own definition. */
  ghost function Production(view: View, ids: set<Id>): set<Id> {
    ids - view.services - view.applied - view.pending.Keys
  }

  ghost predicate HooksSucceed(defs: seq<ProviderDef>, view: View) {
    forall d <- defs :: d.id !in view.services && d.id !in view.applied ==>
      Effective(view.pending, d).hooks.build && Effective(view.pending, d).hooks.init
  }

  /** Each dependency is there before its dependent is constructed. */
  ghost predicate Provided(defs: seq<ProviderDef>, view: View) {
    && LOGGER in view.services && view.applied <= view.services
    && forall i :: 0 <= i < |defs| ==>
         forall d <- Effective(view.pending, defs[i]).dependencies :: d in view.services || d in TypeSet(defs[..i])
  }

  lemma StartableProvides(graph: Graph, view: View)
    requires Startable(graph, view) && LOGGER in view.services && view.applied <= view.services
    ensures Provided(Scheduled(graph, view.pending), view)
  {
    hide Schedule, LastByType, Registrations, NoDuplicates, ExportsSound, EventHandlersMet, OwnersSound, Scheduled,
      Visible;
    ScheduledIsOrder(graph, view.pending);
    var defs := Scheduled(graph, view.pending);
    forall i, d | 0 <= i < |defs| && d in Effective(view.pending, defs[i]).dependencies
      ensures d in view.services || d in TypeSet(defs[..i])
    {
      assert defs[i] in defs;
      var r :| r in Definitions(graph) && r.def == defs[i];
      assert DependencyMet(graph, Definitions(graph), view, r.owner, d);
    }
  }

  /** What has happened once the providers `defs` are dealt with. */
  ghost predicate Constructed(defs: seq<ProviderDef>, own: set<Id>, start: View, view: View, calls: seq<Call>) {
    && view == InitializedView(start, TypeSet(defs))
    && Succeeded(calls, Init) == Called(calls, Init) == Keep(defs, own)
    && During(calls, 0)
    && HooksSucceed(defs, start)
  }

  lemma Skipped(defs: seq<ProviderDef>, next: ProviderDef, own: set<Id>, start: View, view: View, calls: seq<Call>)
    requires Constructed(defs, own, start, view, calls) && next.id !in TypeSet(defs)
    requires next.id in view.services || next.id in view.applied
    requires own !! (start.services + start.applied)
    ensures Constructed(defs + [next], own, start, view, calls) && Keep(defs + [next], own) == Keep(defs, own)
  {
    hide Keep, Succeeded, Called;
    KeepNext(defs, next, own);
    assert next.id in start.services || next.id in start.applied;
    var added := TypeSet(defs) - start.services - start.applied;
    assert added == TypeSet(defs + [next]) - start.services - start.applied;
  }

  ghost function ConstructedView(view: View, id: Id): View {
    View(view.services + {id}, view.pending - {id}, view.applied + if id in view.pending then {id} else {})
  }

  lemma NextView(defs: seq<ProviderDef>, next: ProviderDef, start: View, view: View)
    requires view == InitializedView(start, TypeSet(defs)) && next.id !in TypeSet(defs)
    requires next.id !in view.services && next.id !in view.applied
    ensures next.id in view.pending <==> next.id in start.pending
    ensures Effective(view.pending, next) == Effective(start.pending, next)
    ensures ConstructedView(view, next.id) == InitializedView(start, TypeSet(defs + [next]))
  {
    var added := TypeSet(defs) - start.services - start.applied;
    assert TypeSet(defs + [next]) == TypeSet(defs) + {next.id} by { KeepNext(defs, next, {}); }
    assert TypeSet(defs + [next]) - start.services - start.applied == added + {next.id};
    assert view.pending - {next.id} == start.pending - (added + {next.id});
  }

  lemma BuiltNext(calls: seq<Call>, built: Call, id: Id, own: bool, succeeded: bool)
    requires During(calls, 0) && built.Built?
    ensures During(calls + [built], 0) && Succeeded(calls + [built], Init) == Succeeded(calls, Init)
    ensures var more := calls + ([built] + [Ran(Init, id, own, succeeded)]);
            && During(more, 0)
            && Called(more, Init) == Called(calls, Init) + (if own then [id] else [])
            && Succeeded(more, Init) == Succeeded(calls, Init) + (if own && succeeded then [id] else [])
  {
    var short := calls + [built];
    var more := calls + ([built] + [Ran(Init, id, own, succeeded)]);
    assert short[..|calls|] == calls;
    assert more[..|more| - 1] == short;
  }

  lemma ConstructedNext(defs: seq<ProviderDef>, next: ProviderDef, own: set<Id>, start: View, view: View,
                        calls: seq<Call>, built: Call)
    requires Constructed(defs, own, start, view, calls) && next.id !in TypeSet(defs)
    requires next.id !in view.services && next.id !in view.applied
    requires next.id in own <==> next.id !in start.pending
    requires built.Built? && Effective(start.pending, next).hooks.build && Effective(start.pending, next).hooks.init
    ensures Constructed(defs + [next], own, start, ConstructedView(view, next.id),
                        calls + ([built] + [Ran(Init, next.id, next.id in own, true)]))
  {
    hide Keep, Succeeded, Called;
    NextView(defs, next, start, view);
    KeepNext(defs, next, own);
    BuiltNext(calls, built, next.id, next.id in own, true);
  }

  /** Constructs the providers in order, up to the first failure. */
  method ConstructAll(defs: seq<ProviderDef>, ghost own: set<Id>, container: Container)
    returns (failure: Option<Failure>, ghost calls: seq<Call>)
    requires container.Keyed() && DistinctTypes(defs) && own == Production(container.Sees(), TypeSet(defs))
    modifies container
    ensures container.Keyed() && container.bootstrapped == old(container.bootstrapped)
    ensures failure.None? <==> HooksSucceed(defs, old(container.Sees()))
    ensures failure.None? ==> Constructed(defs, own, old(container.Sees()), container.Sees(), calls)
    ensures failure.Some? ==> !failure.value.Refused?
    ensures During(calls, 0) && old(container.services) <= container.services
    ensures container.initialized == old(container.initialized) + Succeeded(calls, Init)
    ensures forall id <- Succeeded(calls, Init) :: id in TypeSet(defs) && id in container.services
    ensures Provided(defs, old(container.Sees())) ==> forall call <- calls :: Supplied(call)
  {
    hide Constructed, HooksSucceed, Keep, Called, Succeeded, InitializedView, Provided, Supplied, Effective;
    calls := [];
    ghost var start := container.Sees();
    NothingConstructed(own, start);
    assert defs[..0] == [];
    for i := 0 to |defs|
      invariant container.Keyed() && container.bootstrapped == old(container.bootstrapped)
      invariant Constructed(defs[..i], own, start, container.Sees(), calls)
      invariant container.initialized == old(container.initialized) + Keep(defs[..i], own)
      invariant Provided(defs, start) ==> forall call <- calls :: Supplied(call)
    {
      assert defs[..i + 1] == defs[..i] + [defs[i]];
      ghost var view := container.Sees();
      NextIsNew(defs, i);
      if defs[i].id !in container.services && defs[i].id !in container.applied {
        ghost var built;
        failure, built := container.Construct(defs[i]);
        NextSupplied(defs, i, own, start, view, calls, built);
        if failure.Some? {
          NextFailed(defs, i, own, start, view, calls, built);
          calls := calls + built;
          return;
        }
        NextSucceeded(defs, i, own, start, view, container.Sees(), calls, built);
        calls := calls + built;
      } else {
        Skipped(defs[..i], defs[i], own, start, view, calls);
      }
    }
    assert defs[..|defs|] == defs;
    failure := None;
    ConstructedFacts(defs, own, start, container.Sees(), calls);
  }

  lemma NothingConstructed(own: set<Id>, start: View)
    ensures Constructed([], own, start, start, []) && Keep([], own) == []
  {
    assert InitializedView(start, TypeSet([])) == start;
  }

  lemma NextIsNew(defs: seq<ProviderDef>, i: nat)
    requires DistinctTypes(defs) && i < |defs|
    ensures defs[i].id !in TypeSet(defs[..i]) && TypeSet(defs[..i]) <= TypeSet(defs) && defs[i].id in TypeSet(defs)
  {
  }

  lemma ConstructedFacts(defs: seq<ProviderDef>, own: set<Id>, start: View, view: View, calls: seq<Call>)
    requires Constructed(defs, own, start, view, calls)
    requires DistinctTypes(defs) && own !! start.services && own !! start.applied
    ensures During(calls, 0) && HooksSucceed(defs, start) && Succeeded(calls, Init) == Keep(defs, own)
    ensures start.services <= view.services
    ensures forall id <- Keep(defs, own) :: id in TypeSet(defs) && id in view.services
  {
    hide Keep, Succeeded, Called;
    KeepSelects(defs, own);
  }

  /** The calls made for one provider, its effective definition taken from `view`. */
  ghost predicate CallsFor(next: ProviderDef, view: View, calls: seq<Call>) {
    var effective := Effective(view.pending, next);
    var own := next.id !in view.pending;
    calls == [Built(effective, own, Handle(view.services, Some(DependencySet(effective))))]
             + if effective.hooks.build then [Ran(Init, next.id, own, effective.hooks.init)] else []
  }

  ghost predicate Next(defs: seq<ProviderDef>, i: nat, own: set<Id>, start: View, view: View, calls: seq<Call>,
                       built: seq<Call>) {
    && i < |defs| && DistinctTypes(defs) && own == Production(start, TypeSet(defs))
    && Constructed(defs[..i], own, start, view, calls)
    && defs[i].id !in view.services && defs[i].id !in view.applied
    && CallsFor(defs[i], view, built)
  }

  lemma NextSucceeded(defs: seq<ProviderDef>, i: nat, own: set<Id>, start: View, view: View, after: View,
                      calls: seq<Call>, built: seq<Call>)
    requires Next(defs, i, own, start, view, calls, built) && after == ConstructedView(view, defs[i].id)
    requires Effective(view.pending, defs[i]).hooks.build && Effective(view.pending, defs[i]).hooks.init
    ensures Constructed(defs[..i] + [defs[i]], own, start, after, calls + built)
    ensures Keep(defs[..i] + [defs[i]], own)
            == Keep(defs[..i], own) + if defs[i].id in view.pending then [] else [defs[i].id]
  {
    hide Keep, Succeeded, Called;
    NextIsNew(defs, i);
    NextView(defs[..i], defs[i], start, view);
    ConstructedNext(defs[..i], defs[i], own, start, view, calls, built[0]);
    KeepNext(defs[..i], defs[i], own);
  }

  lemma NextFailed(defs: seq<ProviderDef>, i: nat, own: set<Id>, start: View, view: View, calls: seq<Call>,
                   built: seq<Call>)
    requires Next(defs, i, own, start, view, calls, built)
    requires !(Effective(view.pending, defs[i]).hooks.build && Effective(view.pending, defs[i]).hooks.init)
    ensures !HooksSucceed(defs, start)
    ensures During(calls + built, 0) && Succeeded(calls + built, Init) == Keep(defs[..i], own)
    ensures start.services <= view.services
    ensures forall id <- Keep(defs[..i], own) :: id in TypeSet(defs) && id in view.services
  {
    hide Keep, Succeeded, Called;
    NextIsNew(defs, i);
    NextView(defs[..i], defs[i], start, view);
    assert defs[i] in defs;
    BuiltNext(calls, built[0], defs[i].id, defs[i].id !in view.pending, false);
    var ran := [Ran(Init, defs[i].id, defs[i].id !in view.pending, false)];
    assert built == if Effective(view.pending, defs[i]).hooks.build then [built[0]] + ran else [built[0]];
    KeepSelects(defs[..i], own);
  }

  lemma NextSupplied(defs: seq<ProviderDef>, i: nat, own: set<Id>, start: View, view: View, calls: seq<Call>,
                     built: seq<Call>)
    requires Next(defs, i, own, start, view, calls, built)
    ensures Provided(defs, start) ==> forall call <- built :: Supplied(call)
  {
    hide Keep, Succeeded, Called;
    NextIsNew(defs, i);
    NextView(defs[..i], defs[i], start, view);
    if Provided(defs, start) {
      forall id ensures Resolve(built[0].handle, id).None? <==> id == LOGGER || id in built[0].def.dependencies {
        if id in built[0].def.dependencies {
          assert id in start.services || id in TypeSet(defs[..i]);
        }
      }
    }
  }

  /** A handler resolves itself and the event bus before it is registered with the bus. */
  ghost predicate HandlersRegister(graph: Graph, services: set<Id>) {
    forall node <- graph :: forall h <- node.eventHandlers :: h.id in services && EVENT_BUS in services && h.registers
  }

  method RegisterHandlers(graph: Graph, services: set<Id>) returns (failure: Option<Failure>)
    ensures failure.None? <==> HandlersRegister(graph, services)
    ensures failure.Some? ==> failure.value.HandlerFailed?
  {
    for m := 0 to |graph|
      invariant HandlersRegister(graph[..m], services)
    {
      var handlers := graph[m].eventHandlers;
      for i := 0 to |handlers|
        invariant forall h <- handlers[..i] :: h.id in services && EVENT_BUS in services && h.registers
      {
        if handlers[i].id !in services || EVENT_BUS !in services || !handlers[i].registers {
          assert graph[m] in graph && handlers[i] in graph[m].eventHandlers;
          return Some(HandlerFailed(handlers[i].id));
        }
      }
      assert handlers[..|handlers|] == handlers;
      assert graph[..m + 1] == graph[..m] + [graph[m]];
    }
    assert graph[..|graph|] == graph;
    failure := None;
  }

  /** What a failed step leaves: nothing initialized, everything that was stopped in reverse. */
  ghost predicate TakenBack(graph: Graph, services: set<Id>, was: seq<Id>, now: seq<Id>, up: seq<Call>,
                            down: seq<Call>) {
    now == [] && down == StopCalls(graph, services, was + Succeeded(up, Init))
  }

  /** Constructs and initializes every provider and registers the event handlers. A refusal
      touches nothing; any later failure takes everything back. */
  method InitializeGraph(graph: Graph, container: Container)
    returns (failure: Option<Failure>, ghost up: seq<Call>, ghost down: seq<Call>)
    requires ImportsEarlier(graph) && container.Keyed()
    modifies container
    ensures container.Keyed() && container.bootstrapped == old(container.bootstrapped)
    ensures During(up, 0) && old(container.services) <= container.services
    ensures forall id <- Succeeded(up, Init) :: id in DeclaredTypes(graph) && id in container.services
    ensures var start := old(container.Sees()); var defs := Scheduled(graph, start.pending);
            && (failure.None? <==> Startable(graph, start) && HooksSucceed(defs, start)
                                   && HandlersRegister(graph, InitializedView(start, DeclaredTypes(graph)).services))
            && ((failure.Some? && failure.value.Refused?) <==> !Startable(graph, start))
            && (Startable(graph, start) ==> OrderFor(graph, start.pending, defs))
            && (failure.None? ==>
                  Constructed(defs, Production(start, DeclaredTypes(graph)), start, container.Sees(), up))
            && (Provided(defs, start) ==> forall call <- up :: Supplied(call))
    ensures match failure
            case None => down == [] && container.initialized == old(container.initialized) + Succeeded(up, Init)
            case Some(Refused(error)) =>
              && up == down == [] && container.initialized == old(container.initialized)
              && container.Sees() == old(container.Sees()) && Explains(graph, container.Sees(), error)
            case Some(_) =>
              TakenBack(graph, container.services, old(container.initialized), container.initialized, up, down)
  {
    hide Startable, Scheduled, OrderFor, HooksSucceed, HandlersRegister, Constructed, Provided, Supplied,
      InitializedView, StopCalls, Succeeded, Explains;
    up, down := [], [];
    assert Succeeded(up, Init) == [] by { NothingRan(); }
    var ordered := OrderProviders(graph, container.Sees());
    if ordered.Err? {
      return Some(Refused(ordered.error)), up, down;
    }
    var defs := ordered.value;
    OrderFacts(graph, container.pending, defs);
    ghost var start := container.Sees();
    ghost var own := Production(start, DeclaredTypes(graph));
    failure, up := ConstructAll(defs, own, container);
    if failure.None? {
      ConstructedServices(defs, own, start, container.Sees(), up);
      failure := RegisterHandlers(graph, container.services);
    }
    if failure.Some? {
      down := RollbackGraph(graph, container);
    }
  }

  lemma NothingRan()
    ensures Succeeded([], Init) == []
  {
  }

  lemma OrderFacts(graph: Graph, pending: map<Id, ProviderDef>, defs: seq<ProviderDef>)
    requires OrderFor(graph, pending, defs)
    ensures DistinctTypes(defs) && TypeSet(defs) == DeclaredTypes(graph)
  {
  }

  lemma ConstructedServices(defs: seq<ProviderDef>, own: set<Id>, start: View, view: View, calls: seq<Call>)
    requires Constructed(defs, own, start, view, calls)
    ensures view == InitializedView(start, TypeSet(defs))
  {
  }

  // ---- Bootstrap ----------------------------------------------------------

  ghost predicate BootstrapsSucceed(defs: seq<ProviderDef>, ready: set<Id>, services: set<Id>) {
    forall d <- defs :: d.id in ready ==> d.id in services && d.hooks.bootstrap
  }

  ghost predicate Bootstrapping(defs: seq<ProviderDef>, ready: set<Id>, services: set<Id>, calls: seq<Call>) {
    && Called(calls, Bootstrap) == Succeeded(calls, Bootstrap) == Keep(defs, ready)
    && During(calls, 1)
    && BootstrapsSucceed(defs, ready, services)
  }

  lemma BootstrapNext(defs: seq<ProviderDef>, next: ProviderDef, ready: set<Id>, services: set<Id>, calls: seq<Call>)
    requires Bootstrapping(defs, ready, services, calls)
    ensures next.id !in ready ==> Bootstrapping(defs + [next], ready, services, calls)
    ensures var more := calls + [Ran(Bootstrap, next.id, true, next.hooks.bootstrap)];
            && During(more, 1)
            && (next.id in ready && next.id in services && next.hooks.bootstrap ==>
                  Bootstrapping(defs + [next], ready, services, more))
    ensures Keep(defs + [next], ready) == Keep(defs, ready) + if next.id in ready then [next.id] else []
  {
    hide Keep;
    KeepNext(defs, next, ready);
    assert (calls + [Ran(Bootstrap, next.id, true, next.hooks.bootstrap)])[..|calls|] == calls;
  }

  ghost function Ready(initialized: seq<Id>, applied: set<Id>, bootstrapped: set<Id>): set<Id> {
    (set id <- initialized) - applied - bootstrapped
  }

  method BootstrapGraph(graph: Graph, container: Container)
    returns (failure: Option<Failure>, ghost up: seq<Call>, ghost down: seq<Call>)
    requires ImportsEarlier(graph)
    modifies container
    ensures container.Sees() == old(container.Sees()) && During(up, 1)
    ensures var ready := old(Ready(container.initialized, container.applied, container.bootstrapped));
            var defs := Scheduled(graph, container.pending);
            && ((failure.Some? && failure.value.Refused?) <==> !Startable(graph, container.Sees()))
            && (Startable(graph, container.Sees()) ==> OrderFor(graph, container.pending, defs))
            && (failure.None? <==>
                  Startable(graph, container.Sees()) && BootstrapsSucceed(defs, ready, container.services))
            && (failure.None? ==> Bootstrapping(defs, ready, container.services, up)
                                  && container.bootstrapped == old(container.bootstrapped) + (ready * TypeSet(defs)))
    ensures match failure
            case None => down == [] && container.initialized == old(container.initialized)
            case Some(Refused(_)) => up == down == [] && container.initialized == old(container.initialized)
            case Some(_) =>
              container.initialized == [] && down == StopCalls(graph, container.services, old(container.initialized))
  {
    hide Explains, Startable, Scheduled, OrderFor, BootstrapsSucceed, Bootstrapping, StopCalls, Keep;
    up, down := [], [];
    var ordered := OrderProviders(graph, container.Sees());
    if ordered.Err? {
      return Some(Refused(ordered.error)), up, down;
    }
    var defs := ordered.value;
    var initialized := set id <- container.initialized;
    ghost var ready := Ready(container.initialized, container.applied, container.bootstrapped);
    OrderFacts(graph, container.pending, defs);
    NothingBootstrapped(defs, ready, container.services);
    for i := 0 to |defs|
      invariant container.Sees() == old(container.Sees()) && container.initialized == old(container.initialized)
      invariant Bootstrapping(defs[..i], ready, container.services, up) && During(up, 1)
      invariant container.bootstrapped == old(container.bootstrapped) + (ready * TypeSet(defs[..i]))
    {
      var d := defs[i];
      NextIsNew(defs, i);
      assert defs[..i + 1] == defs[..i] + [d];
      BootstrapNext(defs[..i], d, ready, container.services, up);
      KeepNext(defs[..i], d, ready);
      if d.id in initialized && d.id !in container.applied && d.id !in container.bootstrapped {
        container.bootstrapped := container.bootstrapped + {d.id};
        if d.id !in container.services {
          BootstrapFails(defs, i, ready, container.services);
          down := RollbackGraph(graph, container);
          return Some(MissingDuring(Bootstrap, d.id)), up, down;
        }
        up := up + [Ran(Bootstrap, d.id, true, d.hooks.bootstrap)];
        if !d.hooks.bootstrap {
          BootstrapFails(defs, i, ready, container.services);
          down := RollbackGraph(graph, container);
          return Some(HookFailed(Bootstrap, d.id)), up, down;
        }
      }
    }
    assert defs[..|defs|] == defs;
    failure := None;
    BootstrappedFacts(defs, ready, container.services, up);
  }

  lemma NothingBootstrapped(defs: seq<ProviderDef>, ready: set<Id>, services: set<Id>)
    ensures Bootstrapping(defs[..0], ready, services, [])
  {
    assert defs[..0] == [];
  }

  lemma BootstrapFails(defs: seq<ProviderDef>, i: nat, ready: set<Id>, services: set<Id>)
    requires i < |defs| && defs[i].id in ready && (defs[i].id !in services || !defs[i].hooks.bootstrap)
    ensures !BootstrapsSucceed(defs, ready, services)
  {
    assert defs[i] in defs;
  }

  lemma BootstrappedFacts(defs: seq<ProviderDef>, ready: set<Id>, services: set<Id>, calls: seq<Call>)
    requires Bootstrapping(defs, ready, services, calls)
    ensures BootstrapsSucceed(defs, ready, services) && During(calls, 1)
  {
  }

  // ---- The whole build ----------------------------------------------------

  ghost function FirstView(instances: set<Id>, overrides: map<Id, ProviderDef>): View {
    View(instances + {LOGGER}, overrides, {})
  }

  /** The view the providers leave behind, which the second validation and bootstrap both use. */
  ghost function LastView(graph: Graph, instances: set<Id>, overrides: map<Id, ProviderDef>): View {
    InitializedView(FirstView(instances, overrides), DeclaredTypes(graph))
  }

  /** The types whose own hooks run: neither supplied beforehand nor overridden. */
  ghost function OwnTypes(graph: Graph, instances: set<Id>, overrides: map<Id, ProviderDef>): set<Id> {
    Production(FirstView(instances, overrides), DeclaredTypes(graph))
  }

  lemma OwnIsNotOverridden(graph: Graph, instances: set<Id>, overrides: map<Id, ProviderDef>, id: Id)
    requires id in OwnTypes(graph, instances, overrides)
    ensures id in DeclaredTypes(graph) && id !in overrides && id !in instances && id != LOGGER
  {
  }

  /** A provider that no override touches has one registration, and startup goes through that one. */
  lemma OwnDefinitionIsScheduled(graph: Graph, view: View, r: Registration, k: nat)
    requires Startable(graph, view) && r in Definitions(graph) && !Overridden(view, r.def.id)
    requires k < |Scheduled(graph, view.pending)| && Scheduled(graph, view.pending)[k].id == r.def.id
    ensures Scheduled(graph, view.pending)[k] == r.def
  {
    hide Schedule, LastByType, Registrations, ExportsSound, EventHandlersMet, OwnersSound, DependenciesMet, Scheduled,
      DeclaredFirst, DeclaredTypes, TypeSet, NoDuplicates;
    ScheduledIsOrder(graph, view.pending);
    assert Scheduled(graph, view.pending)[k] in Scheduled(graph, view.pending);
    var q :| q in Definitions(graph) && q.def == Scheduled(graph, view.pending)[k];
    SoleRegistration(Definitions(graph), view, q, r);
  }

  lemma SoleRegistration(registrations: seq<Registration>, view: View, q: Registration, r: Registration)
    requires NoDuplicates(registrations, view) && q in registrations && r in registrations
    requires q.def.id == r.def.id && !Overridden(view, r.def.id)
    ensures q == r
  {
    var i :| 0 <= i < |registrations| && registrations[i] == q;
    var j :| 0 <= j < |registrations| && registrations[j] == r;
    assert i < j || j < i || i == j;
  }

  lemma ScheduledPosition(graph: Graph, pending: map<Id, ProviderDef>, id: Id) returns (k: nat)
    requires Schedule(ContextOf(graph, pending)).Ok? && id in DeclaredTypes(graph)
    ensures k < |Scheduled(graph, pending)| && Scheduled(graph, pending)[k].id == id
  {
    hide Schedule, LastByType, Registrations, Scheduled, DeclaredFirst;
    ScheduledIsOrder(graph, pending);
    assert id in TypeSet(Scheduled(graph, pending));
    k :| k < |Scheduled(graph, pending)| && Scheduled(graph, pending)[k].id == id;
  }

  lemma DependencyScheduledFirst(graph: Graph, view: View, own: set<Id>, r: Registration, d: Id)
    requires Startable(graph, view) && r in Definitions(graph) && !Overridden(view, r.def.id)
    requires r.def.id in own && d in own && d in DeclaredTypes(graph) && d in r.def.dependencies
    ensures Before(Keep(Scheduled(graph, view.pending), own), d, r.def.id)
  {
    hide Schedule, LastByType, Registrations, Scheduled, Keep, Before, NoDuplicates, ExportsSound, DependenciesMet,
      EventHandlersMet, OwnersSound, OrderFor;
    ScheduledIsOrder(graph, view.pending);
    var k := ScheduledPosition(graph, view.pending, r.def.id);
    OwnDefinitionIsScheduled(graph, view, r, k);
    DeclaredBefore(graph, view.pending, Scheduled(graph, view.pending), k, d, own);
  }

  lemma DeclaredBefore(graph: Graph, pending: map<Id, ProviderDef>, defs: seq<ProviderDef>, k: nat, d: Id, own: set<Id>)
    requires OrderFor(graph, pending, defs) && k < |defs| && d in DeclaredTypes(graph)
    requires defs[k].id !in pending && d in defs[k].dependencies && defs[k].id in own && d in own
    ensures Before(Keep(defs, own), d, defs[k].id)
  {
    hide Keep, Before, Registrations;
    assert d in TypeSet(defs[..k]);
    var j :| 0 <= j < k && defs[..k][j].id == d;
    KeepOrders(defs, own, j, k);
  }

  /** Providers come after the providers their own definitions depend on. */
  ghost predicate DependenciesBefore(graph: Graph, initialized: seq<Id>) {
    forall r <- Definitions(graph) :: r.def.id in initialized ==>
      forall d <- r.def.dependencies :: d in initialized ==> Before(initialized, d, r.def.id)
  }

  lemma InitializedInOrder(graph: Graph, instances: set<Id>, overrides: map<Id, ProviderDef>)
    requires Startable(graph, FirstView(instances, overrides))
    requires forall id <- Keep(Scheduled(graph, overrides), OwnTypes(graph, instances, overrides)) ::
               id in OwnTypes(graph, instances, overrides)
    ensures DependenciesBefore(graph, Keep(Scheduled(graph, overrides), OwnTypes(graph, instances, overrides)))
  {
    hide Startable, Scheduled, Keep, Before, Registrations;
    var own := OwnTypes(graph, instances, overrides);
    var initialized := Keep(Scheduled(graph, overrides), own);
    forall r, d | r in Definitions(graph) && d in r.def.dependencies && r.def.id in initialized && d in initialized
      ensures Before(initialized, d, r.def.id)
    {
      OwnIsNotOverridden(graph, instances, overrides, r.def.id);
      OwnIsNotOverridden(graph, instances, overrides, d);
      DependencyScheduledFirst(graph, FirstView(instances, overrides), own, r, d);
    }
  }

  /** Exactly what a build needs in order to succeed. Its second validation finds no pending
      override and so reads every provider's own dependencies. */
  ghost predicate Buildable(graph: Graph, instances: set<Id>, overrides: map<Id, ProviderDef>) {
    var first, last := FirstView(instances, overrides), LastView(graph, instances, overrides);
    && Startable(graph, first)
    && HooksSucceed(Scheduled(graph, overrides), first)
    && HandlersRegister(graph, last.services)
    && last.pending == map[]
    && Startable(graph, last)
    && GatewaysSound(Gateways(graph))
    && BootstrapsSucceed(Scheduled(graph, map[]), OwnTypes(graph, instances, overrides), last.services)
  }

  /** Every provider with hooks of its own was initialized once and bootstrapped once, in schedule
      order, and nothing was stopped. */
  ghost predicate Started(graph: Graph, instances: set<Id>, overrides: map<Id, ProviderDef>,
                          initialized: seq<Id>, bootstrapped: set<Id>, calls: seq<Call>) {
    var own := OwnTypes(graph, instances, overrides);
    && initialized == Called(calls, Init) == Succeeded(calls, Init) == Keep(Scheduled(graph, overrides), own)
    && Called(calls, Bootstrap) == Succeeded(calls, Bootstrap) == Keep(Scheduled(graph, map[]), own)
    && bootstrapped == own
    && (forall id :: id in initialized <==> id in own) && Distinct(initialized)
    && (forall id :: id in Called(calls, Bootstrap) <==> id in own) && Distinct(Called(calls, Bootstrap))
    && Called(calls, Shutdown) == []
  }

  /** Everything that finished initializing was stopped once, last initialized first. */
  ghost predicate RolledBack(initialized: seq<Id>, calls: seq<Call>) {
    initialized == [] && Called(calls, Shutdown) == Reversed(Succeeded(calls, Init))
  }

  lemma Unwound(graph: Graph, services: set<Id>, up: seq<Call>, more: seq<Call>, down: seq<Call>)
    requires During(up, 0) && During(more, 1) && down == StopCalls(graph, services, Succeeded(up, Init))
    requires forall id <- Succeeded(up, Init) :: id in DeclaredTypes(graph) && id in services
    requires forall call <- up :: Supplied(call)
    ensures RolledBack([], up + more + down) && PhasesInOrder(up + more + down)
    ensures forall call <- up + more + down :: Supplied(call)
  {
    hide StopCalls, Succeeded, Called, Registrations, PhasesInOrder;
    assert forall id <- Succeeded(up, Init) :: Stoppable(graph, services, id);
    StopsInReverse(graph, services, Succeeded(up, Init));
    ThreePhases(up, more, down);
    SilentHook(up, 0, Shutdown);
    SilentHook(more, 1, Shutdown);
    SilentHook(more, 1, Init);
    SilentHook(down, 2, Init);
    Concatenated(up + more, down, Shutdown);
    Concatenated(up + more, down, Init);
    Concatenated(up, more, Shutdown);
    Concatenated(up, more, Init);
    forall call | call in up + more + down ensures Supplied(call) {
      assert call in up || call in more || call in down;
      assert call in more || call in down ==> call.Ran?;
    }
  }

  lemma AfterInitialization(graph: Graph, instances: set<Id>, overrides: map<Id, ProviderDef>, view: View,
                            up: seq<Call>)
    requires Constructed(Scheduled(graph, overrides), OwnTypes(graph, instances, overrides),
                         FirstView(instances, overrides), view, up)
    requires OrderFor(graph, overrides, Scheduled(graph, overrides))
    ensures view == LastView(graph, instances, overrides) && DeclaredTypes(graph) <= view.services
    ensures Called(up, Init) == Succeeded(up, Init)
            == Keep(Scheduled(graph, overrides), OwnTypes(graph, instances, overrides))
    ensures Distinct(Succeeded(up, Init))
    ensures forall id <- Succeeded(up, Init) :: id in OwnTypes(graph, instances, overrides)
    ensures Ready(Succeeded(up, Init), view.applied, {}) == OwnTypes(graph, instances, overrides)
  {
    hide Scheduled, Keep, Called, Succeeded, DeclaredFirst, Registrations;
    KeepSelects(Scheduled(graph, overrides), OwnTypes(graph, instances, overrides));
  }

  lemma AfterBootstrap(graph: Graph, instances: set<Id>, overrides: map<Id, ProviderDef>, view: View, up: seq<Call>,
                       more: seq<Call>)
    requires Constructed(Scheduled(graph, overrides), OwnTypes(graph, instances, overrides),
                         FirstView(instances, overrides), view, up)
    requires OrderFor(graph, overrides, Scheduled(graph, overrides)) && OrderFor(graph, map[], Scheduled(graph, map[]))
    requires Bootstrapping(Scheduled(graph, map[]), OwnTypes(graph, instances, overrides), view.services, more)
    requires forall call <- up :: Supplied(call)
    ensures Started(graph, instances, overrides, Succeeded(up, Init),
                    OwnTypes(graph, instances, overrides) * TypeSet(Scheduled(graph, map[])), up + more)
    ensures PhasesInOrder(up + more) && forall call <- up + more :: Supplied(call)
  {
    hide Scheduled, Keep, Called, Succeeded, DeclaredFirst, Registrations, PhasesInOrder, HooksSucceed, InitializedView,
      BootstrapsSucceed;
    var own := OwnTypes(graph, instances, overrides);
    KeepSelects(Scheduled(graph, overrides), own);
    KeepSelects(Scheduled(graph, map[]), own);
    assert up + more == up + more + [];
    ThreePhases(up, more, []);
    SilentHook(up, 0, Bootstrap);
    SilentHook(up, 0, Shutdown);
    SilentHook(more, 1, Init);
    SilentHook(more, 1, Shutdown);
    Concatenated(up, more, Init);
    Concatenated(up, more, Bootstrap);
    Concatenated(up, more, Shutdown);
    forall call | call in up + more ensures Supplied(call) {
      assert call in up || call in more;
      assert call in more ==> call.Ran?;
    }
  }

  /** The source has one build for instances set up beforehand and one for overrides; this is both. */
  method BuildContainer(graph: Graph, instances: set<Id>, overrides: map<Id, ProviderDef>)
    returns (failure: Option<Failure>, container: Container, ghost calls: seq<Call>)
    requires ImportsEarlier(graph) && OverridesKeyed(overrides)
    ensures failure.None? <==> Buildable(graph, instances, overrides)
    ensures failure.None? ==> Started(graph, instances, overrides, container.initialized, container.bootstrapped, calls)
    ensures failure.None? ==> DependenciesBefore(graph, container.initialized)
    ensures failure.Some? ==> RolledBack(container.initialized, calls)
    ensures failure.Some? && failure.value.Refused? ==>
              Explains(graph, FirstView(instances, overrides), failure.value.error)
              || Explains(graph, LastView(graph, instances, overrides), failure.value.error)
    ensures PhasesInOrder(calls)
    ensures forall call <- calls :: Supplied(call)
  {
    hide Explains, Startable, Scheduled, HooksSucceed, HandlersRegister, Constructed, Provided, Supplied, GatewaysSound,
      OrderFor, Ready, BootstrapsSucceed, Bootstrapping, StopCalls, Started, RolledBack, InitializedView, PhasesInOrder,
      Production, Succeeded, Called;
    container := new Container(instances, overrides);
    ghost var first := container.Sees();
    assert first == FirstView(instances, overrides);
    ghost var up, down, more;
    failure, up, down := InitializeGraph(graph, container);
    calls := up + down;
    assert up + [] + down == up + down && [] + Succeeded(up, Init) == Succeeded(up, Init);
    if failure.Some? && failure.value.Refused? {
      NothingUp(graph, container.services);
      Unwound(graph, container.services, up, [], down);
      return;
    }
    StartableProvides(graph, first);
    if failure.Some? {
      Unwound(graph, container.services, up, [], down);
      return;
    }
    AfterInitialization(graph, instances, overrides, container.Sees(), up);
    failure := Validate(graph, container);
    if failure.Some? {
      down := RollbackGraph(graph, container);
      calls := up + down;
      assert up + [] + down == up + down;
      Unwound(graph, container.services, up, [], down);
      return;
    }
    failure, more, down := BootstrapGraph(graph, container);
    calls := up + more + down;
    if failure.Some? {
      Unwound(graph, container.services, up, more, down);
    } else {
      AfterBootstrap(graph, instances, overrides, container.Sees(), up, more);
      InitializedInOrder(graph, instances, overrides);
      assert up + more + [] == up + more;
      assert container.bootstrapped == OwnTypes(graph, instances, overrides) * TypeSet(Scheduled(graph, map[]));
    }
  }

  lemma NothingUp(graph: Graph, services: set<Id>)
    ensures StopCalls(graph, services, Succeeded([], Init)) == []
  {
  }

  /** The checks between initialization and bootstrap. */
  method Validate(graph: Graph, container: Container) returns (failure: Option<Failure>)
    requires ImportsEarlier(graph)
    ensures failure.None? <==>
              && container.pending == map[]
              && Startable(graph, container.Sees())
              && DeclaredTypes(graph) <= container.services
              && GatewaysSound(Gateways(graph))
    ensures failure.Some? && failure.value.Refused? ==> Explains(graph, container.Sees(), failure.value.error)
  {
    hide Explains, Startable, GatewaysSound, Scheduled, OrderFor, Registrations;
    if container.pending != map[] {
      return Some(OverridesUnused(container.pending.Keys));
    }
    var ordered := OrderProviders(graph, container.Sees());
    if ordered.Err? {
      return Some(Refused(ordered.error));
    }
    var registrations := Definitions(graph);
    for i := 0 to |registrations|
      invariant forall k :: 0 <= k < i ==> registrations[k].def.id in container.services
    {
      if registrations[i].def.id !in container.services {
        assert registrations[i] in registrations;
        return Some(NotRegistered(registrations[i].def.id));
      }
    }
    var bad := CheckGatewayPaths(graph);
    return if bad.Some? then Some(BadGateway(bad.value)) else None;
  }
}
