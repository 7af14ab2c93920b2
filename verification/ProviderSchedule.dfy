/** The order providers are constructed in: a depth-first walk over effective dependencies. */
module ProviderSchedule {
  import opened Wrappers
  import opened Graphs
  import opened ProviderGraph

  datatype Mark = Visiting | Done

  /** What the walk looks things up in. */
  datatype Context = Context(registrations: seq<Registration>, byType: map<Id, nat>, pending: map<Id, ProviderDef>)

  ghost predicate ValidContext(c: Context) { ByType(c.registrations, c.byType) }

  function TypeOf(c: Context, reg: nat): Id
    requires reg < |c.registrations|
  {
    c.registrations[reg].def.id
  }

  function Dependencies(c: Context, reg: nat): seq<Id>
    requires reg < |c.registrations|
  {
    Effective(c.pending, c.registrations[reg].def).dependencies
  }

  datatype Progress = Progress(marks: map<Id, Mark>, sorted: seq<nat>)

  ghost function Left(c: Context, marks: map<Id, Mark>): nat { |c.byType.Keys - marks.Keys| }

  lemma LeftShrinks(c: Context, before: map<Id, Mark>, after: map<Id, Mark>)
    requires before.Keys <= after.Keys
    ensures Left(c, after) <= Left(c, before)
    ensures forall id :: id in c.byType && id in after && id !in before ==> Left(c, after) < Left(c, before)
  {
    SubsetIsSmaller(c.byType.Keys - after.Keys, c.byType.Keys - before.Keys);
    forall id | id in c.byType && id in after && id !in before ensures Left(c, after) < Left(c, before) {
      SubsetIsSmaller(c.byType.Keys - after.Keys, c.byType.Keys - before.Keys - {id});
    }
  }

  // ---- The walk as a function ---------------------------------------------

  /** Schedules one registration; `stack` holds the types being scheduled. A failure is the
      path that ran into one of them. */
  ghost function Walk(c: Context, reg: nat, stack: seq<Id>, p: Progress): (r: Result<Progress, seq<Id>>)
    requires ValidContext(c) && reg < |c.registrations|
    ensures r.Ok? ==> p.marks.Keys <= r.value.marks.Keys
    decreases Left(c, p.marks), 0, 0
  {
    var id := TypeOf(c, reg);
    if id in p.marks then
      if p.marks[id].Done? then Ok(p) else Err(stack + [id])
    else
      var entered := p.(marks := p.marks[id := Visiting]);
      LeftShrinks(c, p.marks, entered.marks);
      match WalkAll(c, Dependencies(c, reg), stack + [id], entered)
      case Err(path) => Err(path)
      case Ok(q) => Ok(Progress(q.marks[id := Done], q.sorted + [reg]))
  }

  ghost function WalkAll(c: Context, dependencies: seq<Id>, stack: seq<Id>, p: Progress): (r: Result<Progress, seq<Id>>)
    requires ValidContext(c)
    ensures r.Ok? ==> p.marks.Keys <= r.value.marks.Keys
    decreases Left(c, p.marks), 1, |dependencies|
  {
    if dependencies == [] then Ok(p)
    else if dependencies[0] !in c.byType then WalkAll(c, dependencies[1..], stack, p)
    else
      match Walk(c, c.byType[dependencies[0]], stack, p)
      case Err(path) => Err(path)
      case Ok(q) =>
        LeftShrinks(c, p.marks, q.marks);
        WalkAll(c, dependencies[1..], stack, q)
  }

  /** Schedules the registrations from position `i` on. */
  ghost function WalkFrom(c: Context, i: nat, p: Progress): Result<Progress, seq<Id>>
    requires ValidContext(c) && i <= |c.registrations|
    decreases |c.registrations| - i
  {
    if i == |c.registrations| then Ok(p)
    else
      match Walk(c, i, [], p)
      case Err(path) => Err(path)
      case Ok(q) => WalkFrom(c, i + 1, q)
  }

  ghost function Schedule(c: Context): Result<seq<nat>, seq<Id>>
    requires ValidContext(c)
  {
    match WalkFrom(c, 0, Progress(map[], []))
    case Err(path) => Err(path)
    case Ok(p) => Ok(p.sorted)
  }

  // ---- The walk as the source runs it -------------------------------------

  class Scheduler {
    const context: Context
    var marks: map<Id, Mark>
    var stack: seq<Id>
    var sorted: seq<nat>

    constructor (context: Context)
      ensures this.context == context && marks == map[] && stack == [] && sorted == []
    {
      this.context := context;
      marks, stack, sorted := map[], [], [];
    }

    ghost function Now(): Progress
      reads this
    {
      Progress(marks, sorted)
    }

    method Visit(reg: nat) returns (failure: Option<seq<Id>>)
      requires ValidContext(context) && reg < |context.registrations|
      modifies this
      ensures match old(Walk(context, reg, stack, Now()))
              case Err(path) => failure == Some(path)
              case Ok(p) => failure == None && Now() == p && stack == old(stack)
      decreases Left(context, marks), 0
    {
      var id := TypeOf(context, reg);
      if id in marks {
        return if marks[id].Done? then None else Some(stack + [id]);
      }
      marks := marks[id := Visiting];
      stack := stack + [id];
      LeftShrinks(context, old(marks), marks);
      failure := VisitAll(Dependencies(context, reg));
      if failure.Some? {
        return;
      }
      stack := stack[..|stack| - 1];
      marks := marks[id := Done];
      sorted := sorted + [reg];
    }

    method VisitAll(dependencies: seq<Id>) returns (failure: Option<seq<Id>>)
      requires ValidContext(context)
      modifies this
      ensures match old(WalkAll(context, dependencies, stack, Now()))
              case Err(path) => failure == Some(path)
              case Ok(p) => failure == None && Now() == p && stack == old(stack)
      decreases Left(context, marks), 1
    {
      for k := 0 to |dependencies|
        invariant stack == old(stack) && old(marks.Keys) <= marks.Keys
        invariant WalkAll(context, dependencies[k..], stack, Now()) == old(WalkAll(context, dependencies, stack, Now()))
      {
        if dependencies[k] in context.byType {
          LeftShrinks(context, old(marks), marks);
          failure := Visit(context.byType[dependencies[k]]);
          if failure.Some? {
            return;
          }
        }
      }
      failure := None;
    }

    method Run() returns (r: Result<seq<nat>, seq<Id>>)
      requires ValidContext(context) && marks == map[] && stack == [] && sorted == []
      modifies this
      ensures r == Schedule(context)
    {
      for i := 0 to |context.registrations|
        invariant stack == []
        invariant WalkFrom(context, i, Now()) == WalkFrom(context, 0, Progress(map[], []))
      {
        var failure := Visit(i);
        if failure.Some? {
          return Err(failure.value);
        }
      }
      return Ok(sorted);
    }
  }

  // ---- What the order guarantees ------------------------------------------

  /** Some scheduled registration has type `id`. */
  ghost predicate Listed(c: Context, sorted: seq<nat>, id: Id) {
    exists i :: 0 <= i < |sorted| && HasType(c, sorted[i], id)
  }

  ghost predicate HasType(c: Context, reg: nat, id: Id) { reg < |c.registrations| && TypeOf(c, reg) == id }

  ghost predicate DependenciesListed(c: Context, reg: nat, earlier: seq<nat>) {
    reg < |c.registrations| && forall d <- Dependencies(c, reg) :: d in c.byType ==> Listed(c, earlier, d)
  }

  /** Distinct types, each after the declared types it effectively depends on. */
  ghost predicate DependenciesFirst(c: Context, sorted: seq<nat>) {
    && (forall i :: 0 <= i < |sorted| ==> DependenciesListed(c, sorted[i], sorted[..i]))
    && forall i, j :: 0 <= i < j < |sorted| ==> TypeOf(c, sorted[i]) != TypeOf(c, sorted[j])
  }

  /** Declared dependencies of any registration of a type. */
  ghost function AllDependencies(c: Context, id: Id, count: nat): (deps: seq<Id>)
    requires count <= |c.registrations|
    ensures forall d :: d in deps <==>
              (d in c.byType && exists i :: 0 <= i < count && TypeOf(c, i) == id && d in Dependencies(c, i))
  {
    if count == 0 then []
    else
      var i := count - 1;
      var own := if TypeOf(c, i) == id then Declared(c, Dependencies(c, i)) else [];
      assert forall d :: d in own <==> d in c.byType && TypeOf(c, i) == id && d in Dependencies(c, i);
      AllDependencies(c, id, i) + own
  }

  ghost function Declared(c: Context, deps: seq<Id>): (declared: seq<Id>)
    ensures forall d :: d in declared <==> d in deps && d in c.byType
  {
    if deps == [] then [] else (if deps[0] in c.byType then [deps[0]] else []) + Declared(c, deps[1..])
  }

  /** The effective dependency graph over declared types. */
  ghost function DependencyEdges(c: Context): Edges {
    map t | t in c.byType :: AllDependencies(c, t, |c.registrations|)
  }

  lemma DependencyEdge(c: Context, reg: nat, d: Id)
    requires ValidContext(c) && reg < |c.registrations| && d in Dependencies(c, reg) && d in c.byType
    ensures Edge(DependencyEdges(c), TypeOf(c, reg), d)
  {
  }

  ghost predicate Consistent(c: Context, stack: seq<Id>, p: Progress) {
    && DependenciesFirst(c, p.sorted)
    && (forall id <- p.marks :: if p.marks[id].Done? then Listed(c, p.sorted, id) else id in stack)
    && (forall id <- stack :: id in p.marks && p.marks[id].Visiting?)
    && (forall i :: 0 <= i < |p.sorted| ==> TypeOf(c, p.sorted[i]) in p.marks && p.marks[TypeOf(c, p.sorted[i])].Done?)
    && Path(DependencyEdges(c), stack)
  }

  ghost predicate ReachesTop(c: Context, stack: seq<Id>, id: Id) {
    stack != [] ==> Edge(DependencyEdges(c), stack[|stack| - 1], id)
  }

  /** What a walk leaves behind: a longer consistent list, or a cycle. */
  ghost predicate WalkResult(c: Context, stack: seq<Id>, p: Progress, r: Result<Progress, seq<Id>>) {
    match r
    case Ok(q) => Consistent(c, stack, q) && p.sorted <= q.sorted
    case Err(path) => path != [] && Cycle(DependencyEdges(c), path, path[0])
  }

  lemma {:induction false} WalkSound(c: Context, reg: nat, stack: seq<Id>, p: Progress)
    requires ValidContext(c) && reg < |c.registrations|
    requires Consistent(c, stack, p) && ReachesTop(c, stack, TypeOf(c, reg))
    ensures WalkResult(c, stack, p, Walk(c, reg, stack, p))
    ensures Walk(c, reg, stack, p).Ok? ==> Listed(c, Walk(c, reg, stack, p).value.sorted, TypeOf(c, reg))
    decreases Left(c, p.marks), 0, 0
  {
    hide Consistent, Listed, DependencyEdges, Dependencies, ByType, ReachesTop, WalkAll;
    var id := TypeOf(c, reg);
    TypeRegistered(c, reg);
    if id in p.marks {
      MarkedType(c, stack, p, id);
    } else {
      var entered := p.(marks := p.marks[id := Visiting]);
      LeftShrinks(c, p.marks, entered.marks);
      EnteredType(c, stack, p, id);
      AllReachTop(c, stack, reg);
      WalkAllSound(c, Dependencies(c, reg), stack + [id], entered);
      WalkFinished(c, reg, stack, p);
    }
  }

  lemma WalkFinished(c: Context, reg: nat, stack: seq<Id>, p: Progress)
    requires ValidContext(c) && reg < |c.registrations|
    requires Consistent(c, stack, p) && TypeOf(c, reg) !in p.marks
    requires var id := TypeOf(c, reg);
             var entered := p.(marks := p.marks[id := Visiting]);
             var r := WalkAll(c, Dependencies(c, reg), stack + [id], entered);
             && WalkResult(c, stack + [id], entered, r)
             && (r.Ok? ==> forall d <- Dependencies(c, reg) :: d in c.byType ==> Listed(c, r.value.sorted, d))
    ensures WalkResult(c, stack, p, Walk(c, reg, stack, p))
    ensures Walk(c, reg, stack, p).Ok? ==> Listed(c, Walk(c, reg, stack, p).value.sorted, TypeOf(c, reg))
  {
    hide Consistent, Listed, DependencyEdges, Dependencies, ByType, WalkAll;
    var id := TypeOf(c, reg);
    var entered := p.(marks := p.marks[id := Visiting]);
    var r := WalkAll(c, Dependencies(c, reg), stack + [id], entered);
    if r.Ok? {
      NotOnStack(c, stack, p, id);
      FinishedType(c, stack, r.value, reg);
    }
  }

  lemma NotOnStack(c: Context, stack: seq<Id>, p: Progress, id: Id)
    requires Consistent(c, stack, p) && id !in p.marks
    ensures id !in stack
  {
  }

  lemma TypeRegistered(c: Context, reg: nat)
    requires ValidContext(c) && reg < |c.registrations|
    ensures TypeOf(c, reg) in c.byType
  {
  }

  lemma {:induction false} WalkAllSound(c: Context, dependencies: seq<Id>, stack: seq<Id>, p: Progress)
    requires ValidContext(c) && Consistent(c, stack, p)
    requires forall d <- dependencies :: d in c.byType ==> ReachesTop(c, stack, d)
    ensures WalkResult(c, stack, p, WalkAll(c, dependencies, stack, p))
    ensures var r := WalkAll(c, dependencies, stack, p);
            r.Ok? ==> forall d <- dependencies :: d in c.byType ==> Listed(c, r.value.sorted, d)
    decreases Left(c, p.marks), 1, |dependencies|
  {
    hide Consistent, Listed, DependencyEdges, ReachesTop, Walk;
    if dependencies != [] {
      var d := dependencies[0];
      if d in c.byType {
        WalkSound(c, c.byType[d], stack, p);
        var r := Walk(c, c.byType[d], stack, p);
        if r.Ok? {
          LeftShrinks(c, p.marks, r.value.marks);
          WalkAllSound(c, dependencies[1..], stack, r.value);
          var rest := WalkAll(c, dependencies[1..], stack, r.value);
          if rest.Ok? {
            ListedGrows(c, r.value.sorted, rest.value.sorted, d);
          }
        }
      } else {
        WalkAllSound(c, dependencies[1..], stack, p);
      }
    }
  }

  lemma ListedGrows(c: Context, sorted: seq<nat>, longer: seq<nat>, id: Id)
    requires sorted <= longer && Listed(c, sorted, id)
    ensures Listed(c, longer, id)
  {
    var i :| 0 <= i < |sorted| && HasType(c, sorted[i], id);
    assert HasType(c, longer[i], id);
  }

  lemma MarkedType(c: Context, stack: seq<Id>, p: Progress, id: Id)
    requires Consistent(c, stack, p) && id in p.marks && ReachesTop(c, stack, id)
    ensures p.marks[id].Done? ==> Listed(c, p.sorted, id)
    ensures p.marks[id].Visiting? ==> Cycle(DependencyEdges(c), stack + [id], (stack + [id])[0])
  {
    if p.marks[id].Visiting? {
      PathExtended(DependencyEdges(c), stack, id);
      assert (stack + [id])[..|stack|] == stack;
    }
  }

  lemma EnteredType(c: Context, stack: seq<Id>, p: Progress, id: Id)
    requires Consistent(c, stack, p) && id !in p.marks && ReachesTop(c, stack, id)
    ensures Consistent(c, stack + [id], p.(marks := p.marks[id := Visiting]))
  {
    hide DependencyEdges, DependenciesFirst, Listed;
    PathExtended(DependencyEdges(c), stack, id);
  }

  lemma AllReachTop(c: Context, stack: seq<Id>, reg: nat)
    requires ValidContext(c) && reg < |c.registrations|
    ensures forall d <- Dependencies(c, reg) :: d in c.byType ==> ReachesTop(c, stack + [TypeOf(c, reg)], d)
  {
    forall d | d in Dependencies(c, reg) && d in c.byType ensures ReachesTop(c, stack + [TypeOf(c, reg)], d) {
      DependencyEdge(c, reg, d);
    }
  }

  lemma FinishedType(c: Context, stack: seq<Id>, q: Progress, reg: nat)
    requires reg < |c.registrations| && Consistent(c, stack + [TypeOf(c, reg)], q)
    requires TypeOf(c, reg) !in stack
    requires forall d <- Dependencies(c, reg) :: d in c.byType ==> Listed(c, q.sorted, d)
    ensures var after := Progress(q.marks[TypeOf(c, reg) := Done], q.sorted + [reg]);
            Consistent(c, stack, after) && Listed(c, after.sorted, TypeOf(c, reg))
  {
    hide DependencyEdges, DependenciesFirst, Listed;
    var id := TypeOf(c, reg);
    assert id in (stack + [id]);
    VisitingIsUnlisted(c, stack + [id], q, id);
    ListExtended(c, q.sorted, reg);
    var sorted := q.sorted + [reg];
    LastIsListed(c, q.sorted, reg);
    forall t | t in q.marks && q.marks[t].Done? ensures Listed(c, sorted, t) {
      ListedGrows(c, q.sorted, sorted, t);
    }
    assert forall k :: 0 <= k < |stack| ==> stack[k] == (stack + [id])[k];
    assert Path(DependencyEdges(c), stack);
  }

  lemma LastIsListed(c: Context, sorted: seq<nat>, reg: nat)
    requires reg < |c.registrations|
    ensures Listed(c, sorted + [reg], TypeOf(c, reg))
  {
    assert HasType(c, (sorted + [reg])[|sorted|], TypeOf(c, reg));
  }

  lemma VisitingIsUnlisted(c: Context, stack: seq<Id>, q: Progress, id: Id)
    requires Consistent(c, stack, q) && id in stack
    ensures !Listed(c, q.sorted, id)
  {
  }

  lemma ListExtended(c: Context, sorted: seq<nat>, reg: nat)
    requires reg < |c.registrations| && DependenciesFirst(c, sorted)
    requires !Listed(c, sorted, TypeOf(c, reg)) && DependenciesListed(c, reg, sorted)
    ensures DependenciesFirst(c, sorted + [reg])
  {
    var longer := sorted + [reg];
    forall i | 0 <= i < |longer| ensures DependenciesListed(c, longer[i], longer[..i]) {
      assert longer[..i] == sorted[..i];
      assert sorted[..|sorted|] == sorted;
    }
    assert forall i :: 0 <= i < |sorted| ==> DependenciesListed(c, sorted[i], sorted[..i]);
    forall i | 0 <= i < |sorted| ensures TypeOf(c, sorted[i]) != TypeOf(c, reg) {
      assert !HasType(c, sorted[i], TypeOf(c, reg));
    }
  }

  // ---- The whole schedule -------------------------------------------------

  lemma {:induction false} WalkFromSound(c: Context, i: nat, p: Progress)
    requires ValidContext(c) && i <= |c.registrations| && Consistent(c, [], p)
    ensures WalkResult(c, [], p, WalkFrom(c, i, p))
    ensures WalkFrom(c, i, p).Ok? ==>
              forall k :: i <= k < |c.registrations| ==> Listed(c, WalkFrom(c, i, p).value.sorted, TypeOf(c, k))
    decreases |c.registrations| - i
  {
    hide Consistent, Listed, DependencyEdges, Walk, ByType;
    if i < |c.registrations| {
      WalkSound(c, i, [], p);
      var r := Walk(c, i, [], p);
      if r.Ok? {
        WalkFromSound(c, i + 1, r.value);
        var rest := WalkFrom(c, i + 1, r.value);
        if rest.Ok? {
          ListedGrows(c, r.value.sorted, rest.value.sorted, TypeOf(c, i));
        }
      }
    }
  }

  /** Every declared type exactly once, after the declared types it depends on. */
  ghost predicate Complete(c: Context, sorted: seq<nat>) {
    DependenciesFirst(c, sorted) && forall id :: Listed(c, sorted, id) <==> id in c.byType
  }

  /** A schedule lists what it should; a failure reports a cycle of effective dependencies. */
  lemma ScheduleSound(c: Context)
    requires ValidContext(c)
    ensures match Schedule(c)
            case Ok(sorted) => Complete(c, sorted)
            case Err(path) => path != [] && Cycle(DependencyEdges(c), path, path[0])
  {
    hide DependencyEdges, WalkFrom;
    var start := Progress(map[], []);
    WalkFromSound(c, 0, start);
    var r := WalkFrom(c, 0, start);
    if r.Ok? {
      forall id ensures Listed(c, r.value.sorted, id) <==> id in c.byType {
        assert id in c.byType ==> TypeOf(c, c.byType[id]) == id;
        if Listed(c, r.value.sorted, id) {
          var k :| 0 <= k < |r.value.sorted| && HasType(c, r.value.sorted[k], id);
          TypeRegistered(c, r.value.sorted[k]);
        }
      }
    }
  }

  /** Registrations of one type never disagree about its dependencies. */
  ghost predicate Uniform(c: Context) {
    forall i, j :: 0 <= i < j < |c.registrations| && TypeOf(c, i) == TypeOf(c, j) ==>
      Dependencies(c, i) == Dependencies(c, j)
  }

  lemma UniformBeforeOverridesApply(c: Context, view: View)
    requires NoDuplicates(c.registrations, view) && view.pending == c.pending && view.applied == {}
    ensures Uniform(c)
  {
  }

  ghost predicate DependencyCycleFree(c: Context) {
    forall t <- c.byType :: Acyclic(DependencyEdges(c), t)
  }

  lemma CompleteIsCycleFree(c: Context, sorted: seq<nat>)
    requires ValidContext(c) && Uniform(c) && Complete(c, sorted)
    ensures DependencyCycleFree(c)
  {
    hide Listed, Acyclic, Edge, DependencyEdges;
    assert forall i :: 0 <= i < |sorted| ==> DependenciesListed(c, sorted[i], sorted[..i]);
    var types := seq(|sorted|, i requires 0 <= i < |sorted| && sorted[i] < |c.registrations| => TypeOf(c, sorted[i]));
    forall i, b | 0 <= i < |types| && Edge(DependencyEdges(c), types[i], b) ensures b in types[..i] {
      EdgeIsListed(c, sorted, i, b);
      ListedIsIn(c, sorted, types, i, b);
    }
    assert Topological(DependencyEdges(c), types);
    forall t | t in c.byType ensures Acyclic(DependencyEdges(c), t) {
      assert Listed(c, sorted, t) && sorted[..|sorted|] == sorted;
      ListedIsIn(c, sorted, types, |sorted|, t);
      TopologicalIsAcyclic(DependencyEdges(c), types, t);
    }
  }

  lemma EdgeHasRegistration(c: Context, t: Id, b: Id)
    requires ValidContext(c) && Edge(DependencyEdges(c), t, b)
    ensures exists k :: 0 <= k < |c.registrations| && TypeOf(c, k) == t && b in Dependencies(c, k)
    ensures b in c.byType
  {
    hide ByType;
    assert b in AllDependencies(c, t, |c.registrations|);
  }

  lemma EdgeIsListed(c: Context, sorted: seq<nat>, i: nat, b: Id)
    requires ValidContext(c) && Uniform(c) && DependenciesFirst(c, sorted) && i < |sorted|
    requires sorted[i] < |c.registrations| && Edge(DependencyEdges(c), TypeOf(c, sorted[i]), b)
    ensures Listed(c, sorted[..i], b)
  {
    hide Listed, ByType, DependencyEdges, DependenciesFirst;
    EdgeHasRegistration(c, TypeOf(c, sorted[i]), b);
    var k :| 0 <= k < |c.registrations| && TypeOf(c, k) == TypeOf(c, sorted[i]) && b in Dependencies(c, k);
    assert Dependencies(c, k) == Dependencies(c, sorted[i]) by { UniformAt(c, k, sorted[i]); }
    FirstAt(c, sorted, i);
  }

  lemma UniformAt(c: Context, i: nat, j: nat)
    requires Uniform(c) && i < |c.registrations| && j < |c.registrations| && TypeOf(c, i) == TypeOf(c, j)
    ensures Dependencies(c, i) == Dependencies(c, j)
  {
  }

  lemma FirstAt(c: Context, sorted: seq<nat>, i: nat)
    requires DependenciesFirst(c, sorted) && i < |sorted|
    ensures DependenciesListed(c, sorted[i], sorted[..i])
  {
  }

  lemma ListedIsIn(c: Context, sorted: seq<nat>, types: seq<Id>, i: nat, id: Id)
    requires |types| == |sorted| && i <= |sorted| && Listed(c, sorted[..i], id)
    requires forall k :: 0 <= k < |sorted| ==> HasType(c, sorted[k], types[k])
    ensures id in types[..i]
  {
    var k :| 0 <= k < i && HasType(c, sorted[..i][k], id);
    assert types[..i][k] == id;
  }

  /** Scheduling fails exactly when declared types depend on each other in a circle. */
  lemma ScheduleExact(c: Context)
    requires ValidContext(c) && Uniform(c)
    ensures Schedule(c).Ok? <==> DependencyCycleFree(c)
  {
    hide Schedule, Complete, Acyclic, DependencyEdges;
    ScheduleSound(c);
    if Schedule(c).Ok? {
      CompleteIsCycleFree(c, Schedule(c).value);
    } else {
      CycleStartsAtDeclaredType(c, Schedule(c).error);
    }
  }

  lemma CycleStartsAtDeclaredType(c: Context, path: seq<Id>)
    requires path != [] && Cycle(DependencyEdges(c), path, path[0])
    ensures !DependencyCycleFree(c)
  {
    assert Edge(DependencyEdges(c), path[0], path[1]);
  }
}
