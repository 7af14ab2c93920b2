/** Discovery of the module graph: a depth-first walk from the root module that reports circular
    imports, and a second walk that lists imported modules before their importers. */
module ModuleDiscovery {
  import opened Wrappers
  import opened Graphs

  /** What a module's registration returns: its imports, and whether its controllers' routes
      are valid. */
  datatype Metadata = Metadata(imports: seq<Id>, validRoutes: bool)

  /** Every module type and its metadata; imports name module types. */
  type Universe = map<Id, Metadata>

  ghost predicate Closed(u: Universe) { forall m <- u, i <- u[m].imports :: i in u }

  ghost function Imports(u: Universe): Edges { map m | m in u :: u[m].imports }

  /** A discovered module; imports are positions in the list it is part of. */
  datatype Node = Node(id: Id, imports: seq<nat>)

  datatype DiscoveryError = CircularImport(path: seq<Id>) | InvalidRoutes(id: Id)

  datatype Mark = Visiting | Done

  // ---- Node lists ---------------------------------------------------------

  ghost predicate HasNode(nodes: seq<Node>, id: Id) { exists i :: 0 <= i < |nodes| && nodes[i].id == id }

  ghost predicate DistinctNodes(nodes: seq<Node>) {
    forall i, j :: 0 <= i < j < |nodes| ==> nodes[i].id != nodes[j].id
  }

  /** The first `count` imports of a module have been resolved to positions. */
  ghost predicate Resolved(u: Universe, nodes: seq<Node>, node: Node, count: nat) {
    && node.id in u
    && |node.imports| == count <= |u[node.id].imports|
    && forall k :: 0 <= k < count ==>
         node.imports[k] < |nodes| && nodes[node.imports[k]].id == u[node.id].imports[k]
  }

  ghost predicate FullyResolved(u: Universe, nodes: seq<Node>, node: Node) {
    node.id in u && Resolved(u, nodes, node, |u[node.id].imports|)
  }

  function PositionOf(nodes: seq<Node>, id: Id): (i: nat)
    ensures i <= |nodes|
    ensures i < |nodes| ==> nodes[i].id == id
    ensures i == |nodes| ==> forall n <- nodes :: n.id != id
  {
    if nodes == [] || nodes[0].id == id then 0 else 1 + PositionOf(nodes[1..], id)
  }

  // ---- The first walk -----------------------------------------------------

  /** The walk's state makes sense: marked modules are those on the current path and those
      finished, which are listed after everything they import. */
  ghost predicate Explored(u: Universe, root: Id, nodes: seq<Node>, marks: map<Id, Mark>, path: seq<Id>,
                           finished: seq<Id>) {
    && DistinctNodes(nodes)
    && (forall n <- nodes :: n.id in marks && n.id in u && u[n.id].validRoutes && Reaches(Imports(u), root, n.id))
    && (forall id <- marks :: HasNode(nodes, id))
    && (forall id <- marks :: if marks[id].Done? then id in finished else id in path)
    && (forall id <- path :: id in marks && marks[id].Visiting?)
    && (forall id <- finished :: id in marks && marks[id].Done?)
    && (path != [] ==> path[0] == root && Path(Imports(u), path))
    && Topological(Imports(u), finished)
    && (forall n <- nodes :: n.id in finished ==> FullyResolved(u, nodes, n))
  }

  /** The module about to be visited is imported by the one on top of the path. */
  ghost predicate Next(u: Universe, root: Id, path: seq<Id>, id: Id) {
    && id in u
    && Reaches(Imports(u), root, id)
    && (if path == [] then id == root else Edge(Imports(u), path[|path| - 1], id))
  }

  ghost predicate Justified(u: Universe, root: Id, error: DiscoveryError) {
    match error
    case CircularImport(path) => Cycle(Imports(u), path, root)
    case InvalidRoutes(id) => id in u && !u[id].validRoutes && Reaches(Imports(u), root, id)
  }

  class Discovery {
    const universe: Universe
    ghost const root: Id
    var nodes: seq<Node>
    var marks: map<Id, Mark>
    var path: seq<Id>
    ghost var finished: seq<Id>

    constructor (universe: Universe, root: Id)
      ensures this.universe == universe && this.root == root
      ensures Explored(universe, root, nodes, marks, path, finished) && path == []
    {
      this.universe, this.root := universe, root;
      nodes, marks, path, finished := [], map[], [], [];
    }

    method Visit(id: Id) returns (r: Result<nat, DiscoveryError>)
      requires Closed(universe) && Explored(universe, root, nodes, marks, path, finished)
      requires Next(universe, root, path, id)
      modifies this
      ensures match r
              case Err(error) => Justified(universe, root, error)
              case Ok(index) =>
                && Explored(universe, root, nodes, marks, path, finished)
                && path == old(path) && old(finished) <= finished && old(marks).Keys <= marks.Keys
                && old(nodes) <= nodes && index < |nodes| && nodes[index].id == id && id in finished
      decreases |universe.Keys - marks.Keys|, 0
    {
      hide Explored, Reaches, Topological, Resolved, Path, DistinctNodes;
      if id in marks {
        KnownModule(universe, root, nodes, marks, path, finished, id);
        if marks[id].Done? {
          return Ok(PositionOf(nodes, id));
        }
        return Err(CircularImport(path + [id]));
      }
      marks := marks[id := Visiting];
      path := path + [id];
      if !universe[id].validRoutes {
        return Err(InvalidRoutes(id));
      }
      var index := |nodes|;
      nodes := nodes + [Node(id, [])];
      Entered(universe, root, old(nodes), old(marks), old(path), finished, id);
      Fewer(universe.Keys, old(marks).Keys, marks.Keys, id);
      var failure := VisitImports(index);
      if failure.Some? {
        return Err(failure.value);
      }
      Finishing(universe, root, nodes, marks, path, finished, index);
      path := path[..|path| - 1];
      marks := marks[id := Done];
      finished := finished + [id];
      assert path == old(path);
      return Ok(index);
    }

    /** Visits the imports of the module on top of the path, in order, recording their positions. */
    method VisitImports(index: nat) returns (failure: Option<DiscoveryError>)
      requires Closed(universe) && Explored(universe, root, nodes, marks, path, finished)
      requires index < |nodes| && nodes[index].imports == [] && nodes[index].id in universe
      requires path != [] && path[|path| - 1] == nodes[index].id
      modifies this
      ensures match failure
              case Some(error) => Justified(universe, root, error)
              case None =>
                && path == old(path) && old(finished) <= finished && old(marks).Keys <= marks.Keys
                && Imported(universe, root, old(nodes), nodes, marks, path, finished, index)
      decreases |universe.Keys - marks.Keys|, 1
    {
      hide *;
      var imports := universe[nodes[index].id].imports;
      ImportingStarts(universe, root, nodes, marks, path, finished, index);
      var k := 0;
      while k < |imports|
        invariant 0 <= k <= |imports|
        invariant Importing(universe, root, old(nodes), nodes, marks, path, finished, index, k)
        invariant path == old(path) && old(finished) <= finished && old(marks).Keys <= marks.Keys
      {
        ghost var before, marksBefore, finishedBefore := nodes, marks, finished;
        ImportingIsNext(universe, root, old(nodes), nodes, marks, path, finished, index, k);
        NoMore(universe.Keys, old(marks).Keys, marks.Keys);
        var child := Visit(imports[k]);
        if child.Err? {
          return Some(child.error);
        }
        ImportingNext(universe, root, old(nodes), before, marksBefore, finishedBefore, nodes, marks, path, finished,
                      index, k, child.value);
        nodes := nodes[index := nodes[index].(imports := nodes[index].imports + [child.value])];
        k := k + 1;
      }
      ImportingEnds(universe, root, old(nodes), nodes, marks, path, finished, index);
      failure := None;
    }
  }

  /** All imports of the module at `index` have been visited and resolved. */
  ghost predicate Imported(u: Universe, root: Id, start: seq<Node>, nodes: seq<Node>, marks: map<Id, Mark>,
                           path: seq<Id>, finished: seq<Id>, index: nat) {
    && Explored(u, root, nodes, marks, path, finished)
    && index < |start| && index < |nodes| && start[..index] <= nodes && nodes[index].id == start[index].id
    && FullyResolved(u, nodes, nodes[index]) && forall i <- u[nodes[index].id].imports :: i in finished
  }

  /** The module at `index`, on top of the path, has had its first `k` imports visited; `start` is what
      was listed when that began. */
  ghost predicate Importing(u: Universe, root: Id, start: seq<Node>, nodes: seq<Node>, marks: map<Id, Mark>,
                            path: seq<Id>, finished: seq<Id>, index: nat, k: nat) {
    && Explored(u, root, nodes, marks, path, finished)
    && index < |start| && index < |nodes| && start[..index] <= nodes && nodes[index].id == start[index].id
    && path != [] && path[|path| - 1] == nodes[index].id
    && Resolved(u, nodes, nodes[index], k)
    && forall j :: 0 <= j < k ==> u[nodes[index].id].imports[j] in finished
  }

  lemma ImportingStarts(u: Universe, root: Id, nodes: seq<Node>, marks: map<Id, Mark>, path: seq<Id>, finished: seq<Id>,
                        index: nat)
    requires Explored(u, root, nodes, marks, path, finished)
    requires index < |nodes| && nodes[index].imports == [] && nodes[index].id in u
    requires path != [] && path[|path| - 1] == nodes[index].id
    ensures Importing(u, root, nodes, nodes, marks, path, finished, index, 0)
  {
    hide Explored;
  }

  lemma ImportingIsNext(u: Universe, root: Id, start: seq<Node>, nodes: seq<Node>, marks: map<Id, Mark>, path: seq<Id>,
                        finished: seq<Id>, index: nat, k: nat)
    requires Closed(u) && Importing(u, root, start, nodes, marks, path, finished, index, k)
    requires start[index].id in u && k < |u[start[index].id].imports|
    ensures Explored(u, root, nodes, marks, path, finished) && Next(u, root, path, u[start[index].id].imports[k])
  {
    hide Explored, Next, Resolved;
    ImportIsNext(u, root, nodes, marks, path, finished, nodes[index].id, k);
  }

  lemma ImportingNext(u: Universe, root: Id, start: seq<Node>, before: seq<Node>, marks0: map<Id, Mark>,
                      finished0: seq<Id>, nodes: seq<Node>, marks: map<Id, Mark>, path: seq<Id>, finished: seq<Id>,
                      index: nat, k: nat, child: nat)
    requires Importing(u, root, start, before, marks0, path, finished0, index, k)
    requires Explored(u, root, nodes, marks, path, finished) && before <= nodes && finished0 <= finished
    requires start[index].id in u && k < |u[start[index].id].imports|
    requires child < |nodes| && nodes[child].id == u[start[index].id].imports[k] && nodes[child].id in finished
    ensures index < |nodes|
    ensures var after := nodes[index := nodes[index].(imports := nodes[index].imports + [child])];
            Importing(u, root, start, after, marks, path, finished, index, k + 1)
  {
    hide Explored, Resolved;
    assert nodes[index] == before[index];
    StillVisiting(u, root, nodes, marks, path, finished, nodes[index].id);
    ImportResolved(u, root, before, nodes, marks, path, finished, index, k, child);
  }

  lemma ImportingEnds(u: Universe, root: Id, start: seq<Node>, nodes: seq<Node>, marks: map<Id, Mark>, path: seq<Id>,
                      finished: seq<Id>, index: nat)
    requires index < |start| && start[index].id in u
    requires Importing(u, root, start, nodes, marks, path, finished, index, |u[start[index].id].imports|)
    ensures Imported(u, root, start, nodes, marks, path, finished, index)
  {
    hide Explored, Resolved;
  }

  lemma NoMore(all: set<Id>, before: set<Id>, after: set<Id>)
    requires before <= after
    ensures |all - after| <= |all - before|
  {
    assert all - after <= all - before;
    SubsetIsSmaller(all - after, all - before);
  }

  lemma Fewer(all: set<Id>, before: set<Id>, after: set<Id>, id: Id)
    requires before < after && id in all && id in after && id !in before
    ensures |all - after| < |all - before|
  {
    assert all - after <= all - before - {id};
    SubsetIsSmaller(all - after, all - before - {id});
  }

  lemma KnownModule(u: Universe, root: Id, nodes: seq<Node>, marks: map<Id, Mark>, path: seq<Id>, finished: seq<Id>,
                    id: Id)
    requires Explored(u, root, nodes, marks, path, finished) && Next(u, root, path, id) && id in marks
    ensures PositionOf(nodes, id) < |nodes|
    ensures marks[id].Done? ==> id in finished
    ensures marks[id].Visiting? ==> Cycle(Imports(u), path + [id], root)
  {
    assert HasNode(nodes, id);
    if marks[id].Visiting? {
      PathExtended(Imports(u), path, id);
      assert (path + [id])[..|path|] == path;
    }
  }

  lemma Entered(u: Universe, root: Id, nodes: seq<Node>, marks: map<Id, Mark>, path: seq<Id>, finished: seq<Id>, id: Id)
    requires Explored(u, root, nodes, marks, path, finished) && Next(u, root, path, id)
    requires id !in marks && u[id].validRoutes
    ensures Explored(u, root, nodes + [Node(id, [])], marks[id := Visiting], path + [id], finished)
    ensures id !in finished && id !in path
  {
    hide Reaches, Topological;
    var grown := nodes + [Node(id, [])];
    PathExtended(Imports(u), path, id);
    forall m | m in marks[id := Visiting] ensures HasNode(grown, m) {
      if m == id {
        assert grown[|nodes|].id == m;
      } else {
        assert HasNode(nodes, m);
        var i :| 0 <= i < |nodes| && nodes[i].id == m;
        assert grown[i].id == m;
      }
    }
    forall n | n in grown && n.id in finished ensures FullyResolved(u, grown, n) {
      assert n in nodes;
    }
  }

  lemma ImportIsNext(u: Universe, root: Id, nodes: seq<Node>, marks: map<Id, Mark>, path: seq<Id>, finished: seq<Id>,
                     id: Id, k: nat)
    requires Closed(u) && Explored(u, root, nodes, marks, path, finished)
    requires id in u && k < |u[id].imports| && path != [] && path[|path| - 1] == id
    ensures Next(u, root, path, u[id].imports[k])
  {
    assert Leads(Imports(u), path, root, id);
    assert Edge(Imports(u), id, u[id].imports[k]);
    ReachesNext(Imports(u), root, id, u[id].imports[k]);
  }

  lemma StillVisiting(u: Universe, root: Id, nodes: seq<Node>, marks: map<Id, Mark>, path: seq<Id>, finished: seq<Id>,
                      id: Id)
    requires Explored(u, root, nodes, marks, path, finished) && id in path
    ensures id !in finished
  {
  }

  lemma ImportResolved(u: Universe, root: Id, before: seq<Node>, nodes: seq<Node>, marks: map<Id, Mark>, path: seq<Id>,
                       finished: seq<Id>, index: nat, k: nat, child: nat)
    requires Explored(u, root, nodes, marks, path, finished) && before <= nodes
    requires index < |before| && Resolved(u, before, before[index], k) && k < |u[nodes[index].id].imports|
    requires child < |nodes| && nodes[child].id == u[nodes[index].id].imports[k] && nodes[index].id !in finished
    ensures var after := nodes[index := nodes[index].(imports := nodes[index].imports + [child])];
            && Explored(u, root, after, marks, path, finished)
            && Resolved(u, after, after[index], k + 1)
  {
    hide Reaches, Topological, Resolved;
    var after := nodes[index := nodes[index].(imports := nodes[index].imports + [child])];
    ResolvedOneMore(u, before, nodes, index, k, child);
    forall m | m in marks ensures HasNode(after, m) {
      assert HasNode(nodes, m);
      var i :| 0 <= i < |nodes| && nodes[i].id == m;
      assert after[i].id == m;
    }
    forall n | n in after && n.id in finished ensures FullyResolved(u, after, n) {
      assert n in nodes;
      SameIds(u, nodes, after, n, |u[n.id].imports|);
    }
  }

  lemma SameIds(u: Universe, nodes: seq<Node>, after: seq<Node>, node: Node, count: nat)
    requires Resolved(u, nodes, node, count)
    requires |nodes| <= |after| && forall i :: 0 <= i < |nodes| ==> after[i].id == nodes[i].id
    ensures Resolved(u, after, node, count)
  {
  }

  lemma ResolvedOneMore(u: Universe, before: seq<Node>, nodes: seq<Node>, index: nat, k: nat, child: nat)
    requires before <= nodes && index < |before| && Resolved(u, before, before[index], k)
    requires k < |u[nodes[index].id].imports|
    requires child < |nodes| && nodes[child].id == u[nodes[index].id].imports[k]
    ensures var after := nodes[index := nodes[index].(imports := nodes[index].imports + [child])];
            Resolved(u, after, after[index], k + 1)
  {
    assert nodes[index] == before[index];
    SameIds(u, before, nodes, nodes[index], k);
  }

  lemma Finishing(u: Universe, root: Id, nodes: seq<Node>, marks: map<Id, Mark>, path: seq<Id>, finished: seq<Id>,
                  index: nat)
    requires Explored(u, root, nodes, marks, path, finished) && index < |nodes|
    requires FullyResolved(u, nodes, nodes[index]) && path != [] && path[|path| - 1] == nodes[index].id
    requires nodes[index].id !in path[..|path| - 1]
    requires forall i <- u[nodes[index].id].imports :: i in finished
    ensures var id := nodes[index].id;
            Explored(u, root, nodes, marks[id := Done], path[..|path| - 1], finished + [id])
  {
    hide Reaches;
    var id := nodes[index].id;
    StillVisiting(u, root, nodes, marks, path, finished, id);
    TopologicalExtended(Imports(u), finished, id);
    forall n | n in nodes && n.id in finished + [id] ensures FullyResolved(u, nodes, n) {
      if n.id == id {
        var i :| 0 <= i < |nodes| && nodes[i] == n;
        assert i == index;
      }
    }
  }

  // ---- The second walk ----------------------------------------------------

  /** Positions whose imports all rank lower; `rank` exists once the first walk has succeeded. */
  ghost predicate Ranked(nodes: seq<Node>, rank: seq<nat>) {
    && |rank| == |nodes|
    && forall i, k :: 0 <= i < |nodes| && 0 <= k < |nodes[i].imports| ==>
         nodes[i].imports[k] < |nodes| && rank[nodes[i].imports[k]] < rank[i]
  }

  /** Distinct positions, each after its imports. */
  ghost predicate ImportsFirst(nodes: seq<Node>, ordered: seq<nat>) {
    && (forall i <- ordered :: i < |nodes|)
    && (forall a, b :: 0 <= a < b < |ordered| ==> ordered[a] != ordered[b])
    && forall a :: 0 <= a < |ordered| ==>
         ordered[a] < |nodes| && forall i <- nodes[ordered[a]].imports :: i in ordered[..a]
  }

  lemma ListedAfterImports(nodes: seq<Node>, ordered: seq<nat>, index: nat)
    requires ImportsFirst(nodes, ordered) && index < |nodes| && index !in ordered
    requires forall i <- nodes[index].imports :: i in ordered
    ensures ImportsFirst(nodes, ordered + [index])
  {
    var longer := ordered + [index];
    assert ordered[..|ordered|] == ordered;
    forall a | 0 <= a < |longer|
      ensures longer[a] < |nodes| && forall i <- nodes[longer[a]].imports :: i in longer[..a]
    {
      assert longer[..a] == ordered[..a];
    }
  }

  class Ordering {
    const nodes: seq<Node>
    ghost const rank: seq<nat>
    var seen: set<nat>
    var ordered: seq<nat>

    constructor (nodes: seq<Node>, ghost rank: seq<nat>)
      ensures this.nodes == nodes && this.rank == rank && seen == {} && ordered == []
    {
      this.nodes, this.rank := nodes, rank;
      seen, ordered := {}, [];
    }

    /** Positions entered but not listed yet are importers of the current one: they rank higher. */
    method Order(index: nat)
      requires Ranked(nodes, rank) && ImportsFirst(nodes, ordered) && index < |nodes|
      requires (forall i <- ordered :: i in seen) && (forall i <- seen :: i < |nodes|)
      requires forall i <- seen :: i !in ordered ==> rank[i] > rank[index]
      modifies this
      ensures ImportsFirst(nodes, ordered) && index in ordered && old(ordered) <= ordered
      ensures (forall i <- ordered :: i in seen) && (forall i <- seen :: i < |nodes|)
      ensures old(seen) <= seen
      ensures forall i <- seen :: i !in ordered <==> i in old(seen) && i !in old(ordered)
      ensures index !in old(seen) ==> ordered[|ordered| - 1] == index
      decreases rank[index]
    {
      hide ImportsFirst;
      if index in seen {
        return;
      }
      seen := seen + {index};
      for k := 0 to |nodes[index].imports|
        invariant ImportsFirst(nodes, ordered) && old(ordered) <= ordered && old(seen) + {index} <= seen
        invariant (forall i <- ordered :: i in seen) && (forall i <- seen :: i < |nodes|)
        invariant forall i <- seen :: i !in ordered <==> i == index || (i in old(seen) && i !in old(ordered))
        invariant forall j :: 0 <= j < k ==> nodes[index].imports[j] in ordered
      {
        Order(nodes[index].imports[k]);
      }
      ListedAfterImports(nodes, ordered, index);
      ordered := ordered + [index];
    }
  }

  /** Each listed node, with its imports renumbered to positions in the new list. */
  ghost predicate Renumbered(nodes: seq<Node>, ordered: seq<nat>, result: seq<Node>, count: nat)
    requires count <= |ordered|
  {
    && |result| == count
    && forall k :: 0 <= k < count ==>
         && ordered[k] < |nodes|
         && result[k].id == nodes[ordered[k]].id
         && |result[k].imports| == |nodes[ordered[k]].imports|
         && forall j :: 0 <= j < |result[k].imports| ==>
              && result[k].imports[j] < k
              && ordered[result[k].imports[j]] == nodes[ordered[k]].imports[j]
  }

  method Renumber(nodes: seq<Node>, ordered: seq<nat>) returns (result: seq<Node>)
    requires ImportsFirst(nodes, ordered)
    ensures Renumbered(nodes, ordered, result, |ordered|)
  {
    var remap := Positions(ordered);
    var slots := seq(|nodes|, i requires 0 <= i < |nodes| => Some(nodes[i]));
    result := [];
    for n := 0 to |ordered|
      invariant |slots| == |nodes| && Renumbered(nodes, ordered, result, n)
      invariant forall k :: n <= k < |ordered| ==> slots[ordered[k]] == Some(nodes[ordered[k]])
    {
      hide Renumbered;
      var index := ordered[n];
      var node := slots[index].value;
      slots := slots[index := None];
      forall i | i in node.imports ensures i in remap && remap[i] < n && ordered[remap[i]] == i {
        assert i in ordered[..n];
        var k :| 0 <= k < n && ordered[k] == i;
      }
      var imports := Remapped(node.imports, remap);
      RenumberedOneMore(nodes, ordered, result, n, imports);
      result := result + [Node(node.id, imports)];
    }
  }

  function Remapped(imports: seq<nat>, remap: map<nat, nat>): (r: seq<nat>)
    requires forall i <- imports :: i in remap
    ensures |r| == |imports| && forall j :: 0 <= j < |r| ==> imports[j] in imports && r[j] == remap[imports[j]]
  {
    seq(|imports|, j requires 0 <= j < |imports| && imports[j] in remap => remap[imports[j]])
  }

  lemma RenumberedOneMore(nodes: seq<Node>, ordered: seq<nat>, result: seq<Node>, n: nat, imports: seq<nat>)
    requires n < |ordered| && ordered[n] < |nodes| && Renumbered(nodes, ordered, result, n)
    requires |imports| == |nodes[ordered[n]].imports|
    requires forall j :: 0 <= j < |imports| ==> imports[j] < n && ordered[imports[j]] == nodes[ordered[n]].imports[j]
    ensures Renumbered(nodes, ordered, result + [Node(nodes[ordered[n]].id, imports)], n + 1)
  {
  }

  method Positions(ordered: seq<nat>) returns (remap: map<nat, nat>)
    requires forall a, b :: 0 <= a < b < |ordered| ==> ordered[a] != ordered[b]
    ensures forall k :: 0 <= k < |ordered| ==> ordered[k] in remap && remap[ordered[k]] == k
  {
    remap := map[];
    for n := 0 to |ordered|
      invariant forall k :: 0 <= k < n ==> ordered[k] in remap && remap[ordered[k]] == k
    {
      remap := remap[ordered[n] := n];
    }
  }

  // ---- Discovery ----------------------------------------------------------

  /** The module list startup works on. */
  ghost predicate Sorted(u: Universe, root: Id, nodes: seq<Node>) {
    && DistinctNodes(nodes)
    && (forall id :: HasNode(nodes, id) <==> Reaches(Imports(u), root, id))
    && (forall i :: 0 <= i < |nodes| ==> FullyResolved(u, nodes, nodes[i]) && forall j <- nodes[i].imports :: j < i)
    && nodes != [] && nodes[|nodes| - 1].id == root
    && (forall n <- nodes :: u[n.id].validRoutes)
  }

  ghost predicate AllRoutesValid(u: Universe, root: Id) {
    forall id :: id in u && Reaches(Imports(u), root, id) ==> u[id].validRoutes
  }

  /** Discovery fails exactly when the imports reachable from the root have a cycle or a module
      with invalid routes, and says where; otherwise it lists every reachable module once, each
      after everything it imports and the root last. */
  method DiscoverFrom(u: Universe, root: Id) returns (r: Result<seq<Node>, DiscoveryError>)
    requires Closed(u) && root in u
    ensures r.Ok? ==> Sorted(u, root, r.value)
    ensures r.Err? ==> Justified(u, root, r.error)
    ensures r.Ok? <==> Acyclic(Imports(u), root) && AllRoutesValid(u, root)
  {
    hide Explored, Justified, Sorted, Acyclic, AllRoutesValid, Ranked, Reaches, Closed;
    var discovery := new Discovery(u, root);
    ReachesSelf(Imports(u), root);
    var visited := discovery.Visit(root);
    if visited.Err? {
      JustifiedFails(u, root, visited.error);
      return Err(visited.error);
    }
    var nodes := discovery.nodes;
    ghost var rank := FinishRank(u, root, nodes, discovery.marks, discovery.finished);
    var result, ordered := ListImportsFirst(nodes, rank, visited.value);
    ListIsSorted(u, root, nodes, discovery.marks, discovery.finished, ordered, visited.value, result);
    SortedIsAcyclic(u, root, result);
    return Ok(result);
  }

  method ListImportsFirst(nodes: seq<Node>, ghost rank: seq<nat>, root: nat)
    returns (result: seq<Node>, ordered: seq<nat>)
    requires Ranked(nodes, rank) && root < |nodes|
    ensures ImportsFirst(nodes, ordered) && Renumbered(nodes, ordered, result, |ordered|)
    ensures |result| == |ordered| > 0 && ordered[|ordered| - 1] == root
  {
    hide Ranked;
    var ordering := new Ordering(nodes, rank);
    ordering.Order(root);
    ordered := ordering.ordered;
    result := Renumber(nodes, ordered);
  }

  lemma JustifiedFails(u: Universe, root: Id, error: DiscoveryError)
    requires Justified(u, root, error)
    ensures !(Acyclic(Imports(u), root) && AllRoutesValid(u, root))
  {
  }

  /** With nothing left on the path every module is finished, and the finishing order ranks them. */
  lemma FinishRank(u: Universe, root: Id, nodes: seq<Node>, marks: map<Id, Mark>, finished: seq<Id>)
    returns (rank: seq<nat>)
    requires Closed(u) && Explored(u, root, nodes, marks, [], finished)
    ensures Ranked(nodes, rank)
  {
    hide Reaches;
    assert forall n <- nodes :: n.id in finished;
    rank := seq(|nodes|, i requires 0 <= i < |nodes| && nodes[i].id in finished => Rank(finished, nodes[i].id));
    forall i, k | 0 <= i < |nodes| && 0 <= k < |nodes[i].imports|
      ensures nodes[i].imports[k] < |nodes| && rank[nodes[i].imports[k]] < rank[i]
    {
      assert nodes[i] in nodes && FullyResolved(u, nodes, nodes[i]);
      assert Edge(Imports(u), nodes[i].id, u[nodes[i].id].imports[k]);
      EdgeDescends(Imports(u), finished, nodes[i].id, u[nodes[i].id].imports[k]);
    }
  }

  lemma ListIsSorted(u: Universe, root: Id, nodes: seq<Node>, marks: map<Id, Mark>, finished: seq<Id>,
                     ordered: seq<nat>, index: nat, result: seq<Node>)
    requires Closed(u) && Explored(u, root, nodes, marks, [], finished)
    requires ImportsFirst(nodes, ordered) && Renumbered(nodes, ordered, result, |ordered|)
    requires index < |nodes| && nodes[index].id == root && |result| == |ordered| > 0 && ordered[|ordered| - 1] == index
    ensures Sorted(u, root, result)
  {
    hide Reaches, Topological, Resolved, ImportsFirst, Renumbered;
    forall i | 0 <= i < |result| ensures FullyResolved(u, result, result[i]) && forall j <- result[i].imports :: j < i {
      assert ordered[i] < |nodes| && nodes[ordered[i]] in nodes by { RenumberedAt(nodes, ordered, result, i); }
      ResolvedRenumbered(u, nodes, ordered, result, i);
    }
    forall n | n in result ensures u[n.id].validRoutes && Reaches(Imports(u), root, n.id) {
      var i :| 0 <= i < |result| && result[i] == n;
      RenumberedAt(nodes, ordered, result, i);
      assert nodes[ordered[i]] in nodes;
    }
    RenumberedDistinct(nodes, ordered, result);
    RenumberedAt(nodes, ordered, result, |ordered| - 1);
    forall id ensures HasNode(result, id) <==> Reaches(Imports(u), root, id) {
      if Reaches(Imports(u), root, id) {
        ReachableIsListed(u, root, result, id);
      }
    }
  }

  lemma RenumberedAt(nodes: seq<Node>, ordered: seq<nat>, result: seq<Node>, i: nat)
    requires i < |ordered| && Renumbered(nodes, ordered, result, |ordered|)
    ensures |result| == |ordered| && ordered[i] < |nodes| && result[i].id == nodes[ordered[i]].id
  {
  }

  lemma RenumberedDistinct(nodes: seq<Node>, ordered: seq<nat>, result: seq<Node>)
    requires DistinctNodes(nodes) && ImportsFirst(nodes, ordered) && Renumbered(nodes, ordered, result, |ordered|)
    ensures DistinctNodes(result) && |result| == |ordered|
  {
    forall i, j | 0 <= i < j < |result| ensures result[i].id != result[j].id {
      assert ordered[i] != ordered[j];
    }
  }

  lemma ResolvedRenumbered(u: Universe, nodes: seq<Node>, ordered: seq<nat>, result: seq<Node>, i: nat)
    requires i < |ordered| && Renumbered(nodes, ordered, result, |ordered|)
    requires ordered[i] < |nodes| && FullyResolved(u, nodes, nodes[ordered[i]])
    ensures FullyResolved(u, result, result[i]) && forall j <- result[i].imports :: j < i
  {
  }

  /** A list that resolves its own imports and holds the root holds everything reachable. */
  lemma ReachableIsListed(u: Universe, root: Id, result: seq<Node>, id: Id)
    requires forall i :: 0 <= i < |result| ==> FullyResolved(u, result, result[i])
    requires result != [] && result[|result| - 1].id == root && Reaches(Imports(u), root, id)
    ensures HasNode(result, id)
  {
    var members := set n <- result :: n.id;
    forall a, b | a in members && Edge(Imports(u), a, b) ensures b in members {
      var i :| 0 <= i < |result| && result[i].id == a;
      assert FullyResolved(u, result, result[i]);
      var k :| 0 <= k < |u[a].imports| && u[a].imports[k] == b;
      assert result[result[i].imports[k]].id == b;
    }
    var path :| Leads(Imports(u), path, root, id);
    assert result[|result| - 1] in result;
    ClosedHolds(Imports(u), members, path);
    var n :| n in result && n.id == id;
  }

  lemma SortedIsAcyclic(u: Universe, root: Id, nodes: seq<Node>)
    requires Sorted(u, root, nodes)
    ensures Acyclic(Imports(u), root) && AllRoutesValid(u, root)
  {
    var order := seq(|nodes|, i requires 0 <= i < |nodes| => nodes[i].id);
    forall i, b | 0 <= i < |order| && Edge(Imports(u), order[i], b) ensures b in order[..i] {
      assert FullyResolved(u, nodes, nodes[i]);
      var k :| 0 <= k < |u[order[i]].imports| && u[order[i]].imports[k] == b;
      var j := nodes[i].imports[k];
      assert j in nodes[i].imports;
      assert order[..i][j] == b;
    }
    assert order[|order| - 1] == root;
    TopologicalIsAcyclic(Imports(u), order, root);
    forall id | id in u && Reaches(Imports(u), root, id) ensures u[id].validRoutes {
      assert HasNode(nodes, id);
      var i :| 0 <= i < |nodes| && nodes[i].id == id;
      assert nodes[i] in nodes;
    }
  }
}
