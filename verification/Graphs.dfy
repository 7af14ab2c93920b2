/** Directed graphs given by adjacency lists: paths, cycles and rankings. */
module Graphs {

  /** An opaque type identity, of a module or of a provider. */
  type Id = nat

  type Edges = map<Id, seq<Id>>

  ghost predicate Edge(edges: Edges, a: Id, b: Id) { a in edges && b in edges[a] }

  ghost predicate Path(edges: Edges, path: seq<Id>) {
    forall i :: 0 < i < |path| ==> Edge(edges, path[i - 1], path[i])
  }

  ghost predicate Leads(edges: Edges, path: seq<Id>, from: Id, to: Id) {
    path != [] && path[0] == from && path[|path| - 1] == to && Path(edges, path)
  }

  ghost predicate Reaches(edges: Edges, from: Id, to: Id) {
    exists path :: Leads(edges, path, from, to)
  }

  /** A path from `from` whose last step comes back to something already on it. */
  ghost predicate Cycle(edges: Edges, path: seq<Id>, from: Id) {
    |path| >= 2 && path[0] == from && Path(edges, path) && path[|path| - 1] in path[..|path| - 1]
  }

  ghost predicate Acyclic(edges: Edges, from: Id) {
    forall path :: !Cycle(edges, path, from)
  }

  lemma PathExtended(edges: Edges, path: seq<Id>, next: Id)
    requires Path(edges, path) && (path != [] ==> Edge(edges, path[|path| - 1], next))
    ensures Path(edges, path + [next])
  {
  }

  lemma ReachesSelf(edges: Edges, a: Id)
    ensures Reaches(edges, a, a)
  {
    assert Leads(edges, [a], a, a);
  }

  lemma ReachesNext(edges: Edges, from: Id, a: Id, b: Id)
    requires Reaches(edges, from, a) && Edge(edges, a, b)
    ensures Reaches(edges, from, b)
  {
    var path :| Leads(edges, path, from, a);
    PathExtended(edges, path, b);
    assert Leads(edges, path + [b], from, b);
  }

  /** A set closed under edges holds everything reachable from its members. */
  lemma {:induction false} ClosedHolds(edges: Edges, members: set<Id>, path: seq<Id>)
    requires forall a, b :: a in members && Edge(edges, a, b) ==> b in members
    requires path != [] && path[0] in members && Path(edges, path)
    ensures path[|path| - 1] in members
  {
    if |path| > 1 {
      var n := |path| - 1;
      ClosedHolds(edges, members, path[..n]);
      assert Edge(edges, path[n - 1], path[n]);
    }
  }

  /** Each member comes after everything it has an edge to. */
  ghost predicate Topological(edges: Edges, order: seq<Id>) {
    && (forall i, j :: 0 <= i < j < |order| ==> order[i] != order[j])
    && forall i, b :: 0 <= i < |order| && Edge(edges, order[i], b) ==> b in order[..i]
  }

  ghost function Rank(order: seq<Id>, a: Id): (i: nat)
    requires a in order
    ensures i < |order| && order[i] == a
  {
    var i :| 0 <= i < |order| && order[i] == a;
    i
  }

  lemma EdgeDescends(edges: Edges, order: seq<Id>, a: Id, b: Id)
    requires Topological(edges, order) && a in order && Edge(edges, a, b)
    ensures b in order && Rank(order, b) < Rank(order, a)
  {
    var i := Rank(order, a);
    assert b in order[..i];
    var j :| 0 <= j < i && order[j] == b;
    assert Rank(order, b) == j by {
      assert order[Rank(order, b)] == order[j];
    }
  }

  lemma {:induction false} PathDescends(edges: Edges, order: seq<Id>, path: seq<Id>, i: nat, j: nat)
    requires Topological(edges, order) && Path(edges, path) && i <= j < |path| && path[i] in order
    ensures path[j] in order && Rank(order, path[j]) + (j - i) <= Rank(order, path[i])
    decreases j - i
  {
    if i < j {
      PathDescends(edges, order, path, i, j - 1);
      assert Edge(edges, path[j - 1], path[j]);
      EdgeDescends(edges, order, path[j - 1], path[j]);
    }
  }

  /** What can be listed topologically has no cycle. */
  lemma TopologicalIsAcyclic(edges: Edges, order: seq<Id>, from: Id)
    requires Topological(edges, order) && from in order
    ensures Acyclic(edges, from)
  {
    forall path ensures !Cycle(edges, path, from) {
      if Cycle(edges, path, from) {
        var n := |path| - 1;
        var i :| 0 <= i < n && path[i] == path[n];
        PathDescends(edges, order, path, 0, i);
        PathDescends(edges, order, path, i, n);
        assert false;
      }
    }
  }

  lemma TopologicalExtended(edges: Edges, order: seq<Id>, next: Id)
    requires Topological(edges, order) && next !in order
    requires forall b :: Edge(edges, next, b) ==> b in order
    ensures Topological(edges, order + [next])
  {
    var longer := order + [next];
    forall i, b | 0 <= i < |longer| && Edge(edges, longer[i], b) ensures b in longer[..i] {
      assert longer[..i] == order[..i];
      assert order[..|order|] == order;
    }
  }

  lemma {:induction false} SubsetIsSmaller(a: set<Id>, b: set<Id>)
    requires a <= b
    ensures |a| <= |b|
  {
    if a != {} {
      var x :| x in a;
      SubsetIsSmaller(a - {x}, b - {x});
    }
  }
}
