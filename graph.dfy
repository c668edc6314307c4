/** Graph preparation in `solution()` (SushiSolution/main.swift): the
    adjacency lists read from the N-1 input edges, and the single pass that
    drops non-target dead ends. */
module Graph {

  /** Every edge joins two nodes in [0, n). */
  predicate EdgesInRange(n: int, edges: seq<(int, int)>)
  {
    forall i :: 0 <= i < |edges| ==> 0 <= edges[i].0 < n && 0 <= edges[i].1 < n
  }

  /** `u` and `w` are the two ends of some input edge. */
  predicate Joined(edges: seq<(int, int)>, u: int, w: int)
  {
    (u, w) in edges || (w, u) in edges
  }

  /** Reading one edge: `v` is appended to the list of `u`, then `u` to the list of `v`. */
  function AddEdge(paths: seq<seq<int>>, u: int, v: int): (r: seq<seq<int>>)
    requires 0 <= u < |paths| && 0 <= v < |paths|
    ensures |r| == |paths|
  {
    var p := paths[u := paths[u] + [v]];
    p[v := p[v] + [u]]
  }

  /** The adjacency lists after reading `edges` in order, starting from n empty lists. */
  function Adjacency(n: nat, edges: seq<(int, int)>): (r: seq<seq<int>>)
    requires EdgesInRange(n, edges)
    ensures |r| == n
  {
    if edges == [] then seq(n, _ => [])
    else
      var e := edges[|edges| - 1];
      AddEdge(Adjacency(n, edges[..|edges| - 1]), e.0, e.1)
  }

  /** A neighbour list holds `w` exactly when an input edge joins the two nodes. */
  lemma {:induction false} AdjacencyExact(n: nat, edges: seq<(int, int)>, u: int, w: int)
    requires EdgesInRange(n, edges) && 0 <= u < n
    ensures w in Adjacency(n, edges)[u] <==> Joined(edges, u, w)
  {
    if edges != [] {
      var init := edges[..|edges| - 1];
      var e := edges[|edges| - 1];
      assert edges == init + [e];
      AdjacencyExact(n, init, u, w);
      var p := Adjacency(n, init);
      var p1 := p[e.0 := p[e.0] + [e.1]];
      assert Adjacency(n, edges) == p1[e.1 := p1[e.1] + [e.0]];
      assert Joined(edges, u, w) <==> Joined(init, u, w) || (u, w) == e || (w, u) == e;
    }
  }

  /** After the edge loop, both ends of every edge list each other, and
      adjacency is symmetric: `w` is in the list of `u` exactly when `u` is in
      the list of `w`. */
  lemma AdjacencySymmetric(n: nat, edges: seq<(int, int)>)
    requires EdgesInRange(n, edges)
    ensures forall i :: 0 <= i < |edges| ==>
              edges[i].1 in Adjacency(n, edges)[edges[i].0] &&
              edges[i].0 in Adjacency(n, edges)[edges[i].1]
    ensures forall u, w :: 0 <= u < n && 0 <= w < n ==>
              (w in Adjacency(n, edges)[u] <==> u in Adjacency(n, edges)[w])
  {
    forall u, w | 0 <= u < n && 0 <= w < n
      ensures w in Adjacency(n, edges)[u] <==> u in Adjacency(n, edges)[w]
    {
      AdjacencyExact(n, edges, u, w);
      AdjacencyExact(n, edges, w, u);
    }
    forall i | 0 <= i < |edges|
      ensures edges[i].1 in Adjacency(n, edges)[edges[i].0]
      ensures edges[i].0 in Adjacency(n, edges)[edges[i].1]
    {
      AdjacencyExact(n, edges, edges[i].0, edges[i].1);
      AdjacencyExact(n, edges, edges[i].1, edges[i].0);
    }
  }

  /** Every entry of every neighbour list is a node in [0, n). */
  lemma AdjacencyInRange(n: nat, edges: seq<(int, int)>)
    requires EdgesInRange(n, edges)
    ensures forall u, j :: 0 <= u < n && 0 <= j < |Adjacency(n, edges)[u]| ==>
              0 <= Adjacency(n, edges)[u][j] < n
  {
    forall u, j | 0 <= u < n && 0 <= j < |Adjacency(n, edges)[u]|
      ensures 0 <= Adjacency(n, edges)[u][j] < n
    {
      var w := Adjacency(n, edges)[u][j];
      AdjacencyExact(n, edges, u, w);
      if (u, w) in edges {
        var i :| 0 <= i < |edges| && edges[i] == (u, w);
      } else {
        var i :| 0 <= i < |edges| && edges[i] == (w, u);
      }
    }
  }

  /** Lines 125-133: one list per node, built by the loop over the edges. */
  method BuildPaths(n: nat, edges: seq<(int, int)>) returns (paths: seq<seq<int>>)
    requires |edges| + 1 == n && EdgesInRange(n, edges)
    ensures paths == Adjacency(n, edges)
  {
    var a := new seq<int>[n](_ => []);
    for i := 0 to |edges|
      invariant a[..] == Adjacency(n, edges[..i])
    {
      assert edges[..i + 1][..i] == edges[..i];
      var u, v := edges[i].0, edges[i].1;
      a[u] := a[u] + [v];
      a[v] := a[v] + [u];
    }
    assert edges[..|edges|] == edges;
    paths := a[..];
  }

  /** A "fake" restaurant: a dead end (one neighbour) that is not a target. */
  predicate IsFakeDeadEnd(paths: seq<seq<int>>, targets: seq<int>, k: int)
  {
    0 <= k < |paths| && |paths[k]| == 1 && k !in targets
  }

  /** Line 142: the nodes the first pruning loop removes. */
  function FakeDeadEnds(paths: seq<seq<int>>, targets: seq<int>): set<int>
  {
    set k | 0 <= k < |paths| && IsFakeDeadEnd(paths, targets, k)
  }

  /** `s` without the members of `removed`, in the original order. */
  function Without(s: seq<int>, removed: set<int>): seq<int>
  {
    if s == [] then []
    else Without(s[..|s| - 1], removed) + (if s[|s| - 1] in removed then [] else [s[|s| - 1]])
  }

  lemma {:induction false} WithoutMembers(s: seq<int>, removed: set<int>, x: int)
    ensures x in Without(s, removed) <==> x in s && x !in removed
  {
    if s != [] {
      WithoutMembers(s[..|s| - 1], removed, x);
      assert s == s[..|s| - 1] + [s[|s| - 1]];
    }
  }

  /** Filtering keeps the order: it distributes over concatenation. */
  lemma {:induction false} WithoutConcat(a: seq<int>, b: seq<int>, removed: set<int>)
    ensures Without(a + b, removed) == Without(a, removed) + Without(b, removed)
  {
    if b != [] {
      var b' := b[..|b| - 1];
      assert (a + b)[..|a + b| - 1] == a + b';
      WithoutConcat(a, b', removed);
    } else {
      assert a + b == a;
    }
  }

  /** A list that meets no removed node is kept as it is. */
  lemma {:induction false} WithoutNothing(s: seq<int>, removed: set<int>)
    requires forall i :: 0 <= i < |s| ==> s[i] !in removed
    ensures Without(s, removed) == s
  {
    if s != [] {
      var init := s[..|s| - 1];
      assert forall i :: 0 <= i < |init| ==> init[i] == s[i];
      WithoutNothing(init, removed);
      assert s == init + [s[|s| - 1]];
    }
  }

  /** Filtering never lengthens a list. */
  lemma {:induction false} WithoutShorter(s: seq<int>, removed: set<int>)
    ensures |Without(s, removed)| <= |s|
  {
    if s != [] {
      WithoutShorter(s[..|s| - 1], removed);
    }
  }

  /** The map left after removal: every surviving node keeps its list minus the removed nodes. */
  function Pruned(paths: seq<seq<int>>, targets: seq<int>): map<int, seq<int>>
  {
    var removed := FakeDeadEnds(paths, targets);
    map k | 0 <= k < |paths| && k !in removed :: Without(paths[k], removed)
  }

  /** Lines 135-158: the removed set is exactly the fake dead ends, and the
      surviving lists are stripped of them, each in its original order.
      Dictionary iteration order is unspecified, so each loop takes its
      keys in an arbitrary order. */
  method RemoveFakeDeadEnds(paths: seq<seq<int>>, indexesOfM: seq<int>)
    returns (removedRestaurants: seq<int>, pathsWithoutFakeSushiRestaurant: map<int, seq<int>>)
    ensures forall k :: k in removedRestaurants <==> k in FakeDeadEnds(paths, indexesOfM)
    ensures forall i, j :: 0 <= i < j < |removedRestaurants| ==> removedRestaurants[i] != removedRestaurants[j]
    ensures pathsWithoutFakeSushiRestaurant == Pruned(paths, indexesOfM)
  {
    ghost var fake := FakeDeadEnds(paths, indexesOfM);
    var pathsDict: map<int, seq<int>> := map[];
    for index := 0 to |paths|
      invariant pathsDict == map k | 0 <= k < index :: paths[k]
    {
      pathsDict := pathsDict[index := paths[index]];
    }

    removedRestaurants := [];
    pathsWithoutFakeSushiRestaurant := map[];
    var todo := pathsDict.Keys;
    while todo != {}
      invariant todo <= pathsDict.Keys
      invariant forall k :: k in removedRestaurants <==> k in fake && k !in todo
      invariant forall i, j :: 0 <= i < j < |removedRestaurants| ==> removedRestaurants[i] != removedRestaurants[j]
      invariant pathsWithoutFakeSushiRestaurant ==
                  map k | 0 <= k < |paths| && k !in todo && k !in fake :: paths[k]
      decreases todo
    {
      var restaurantNumber :| restaurantNumber in todo;
      var adjacentRestaurants := pathsDict[restaurantNumber];
      if |adjacentRestaurants| == 1 && restaurantNumber !in indexesOfM {
        removedRestaurants := removedRestaurants + [restaurantNumber];
      } else {
        pathsWithoutFakeSushiRestaurant := pathsWithoutFakeSushiRestaurant[restaurantNumber := adjacentRestaurants];
      }
      todo := todo - {restaurantNumber};
    }

    var kept := pathsWithoutFakeSushiRestaurant;
    todo := kept.Keys;
    while todo != {}
      invariant todo <= kept.Keys
      invariant pathsWithoutFakeSushiRestaurant.Keys == kept.Keys
      invariant forall k :: k in kept && k in todo ==> pathsWithoutFakeSushiRestaurant[k] == kept[k]
      invariant forall k :: k in kept && k !in todo ==> pathsWithoutFakeSushiRestaurant[k] == Without(kept[k], fake)
      decreases todo
    {
      var restaurantNumber :| restaurantNumber in todo;
      var adjacentRestaurants := kept[restaurantNumber];
      var temp: seq<int> := [];
      for i := 0 to |adjacentRestaurants|
        invariant temp == Without(adjacentRestaurants[..i], fake)
      {
        assert adjacentRestaurants[..i + 1][..i] == adjacentRestaurants[..i];
        if adjacentRestaurants[i] in removedRestaurants {
          continue;
        }
        temp := temp + [adjacentRestaurants[i]];
      }
      assert adjacentRestaurants[..|adjacentRestaurants|] == adjacentRestaurants;
      pathsWithoutFakeSushiRestaurant := pathsWithoutFakeSushiRestaurant[restaurantNumber := temp];
      todo := todo - {restaurantNumber};
    }
  }

  /** No target is ever removed: every target node in range survives. */
  lemma TargetsSurvive(paths: seq<seq<int>>, targets: seq<int>)
    ensures forall i :: 0 <= i < |targets| && 0 <= targets[i] < |paths| ==>
              targets[i] in Pruned(paths, targets)
  {
  }

  /** The removal deletes exactly the fake dead ends: a node survives iff it is
      in range and is not a non-target node of degree 1. */
  lemma PrunedKeys(paths: seq<seq<int>>, targets: seq<int>, k: int)
    ensures k in Pruned(paths, targets) <==>
              0 <= k < |paths| && !(|paths[k]| == 1 && k !in targets)
  {
  }

  /** When all entries are nodes in range, every neighbour left in the pruned
      map is itself a surviving node, so the lookups with `!` never fail. */
  lemma PrunedClosed(paths: seq<seq<int>>, targets: seq<int>)
    requires forall u, j :: 0 <= u < |paths| && 0 <= j < |paths[u]| ==> 0 <= paths[u][j] < |paths|
    ensures forall k, j :: k in Pruned(paths, targets) && 0 <= j < |Pruned(paths, targets)[k]| ==>
              Pruned(paths, targets)[k][j] in Pruned(paths, targets)
  {
    var removed := FakeDeadEnds(paths, targets);
    var p := Pruned(paths, targets);
    forall k, j | k in p && 0 <= j < |p[k]|
      ensures p[k][j] in p
    {
      var w := p[k][j];
      WithoutMembers(paths[k], removed, w);
      var j' :| 0 <= j' < |paths[k]| && paths[k][j'] == w;
    }
  }

  /** Pruning only deletes: each surviving list is a sub-list of the original one. */
  lemma PrunedSubgraph(paths: seq<seq<int>>, targets: seq<int>, k: int, w: int)
    requires k in Pruned(paths, targets) && w in Pruned(paths, targets)[k]
    ensures w in paths[k] && w !in FakeDeadEnds(paths, targets)
  {
    WithoutMembers(paths[k], FakeDeadEnds(paths, targets), w);
  }

  /** A surviving node none of whose neighbours was removed keeps its list as it was. */
  lemma PrunedUntouched(paths: seq<seq<int>>, targets: seq<int>, k: int)
    requires k in Pruned(paths, targets)
    requires forall i :: 0 <= i < |paths[k]| ==> paths[k][i] !in FakeDeadEnds(paths, targets)
    ensures Pruned(paths, targets)[k] == paths[k]
  {
    WithoutNothing(paths[k], FakeDeadEnds(paths, targets));
  }

  /** Pruning never raises a degree: a surviving list is no longer than the original. */
  lemma PrunedDegree(paths: seq<seq<int>>, targets: seq<int>, k: int)
    requires k in Pruned(paths, targets)
    ensures |Pruned(paths, targets)[k]| <= |paths[k]|
  {
    WithoutShorter(paths[k], FakeDeadEnds(paths, targets));
  }

  /** The temporary list of lines 151-156 is built in neighbour order: cut the
      original list anywhere, and the surviving list is the survivors of the
      first part followed by those of the second. */
  lemma PrunedSplit(paths: seq<seq<int>>, targets: seq<int>, k: int, i: int)
    requires k in Pruned(paths, targets) && 0 <= i <= |paths[k]|
    ensures Pruned(paths, targets)[k] ==
              Without(paths[k][..i], FakeDeadEnds(paths, targets)) +
              Without(paths[k][i..], FakeDeadEnds(paths, targets))
  {
    assert paths[k] == paths[k][..i] + paths[k][i..];
    WithoutConcat(paths[k][..i], paths[k][i..], FakeDeadEnds(paths, targets));
  }
}
