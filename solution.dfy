/** The driver of `solution()` (SushiSolution/main.swift): build the tree,
    prune it, and run one search from every target with a shared bound. */
module Solution {
  import opened Graph
  import opened Sushi

  /** `walk` is a walk along the input edges: consecutive nodes are the two
      ends of some edge. */
  ghost predicate EdgeWalk(edges: seq<(int, int)>, walk: seq<int>)
  {
    |walk| >= 1 &&
    forall i :: 0 <= i < |walk| - 1 ==> Joined(edges, walk[i], walk[i + 1])
  }

  /** A walk in the pruned adjacency map is a walk along the input edges. */
  lemma PrunedWalkJoined(n: nat, edges: seq<(int, int)>, targets: seq<int>, walk: seq<int>)
    requires EdgesInRange(n, edges)
    requires IsWalk(Pruned(Adjacency(n, edges), targets), walk)
    ensures EdgeWalk(edges, walk)
  {
    var paths := Adjacency(n, edges);
    var p := Pruned(paths, targets);
    forall i | 0 <= i < |walk| - 1
      ensures Joined(edges, walk[i], walk[i + 1])
    {
      PrunedSubgraph(paths, targets, walk[i], walk[i + 1]);
      AdjacencyExact(n, edges, walk[i], walk[i + 1]);
    }
  }

  /** The pruned map of a tree is closed, with every target a key. */
  lemma SearchGraph(n: nat, edges: seq<(int, int)>, targets: seq<int>)
    requires EdgesInRange(n, edges)
    requires forall i :: 0 <= i < |targets| ==> 0 <= targets[i] < n
    ensures Closed(n, Pruned(Adjacency(n, edges), targets))
    ensures forall i :: 0 <= i < |targets| ==> targets[i] in Pruned(Adjacency(n, edges), targets)
  {
    var paths := Adjacency(n, edges);
    AdjacencyInRange(n, edges);
    PrunedClosed(paths, targets);
    TargetsSurvive(paths, targets);
  }

  /** A covering walk that a search from target `r` finds in the pruned graph
      is a walk along the input roads from `r` through every target. */
  lemma CoveringRoadWalk(n: nat, edges: seq<(int, int)>, targets: seq<int>, r: int, walk: seq<int>, t: int)
    requires EdgesInRange(n, edges)
    requires Covering(Pruned(Adjacency(n, edges), targets), targets, Restaurant(r, -1, {}, 0), walk, t)
    ensures EdgeWalk(edges, walk) && |walk| == t + 1 && walk[0] == r && AllIn(targets, Nodes(walk))
  {
    PrunedWalkJoined(n, edges, targets, walk);
    assert {} + Nodes(walk) == Nodes(walk);
  }

  /** Line 218: the state a search starts from: target `r`, no previous
      restaurant, nothing traveled and no time spent. */
  function Start(r: int): Restaurant
  {
    Restaurant(r, -1, {}, 0)
  }

  /** One call of line 218: the search from target `r` under the bound
      `bound` dequeues exactly the whole run `run` and leaves the bound `next`
      that its last state gives. */
  ghost predicate Searched(numOfN: nat, indexesOfM: seq<int>, paths: map<int, seq<int>>,
                           r: int, bound: int, run: seq<Restaurant>, next: int)
  {
    Explores(Search(numOfN, indexesOfM, paths, bound), Stage([Start(r)], Zeros(numOfN)), run) &&
    run != [] && next == Lowered(indexesOfM, bound, run[|run| - 1])
  }

  /** The first `|runs|` searches of lines 216-219 on the pruned map `paths`.
      The shared bound starts at 2 * N (line 123), and the k-th search starts
      from the k-th target under `bounds[k]`, makes the run `runs[k]` and
      leaves `bounds[k + 1]`. */
  ghost predicate Drives(numOfN: nat, indexesOfM: seq<int>, paths: map<int, seq<int>>,
                         bounds: seq<int>, runs: seq<seq<Restaurant>>)
  {
    |runs| <= |indexesOfM| && |bounds| == |runs| + 1 && bounds[0] == 2 * numOfN &&
    forall k :: 0 <= k < |runs| ==> Searched(numOfN, indexesOfM, paths, indexesOfM[k], bounds[k], runs[k], bounds[k + 1])
  }

  /** One more search, started from the next target under the last bound,
      extends the chain. */
  lemma DrivesExtend(numOfN: nat, indexesOfM: seq<int>, paths: map<int, seq<int>>,
                     bounds: seq<int>, runs: seq<seq<Restaurant>>, run: seq<Restaurant>, bound: int)
    requires Drives(numOfN, indexesOfM, paths, bounds, runs) && |runs| < |indexesOfM|
    requires Explores(Search(numOfN, indexesOfM, paths, bounds[|runs|]), Stage([Start(indexesOfM[|runs|])], Zeros(numOfN)), run)
    requires run != [] && bound == Lowered(indexesOfM, bounds[|runs|], run[|run| - 1])
    ensures Drives(numOfN, indexesOfM, paths, bounds + [bound], runs + [run])
  {
    var b', r' := bounds + [bound], runs + [run];
    assert Searched(numOfN, indexesOfM, paths, indexesOfM[|runs|], bounds[|runs|], run, bound);
    forall k | 0 <= k < |r'|
      ensures Searched(numOfN, indexesOfM, paths, indexesOfM[k], b'[k], r'[k], b'[k + 1])
    {
      if k < |runs| {
        assert b'[k] == bounds[k] && b'[k + 1] == bounds[k + 1] && r'[k] == runs[k];
      } else {
        assert b'[k] == bounds[k] && b'[k + 1] == bound && r'[k] == run;
      }
    }
  }

  /** The shared bound never increases from one search to the next. */
  lemma DrivesLowers(numOfN: nat, indexesOfM: seq<int>, paths: map<int, seq<int>>,
                     bounds: seq<int>, runs: seq<seq<Restaurant>>)
    requires Drives(numOfN, indexesOfM, paths, bounds, runs)
    ensures forall k :: 0 <= k < |runs| ==> bounds[k + 1] <= bounds[k]
  {
  }

  /** Two chains of searches of the same length agree on their first `k` runs
      and `k + 1` bounds. */
  lemma {:induction false} DrivesAgree(numOfN: nat, indexesOfM: seq<int>, paths: map<int, seq<int>>,
                                       b1: seq<int>, r1: seq<seq<Restaurant>>,
                                       b2: seq<int>, r2: seq<seq<Restaurant>>, k: nat)
    requires Drives(numOfN, indexesOfM, paths, b1, r1) && Drives(numOfN, indexesOfM, paths, b2, r2)
    requires |r1| == |r2| && k <= |r1|
    ensures b1[..k + 1] == b2[..k + 1] && r1[..k] == r2[..k]
    decreases k
  {
    if k == 0 {
      assert b1[..1] == [b1[0]] && b2[..1] == [b2[0]];
    } else {
      DrivesAgree(numOfN, indexesOfM, paths, b1, r1, b2, r2, k - 1);
      assert b1[k - 1] == b2[k - 1] by { assert b1[k - 1] == b1[..k][k - 1] && b2[k - 1] == b2[..k][k - 1]; }
      assert Searched(numOfN, indexesOfM, paths, indexesOfM[k - 1], b1[k - 1], r1[k - 1], b1[k]);
      assert Searched(numOfN, indexesOfM, paths, indexesOfM[k - 1], b2[k - 1], r2[k - 1], b2[k]);
      ExploresUnique(Search(numOfN, indexesOfM, paths, b1[k - 1]), Stage([Start(indexesOfM[k - 1])], Zeros(numOfN)),
                     r1[k - 1], r2[k - 1]);
      TakeOneMore(b1, k);
      TakeOneMore(b2, k);
      TakeOneMore(r1, k - 1);
      TakeOneMore(r2, k - 1);
    }
  }

  /** The driver is deterministic: the searches it runs, and so every bound
      they leave, are fixed by the input. */
  lemma DrivesUnique(numOfN: nat, indexesOfM: seq<int>, paths: map<int, seq<int>>,
                     b1: seq<int>, r1: seq<seq<Restaurant>>, b2: seq<int>, r2: seq<seq<Restaurant>>)
    requires Drives(numOfN, indexesOfM, paths, b1, r1) && Drives(numOfN, indexesOfM, paths, b2, r2)
    requires |r1| == |r2|
    ensures b1 == b2 && r1 == r2
  {
    DrivesAgree(numOfN, indexesOfM, paths, b1, r1, b2, r2, |r1|);
    assert b1[..|r1| + 1] == b1 && b2[..|r1| + 1] == b2 && r1[..|r1|] == r1 && r2[..|r1|] == r2;
  }

  /** Lines 111-221 without the input and output: `numOfN` restaurants, the
      targets `indexesOfM` and the N-1 edges as read. The answer starts at
      2 * N and is lowered only to the length of a walk along the edges that
      starts at a target and passes through every target. A single target
      (possibly repeated) gives 0, and no target leaves 2 * N. `bounds` and
      `runs` are the searches the driver runs, one per target in order, with
      the bound shared between them; the answer is the last bound. */
  method Solution(numOfN: nat, indexesOfM: seq<int>, edges: seq<(int, int)>)
    returns (smallestTravelTime: int, ghost walk: seq<int>,
             ghost bounds: seq<int>, ghost runs: seq<seq<Restaurant>>)
    requires |edges| + 1 == numOfN && EdgesInRange(numOfN, edges)
    requires forall i :: 0 <= i < |indexesOfM| ==> 0 <= indexesOfM[i] < numOfN
    ensures 0 <= smallestTravelTime <= 2 * numOfN
    ensures smallestTravelTime < 2 * numOfN ==>
              EdgeWalk(edges, walk) && |walk| == smallestTravelTime + 1 &&
              walk[0] in indexesOfM && AllIn(indexesOfM, Nodes(walk))
    ensures indexesOfM == [] ==> smallestTravelTime == 2 * numOfN
    ensures Drives(numOfN, indexesOfM, Pruned(Adjacency(numOfN, edges), indexesOfM), bounds, runs)
    ensures |runs| == |indexesOfM| && smallestTravelTime == bounds[|indexesOfM|]
    ensures forall k :: 0 <= k < |indexesOfM| ==> bounds[k + 1] <= bounds[k]
    ensures indexesOfM != [] && (forall i :: 0 <= i < |indexesOfM| ==> indexesOfM[i] == indexesOfM[0]) ==>
              smallestTravelTime == 0
  {
    smallestTravelTime := 2 * numOfN;
    var paths := BuildPaths(numOfN, edges);
    var removedRestaurants, pathsWithoutFakeSushiRestaurant := RemoveFakeDeadEnds(paths, indexesOfM);
    SearchGraph(numOfN, edges, indexesOfM);
    ghost var single := indexesOfM != [] && forall i :: 0 <= i < |indexesOfM| ==> indexesOfM[i] == indexesOfM[0];
    walk, bounds, runs := [], [smallestTravelTime], [];

    for k := 0 to |indexesOfM|
      invariant 0 <= smallestTravelTime <= 2 * numOfN
      invariant smallestTravelTime < 2 * numOfN ==>
                  EdgeWalk(edges, walk) && |walk| == smallestTravelTime + 1 &&
                  walk[0] in indexesOfM && AllIn(indexesOfM, Nodes(walk))
      invariant k == 0 ==> smallestTravelTime == 2 * numOfN
      invariant single && k > 0 ==> smallestTravelTime == 0
      invariant Drives(numOfN, indexesOfM, pathsWithoutFakeSushiRestaurant, bounds, runs)
      invariant |runs| == k && bounds[k] == smallestTravelTime
    {
      var restaurant := indexesOfM[k];
      var startRestaurant := Start(restaurant);
      if single {
        assert AllIn(indexesOfM, Visit(startRestaurant).traveledRestaurants);
      }
      var smallest;
      ghost var w, dequeued;
      smallest, w, dequeued := FindSmallestTravelTime(numOfN, indexesOfM, pathsWithoutFakeSushiRestaurant,
                                                       startRestaurant, smallestTravelTime);
      if smallest < smallestTravelTime {
        CoveringRoadWalk(numOfN, edges, indexesOfM, restaurant, w, smallest);
        walk := w;
      }
      DrivesExtend(numOfN, indexesOfM, pathsWithoutFakeSushiRestaurant, bounds, runs, dequeued, smallest);
      bounds, runs := bounds + [smallest], runs + [dequeued];
      smallestTravelTime := smallest;
    }
    DrivesLowers(numOfN, indexesOfM, pathsWithoutFakeSushiRestaurant, bounds, runs);
  }
}
