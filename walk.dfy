/** The walk search of `solution()` (SushiSolution/main.swift): a
    breadth-first search over partial walks from each target restaurant,
    sharing one bound `smallestTravelTime` that only decreases. */
module Sushi {
  import opened Queues
  import opened Graph

  /** One partial walk: where it stands, where it came from, the restaurants
      it has passed through (not yet including `number`) and its length. */
  datatype Restaurant = Restaurant(number: int, previousRestaurant: int,
                                   traveledRestaurants: set<int>, travelTime: int)

  function Min(a: int, b: int): int { if a < b then a else b }

  /** Every element of `values` is in `s`. */
  predicate AllIn(values: seq<int>, s: set<int>)
  {
    forall i :: 0 <= i < |values| ==> values[i] in s
  }

  /** Lines 223-230: scans `values` from the front and answers false at the
      first element missing from `s`. */
  function ContainsAll(values: seq<int>, s: set<int>): (r: bool)
    ensures r <==> AllIn(values, s)
  {
    if values == [] then true
    else if values[0] !in s then false
    else ContainsAll(values[1..], s)
  }

  /** The adjacency map the search runs on: keys are nodes in [0, n) and every
      neighbour is itself a key, so no lookup with `!` can fail. */
  predicate Closed(n: int, paths: map<int, seq<int>>)
  {
    (forall k :: k in paths ==> 0 <= k < n) &&
    (forall k, j :: k in paths && 0 <= j < |paths[k]| ==> paths[k][j] in paths)
  }

  /** Lines 170-172: the dequeued state with its own restaurant marked as traveled. */
  function Visit(s: Restaurant): Restaurant
  {
    s.(traveledRestaurants := s.traveledRestaurants + {s.number})
  }

  /** Lines 193-206: the degree rule. A dead end may go back; a degree-2 node
      never returns to the previous node; a branching node goes only to
      restaurants neither previous nor traveled. */
  predicate Skipped(adjacent: seq<int>, previous: int, traveled: set<int>, next: int)
  {
    if |adjacent| == 1 then false
    else if |adjacent| == 2 then next == previous
    else next in traveled || next == previous
  }

  /** The arguments `Expansion` needs: `v` and all of `ns` are nodes of `paths`
      with a pass counter. */
  predicate Expandable(paths: map<int, seq<int>>, passed: seq<int>, v: Restaurant, ns: seq<int>)
  {
    v.number in paths &&
    forall i :: 0 <= i < |ns| ==> ns[i] in paths && 0 <= ns[i] < |passed|
  }

  /** Lines 193-210: whether the neighbour `next` of the visited state `v` is enqueued. */
  predicate Admitted(paths: map<int, seq<int>>, passed: seq<int>, v: Restaurant, next: int)
    requires v.number in paths && next in paths && 0 <= next < |passed|
  {
    !Skipped(paths[v.number], v.previousRestaurant, v.traveledRestaurants, next) &&
    !(passed[next] > |paths[next]|)
  }

  /** Line 211: the state enqueued for the neighbour `next` of the visited state `v`. */
  function Child(v: Restaurant, next: int): Restaurant
  {
    Restaurant(next, v.number, v.traveledRestaurants, v.travelTime + 1)
  }

  /** The states the loop of lines 190-212 enqueues for the neighbours `ns`, in order. */
  function Expansion(paths: map<int, seq<int>>, passed: seq<int>, v: Restaurant, ns: seq<int>): seq<Restaurant>
    requires Expandable(paths, passed, v, ns)
  {
    if ns == [] then []
    else
      var x := ns[|ns| - 1];
      Expansion(paths, passed, v, ns[..|ns| - 1]) +
      (if Admitted(paths, passed, v, x) then [Child(v, x)] else [])
  }

  /** Every enqueued state extends `v` by one step to an admitted neighbour,
      and there are at most as many as there are neighbours. */
  lemma {:induction false} ExpansionShape(paths: map<int, seq<int>>, passed: seq<int>, v: Restaurant, ns: seq<int>)
    requires Expandable(paths, passed, v, ns)
    ensures |Expansion(paths, passed, v, ns)| <= |ns|
    ensures forall i :: 0 <= i < |Expansion(paths, passed, v, ns)| ==>
              var c := Expansion(paths, passed, v, ns)[i];
              c == Child(v, c.number) && c.number in ns && Admitted(paths, passed, v, c.number)
  {
    if ns != [] {
      ExpansionShape(paths, passed, v, ns[..|ns| - 1]);
    }
  }

  /** A neighbour's state is enqueued exactly when the neighbour is admitted. */
  lemma {:induction false} ExpansionComplete(paths: map<int, seq<int>>, passed: seq<int>, v: Restaurant, ns: seq<int>, x: int)
    requires Expandable(paths, passed, v, ns) && x in paths && 0 <= x < |passed|
    ensures Child(v, x) in Expansion(paths, passed, v, ns) <==> x in ns && Admitted(paths, passed, v, x)
  {
    if ns != [] {
      var init := ns[..|ns| - 1];
      ExpansionComplete(paths, passed, v, init, x);
      assert ns == init + [ns[|ns| - 1]];
    }
  }

  /** The filtering rules of lines 193-210, stated on the states enqueued
      from the visited state `v`. */
  lemma NeighbourFiltering(paths: map<int, seq<int>>, passed: seq<int>, v: Restaurant)
    requires Closed(|passed|, paths) && v.number in paths
    ensures var e := Expansion(paths, passed, v, paths[v.number]);
            (|paths[v.number]| == 2 ==>
               forall i :: 0 <= i < |e| ==> e[i].number != v.previousRestaurant) &&
            (|paths[v.number]| > 2 ==>
               forall i :: 0 <= i < |e| ==>
                 e[i].number != v.previousRestaurant && e[i].number !in v.traveledRestaurants) &&
            (forall i :: 0 <= i < |e| ==>
               e[i].number in paths && 0 <= e[i].number < |passed| &&
               passed[e[i].number] <= |paths[e[i].number]|)
  {
    ExpansionShape(paths, passed, v, paths[v.number]);
  }

  /** At a dead end the sole neighbour, even the previous node, is enqueued
      unless its pass counter exceeds its degree. */
  lemma DeadEndBacktracks(paths: map<int, seq<int>>, passed: seq<int>, v: Restaurant)
    requires Closed(|passed|, paths) && v.number in paths && |paths[v.number]| == 1
    ensures var x := paths[v.number][0];
            Expansion(paths, passed, v, paths[v.number]) ==
              if passed[x] <= |paths[x]| then [Child(v, x)] else []
  {
    var ns := paths[v.number];
    assert ns[..0] == [];
  }

  // ---------------------------------------------------------------------
  // Walks: what a state in the queue stands for.

  function Nodes(w: seq<int>): set<int>
  {
    set x | x in w
  }

  /** `w` is a walk in `paths`: consecutive nodes are neighbours. */
  ghost predicate IsWalk(paths: map<int, seq<int>>, w: seq<int>)
  {
    |w| >= 1 &&
    (forall i :: 0 <= i < |w| ==> w[i] in paths) &&
    (forall i :: 0 <= i < |w| - 1 ==> w[i + 1] in paths[w[i]])
  }

  /** The state `s` is the start state `s0` followed along the walk `w`. */
  ghost predicate Witnesses(paths: map<int, seq<int>>, s0: Restaurant, w: seq<int>, s: Restaurant)
  {
    IsWalk(paths, w) && w[0] == s0.number && s.number == w[|w| - 1] &&
    s.travelTime == s0.travelTime + |w| - 1 &&
    s.traveledRestaurants == s0.traveledRestaurants + Nodes(w[..|w| - 1]) &&
    s.previousRestaurant == (if |w| == 1 then s0.previousRestaurant else w[|w| - 2])
  }

  /** Each state of `contents` is witnessed by the walk at the same index of `walks`. */
  ghost predicate AllWitnessed(paths: map<int, seq<int>>, s0: Restaurant, walks: seq<seq<int>>, contents: seq<Restaurant>)
  {
    |walks| == |contents| &&
    forall i :: 0 <= i < |walks| ==> Witnesses(paths, s0, walks[i], contents[i])
  }

  lemma AllWitnessedTail(paths: map<int, seq<int>>, s0: Restaurant, walks: seq<seq<int>>, contents: seq<Restaurant>)
    requires AllWitnessed(paths, s0, walks, contents) && walks != []
    ensures AllWitnessed(paths, s0, walks[1..], contents[1..])
  {
    assert forall i :: 0 <= i < |walks| - 1 ==> walks[1..][i] == walks[i + 1] && contents[1..][i] == contents[i + 1];
  }

  lemma AllWitnessedConcat(paths: map<int, seq<int>>, s0: Restaurant, wa: seq<seq<int>>, ca: seq<Restaurant>,
                           wb: seq<seq<int>>, cb: seq<Restaurant>)
    requires AllWitnessed(paths, s0, wa, ca) && AllWitnessed(paths, s0, wb, cb)
    ensures AllWitnessed(paths, s0, wa + wb, ca + cb)
  {
    forall i | 0 <= i < |wa| + |wb|
      ensures Witnesses(paths, s0, (wa + wb)[i], (ca + cb)[i])
    {
      if i < |wa| {
        assert (wa + wb)[i] == wa[i] && (ca + cb)[i] == ca[i];
      } else {
        assert (wa + wb)[i] == wb[i - |wa|] && (ca + cb)[i] == cb[i - |wa|];
      }
    }
  }

  ghost function ExtendWalks(w: seq<int>, e: seq<Restaurant>): (r: seq<seq<int>>)
    ensures |r| == |e|
  {
    seq(|e|, i requires 0 <= i < |e| => w + [e[i].number])
  }

  /** One step along a neighbour extends the witnessing walk by that neighbour. */
  lemma WitnessStep(paths: map<int, seq<int>>, s0: Restaurant, w: seq<int>, s: Restaurant, next: int)
    requires Witnesses(paths, s0, w, s) && next in paths && next in paths[s.number]
    ensures Witnesses(paths, s0, w + [next], Child(Visit(s), next))
  {
    var w' := w + [next];
    assert w'[..|w'| - 1] == w;
    assert w == w[..|w| - 1] + [w[|w| - 1]];
    assert Nodes(w) == Nodes(w[..|w| - 1]) + {w[|w| - 1]};
    forall i | 0 <= i < |w'| - 1
      ensures w'[i + 1] in paths[w'[i]]
    {
      if i + 1 < |w| {
        assert w'[i] == w[i] && w'[i + 1] == w[i + 1];
      }
    }
  }

  /** The states enqueued from `Visit(s)` are witnessed by the walk of `s`
      extended by one node. */
  lemma ExpansionWitnessed(paths: map<int, seq<int>>, passed: seq<int>, s0: Restaurant, w: seq<int>, s: Restaurant)
    requires Closed(|passed|, paths) && Witnesses(paths, s0, w, s)
    ensures var e := Expansion(paths, passed, Visit(s), paths[s.number]);
            AllWitnessed(paths, s0, ExtendWalks(w, e), e)
  {
    var v := Visit(s);
    var e := Expansion(paths, passed, v, paths[s.number]);
    ExpansionShape(paths, passed, v, paths[s.number]);
    forall i | 0 <= i < |e|
      ensures Witnesses(paths, s0, ExtendWalks(w, e)[i], e[i])
    {
      WitnessStep(paths, s0, w, s, e[i].number);
    }
  }

  /** Queued travel times are non-decreasing and lie within one step of `t`. */
  ghost predicate Layered(s: seq<Restaurant>, t: int)
  {
    (forall i :: 0 <= i < |s| ==> t <= s[i].travelTime <= t + 1) &&
    (forall i, j :: 0 <= i < j < |s| ==> s[i].travelTime <= s[j].travelTime)
  }

  /** Dequeuing the front and enqueuing states one step longer keeps the queue layered. */
  lemma LayeredStep(s: seq<Restaurant>, t: int, e: seq<Restaurant>)
    requires Layered(s, t) && s != []
    requires forall i :: 0 <= i < |e| ==> e[i].travelTime == s[0].travelTime + 1
    ensures t <= s[0].travelTime && Layered(s[1..] + e, s[0].travelTime)
  {
  }

  /** `s` is in non-decreasing travel time, each state against the one before. */
  ghost predicate Ordered(s: seq<Restaurant>)
    decreases |s|
  {
    |s| <= 1 || (s[|s| - 2].travelTime <= s[|s| - 1].travelTime && Ordered(s[..|s| - 1]))
  }

  /** Appending a state no shorter than the last one keeps the order. */
  lemma OrderedAppend(s: seq<Restaurant>, x: Restaurant)
    requires Ordered(s) && (s != [] ==> s[|s| - 1].travelTime <= x.travelTime)
    ensures Ordered(s + [x]) && (s + [x])[0] == (if s == [] then x else s[0])
  {
    assert (s + [x])[..|s|] == s;
  }

  /** An ordered sequence is sorted: every state is no longer than any later one. */
  lemma {:induction false} OrderedSorted(s: seq<Restaurant>)
    requires Ordered(s)
    ensures forall i, j :: 0 <= i < j < |s| ==> s[i].travelTime <= s[j].travelTime
  {
    if |s| > 1 {
      var init := s[..|s| - 1];
      OrderedSorted(init);
      forall i, j | 0 <= i < j < |s|
        ensures s[i].travelTime <= s[j].travelTime
      {
        if j < |s| - 1 {
          assert s[i] == init[i] && s[j] == init[j];
        } else if i < |s| - 2 {
          assert s[i] == init[i] && s[|s| - 2] == init[|s| - 2];
        }
      }
    }
  }

  // ---------------------------------------------------------------------
  // Termination: the search visits layer by layer. A layer's states are
  // dequeued one by one, and their children join the next layer.

  /** The number of states in `s` of travel time `t`. */
  ghost function CountAt(s: seq<Restaurant>, t: int): nat
  {
    if s == [] then 0 else (if s[0].travelTime == t then 1 else 0) + CountAt(s[1..], t)
  }

  lemma {:induction false} CountAtConcat(a: seq<Restaurant>, b: seq<Restaurant>, t: int)
    ensures CountAt(a + b, t) == CountAt(a, t) + CountAt(b, t)
  {
    if a != [] {
      assert (a + b)[1..] == a[1..] + b;
      CountAtConcat(a[1..], b, t);
    } else {
      assert a + b == b;
    }
  }

  lemma {:induction false} CountAtNone(s: seq<Restaurant>, t: int)
    requires forall i :: 0 <= i < |s| ==> s[i].travelTime != t
    ensures CountAt(s, t) == 0
  {
    if s != [] {
      CountAtNone(s[1..], t);
    }
  }

  // ---------------------------------------------------------------------
  // The queue invariant of the search: every queued state is the start state
  // followed along its walk, and the queue is layered.

  ghost predicate QueueInv(paths: map<int, seq<int>>, s0: Restaurant, walks: seq<seq<int>>,
                           contents: seq<Restaurant>, lastTime: int)
  {
    |walks| == |contents| &&
    (walks != [] ==>
       Witnesses(paths, s0, walks[0], contents[0]) &&
       lastTime <= contents[0].travelTime <= lastTime + 1 &&
       (|contents| > 1 ==> contents[0].travelTime <= contents[1].travelTime) &&
       QueueInv(paths, s0, walks[1..], contents[1..], lastTime))
  }

  /** `Layered`, one state at a time. */
  lemma LayeredCons(c: seq<Restaurant>, t: int)
    requires c != []
    ensures Layered(c, t) <==>
              t <= c[0].travelTime <= t + 1 && (|c| > 1 ==> c[0].travelTime <= c[1].travelTime) &&
              Layered(c[1..], t)
  {
    if t <= c[0].travelTime <= t + 1 && (|c| > 1 ==> c[0].travelTime <= c[1].travelTime) && Layered(c[1..], t) {
      forall i, j | 0 <= i < j < |c|
        ensures c[i].travelTime <= c[j].travelTime
      {
        if 0 < i {
          assert c[i] == c[1..][i - 1] && c[j] == c[1..][j - 1];
        } else if 1 < j {
          assert c[1] == c[1..][0] && c[j] == c[1..][j - 1];
        }
      }
    }
    if Layered(c, t) {
      assert forall i :: 0 <= i < |c| - 1 ==> c[1..][i] == c[i + 1];
    }
  }

  /** `AllWitnessed`, one state at a time. */
  lemma AllWitnessedCons(paths: map<int, seq<int>>, s0: Restaurant, walks: seq<seq<int>>, contents: seq<Restaurant>)
    requires walks != [] && |walks| == |contents|
    ensures AllWitnessed(paths, s0, walks, contents) <==>
              Witnesses(paths, s0, walks[0], contents[0]) && AllWitnessed(paths, s0, walks[1..], contents[1..])
  {
    if AllWitnessed(paths, s0, walks, contents) {
      AllWitnessedTail(paths, s0, walks, contents);
    }
    if Witnesses(paths, s0, walks[0], contents[0]) && AllWitnessed(paths, s0, walks[1..], contents[1..]) {
      AllWitnessedConcat(paths, s0, [walks[0]], [contents[0]], walks[1..], contents[1..]);
      assert [walks[0]] + walks[1..] == walks && [contents[0]] + contents[1..] == contents;
    }
  }

  /** The queue invariant, element by element: every queued state has a
      witnessing walk and the queue is layered. */
  lemma {:induction false} QueueInvAll(paths: map<int, seq<int>>, s0: Restaurant, walks: seq<seq<int>>,
                                       contents: seq<Restaurant>, lastTime: int)
    ensures QueueInv(paths, s0, walks, contents, lastTime) <==>
              AllWitnessed(paths, s0, walks, contents) && Layered(contents, lastTime)
    decreases |walks|
  {
    if walks != [] && |walks| == |contents| {
      QueueInvAll(paths, s0, walks[1..], contents[1..], lastTime);
      LayeredCons(contents, lastTime);
      AllWitnessedCons(paths, s0, walks, contents);
    }
  }

  /** What the search learns about the state it dequeues. */
  lemma QueueFront(paths: map<int, seq<int>>, s0: Restaurant, walks: seq<seq<int>>,
                   contents: seq<Restaurant>, lastTime: int)
    requires QueueInv(paths, s0, walks, contents, lastTime) && contents != []
    ensures Witnesses(paths, s0, walks[0], contents[0])
    ensures contents[0].number in paths && lastTime <= contents[0].travelTime <= lastTime + 1
    ensures Visit(contents[0]).traveledRestaurants == s0.traveledRestaurants + Nodes(walks[0])
  {
    var w := walks[0];
    assert w == w[..|w| - 1] + [w[|w| - 1]];
    assert Nodes(w) == Nodes(w[..|w| - 1]) + {w[|w| - 1]};
  }

  /** Dequeuing the front state and enqueuing its expansion keeps the queue
      invariant and leaves fewer states of the front's travel time queued. */
  lemma QueueExpand(paths: map<int, seq<int>>, passed: seq<int>, s0: Restaurant, walks: seq<seq<int>>,
                    contents: seq<Restaurant>, lastTime: int)
    requires Closed(|passed|, paths) && QueueInv(paths, s0, walks, contents, lastTime) && contents != []
    requires contents[0].number in paths
    ensures var s := contents[0];
            var e := Expansion(paths, passed, Visit(s), paths[s.number]);
            QueueInv(paths, s0, walks[1..] + ExtendWalks(walks[0], e), contents[1..] + e, s.travelTime) &&
            CountAt(contents[1..] + e, s.travelTime) < CountAt(contents, s.travelTime)
  {
    var s := contents[0];
    var v := Visit(s);
    var e := Expansion(paths, passed, v, paths[s.number]);
    QueueInvAll(paths, s0, walks, contents, lastTime);
    AllWitnessedTail(paths, s0, walks, contents);
    ExpansionWitnessed(paths, passed, s0, walks[0], s);
    AllWitnessedConcat(paths, s0, walks[1..], contents[1..], ExtendWalks(walks[0], e), e);
    ExpansionShape(paths, passed, v, paths[s.number]);
    LayeredStep(contents, lastTime, e);
    QueueInvAll(paths, s0, walks[1..] + ExtendWalks(walks[0], e), contents[1..] + e, s.travelTime);
    CountAtConcat(contents[1..], e, s.travelTime);
    CountAtNone(e, s.travelTime);
  }

  /** Lines 190-212: the loop over the neighbours of the visited state, which
      enqueues exactly `Expansion` of them, in neighbour order. */
  method EnqueueNeighbours(q: Queue<Restaurant>, paths: map<int, seq<int>>, numberOfTimesPassed: seq<int>,
                           number: int, previousReataurant: int, traveledRestaurants: set<int>, travelTime: int)
    requires q.Valid()
    requires Closed(|numberOfTimesPassed|, paths) && number in paths
    modifies q.Repr
    ensures q.Valid() && fresh(q.Repr - old(q.Repr))
    ensures q.Contents == old(q.Contents) +
              Expansion(paths, numberOfTimesPassed,
                        Restaurant(number, previousReataurant, traveledRestaurants, travelTime), paths[number])
  {
    ghost var rest := q.Contents;
    ghost var v := Restaurant(number, previousReataurant, traveledRestaurants, travelTime);
    var adjacentRestaurants := paths[number];
    for i := 0 to |adjacentRestaurants|
      invariant q.Valid() && fresh(q.Repr - old(q.Repr))
      invariant q.Contents == rest + Expansion(paths, numberOfTimesPassed, v, adjacentRestaurants[..i])
    {
      assert adjacentRestaurants[..i + 1][..i] == adjacentRestaurants[..i];
      var adjacentRestaurantNumber := adjacentRestaurants[i];

      if |adjacentRestaurants| == 1 {
        // a dead end: the way back is allowed
      } else if |adjacentRestaurants| == 2 {
        // do not return to the previous restaurant
        if adjacentRestaurantNumber == previousReataurant {
          continue;
        }
      } else {
        // a branch: go only to restaurants not traveled yet
        if adjacentRestaurantNumber in traveledRestaurants || adjacentRestaurantNumber == previousReataurant {
          continue;
        }
      }

      if numberOfTimesPassed[adjacentRestaurantNumber] > |paths[adjacentRestaurantNumber]| {
        continue;
      }
      q.Enqueue(Restaurant(adjacentRestaurantNumber, number, traveledRestaurants, travelTime + 1));
    }
    assert adjacentRestaurants[..|adjacentRestaurants|] == adjacentRestaurants;
  }

  // ---------------------------------------------------------------------

  /** `walk` runs from the start state `s0` to a state of travel time `t`
      that has traveled (itself included) every restaurant of `indexesOfM`. */
  ghost predicate Covering(paths: map<int, seq<int>>, indexesOfM: seq<int>, s0: Restaurant, walk: seq<int>, t: int)
  {
    IsWalk(paths, walk) && walk[0] == s0.number && t == s0.travelTime + |walk| - 1 &&
    AllIn(indexesOfM, s0.traveledRestaurants + Nodes(walk))
  }

  // ---------------------------------------------------------------------
  // One turn of the search on values, and the run it makes up.

  /** The inputs that stay fixed during one call of `findSmallestTravelTime`:
      N, the targets, the pruned map and the bound `smallestTravelTime`. */
  datatype Search = Search(numOfN: int, indexesOfM: seq<int>, paths: map<int, seq<int>>, bound: int)

  /** A turn can be taken: the queue is not empty, its front is a node of the
      map, and there is one pass counter per restaurant. */
  predicate CanTurn(g: Search, contents: seq<Restaurant>, passed: seq<int>)
  {
    Closed(g.numOfN, g.paths) && |passed| == g.numOfN &&
    contents != [] && contents[0].number in g.paths
  }

  /** Lines 175-188: the turn that dequeues `front` ends the search when the
      visited state covers every target, has traveled all N restaurants, or is
      longer than the bound. */
  predicate Stops(g: Search, front: Restaurant)
  {
    AllIn(g.indexesOfM, Visit(front).traveledRestaurants) ||
    |Visit(front).traveledRestaurants| == g.numOfN ||
    front.travelTime > g.bound
  }

  /** Line 173: one more pass through restaurant `x`. */
  function Bump(passed: seq<int>, x: int): seq<int>
    requires 0 <= x < |passed|
  {
    passed[x := passed[x] + 1]
  }

  /** The queue a turn that does not stop leaves behind: the old tail, then
      the admitted neighbours of the visited front (lines 166-212). */
  function Rest(g: Search, contents: seq<Restaurant>, passed: seq<int>): seq<Restaurant>
    requires CanTurn(g, contents, passed)
  {
    var f := contents[0];
    contents[1..] + Expansion(g.paths, Bump(passed, f.number), Visit(f), g.paths[f.number])
  }

  /** What the search loop works on between two turns: the queue's contents
      and the pass counters `numberOfTimesPassed`. */
  datatype Stage = Stage(contents: seq<Restaurant>, passed: seq<int>)

  /** The stage after the turn from `st` that dequeues `f`, when that turn can
      be taken, `f` is indeed the front, and the turn does not stop. */
  function Step(g: Search, st: Stage, f: Restaurant): Option<Stage>
  {
    if CanTurn(g, st.contents, st.passed) && st.contents[0] == f && !Stops(g, f)
    then Some(Stage(Rest(g, st.contents, st.passed), Bump(st.passed, f.number)))
    else None
  }

  /** The stage reached from `st` by the turns that dequeue `fronts` in order,
      none of which stops, or none when the search does not go that way. */
  ghost function After(g: Search, st: Stage, fronts: seq<Restaurant>): Option<Stage>
    decreases |fronts|
  {
    if fronts == [] then Some(st)
    else
      var before := After(g, st, fronts[..|fronts| - 1]);
      if before.None? then None else Step(g, before.value, fronts[|fronts| - 1])
  }

  /** `fronts` is the whole run from stage `st`: the states dequeued until the
      queue is empty, or until a turn that stops, whose front comes last. */
  ghost predicate Explores(g: Search, st: Stage, fronts: seq<Restaurant>)
  {
    var after := After(g, st, fronts);
    (after.Some? && after.value.contents == []) ||
    (fronts != [] &&
     var before := After(g, st, fronts[..|fronts| - 1]);
     before.Some? && CanTurn(g, before.value.contents, before.value.passed) &&
     before.value.contents[0] == fronts[|fronts| - 1] && Stops(g, fronts[|fronts| - 1]))
  }

  /** Every prefix of a run the search can make is one it can make. */
  lemma {:induction false} AfterPrefix(g: Search, st: Stage, fs: seq<Restaurant>, k: nat)
    requires After(g, st, fs).Some? && k <= |fs|
    ensures After(g, st, fs[..k]).Some?
    decreases |fs|
  {
    if k < |fs| {
      AfterPrefix(g, st, fs[..|fs| - 1], k);
      TakeTake(fs, k, |fs| - 1);
    } else {
      assert fs[..k] == fs;
    }
  }

  /** Each turn dequeues the front of the queue, so two runs the search can
      make from the same stage with the same length are the same run. */
  lemma {:induction false} AfterAgree(g: Search, st: Stage, fs: seq<Restaurant>, gs: seq<Restaurant>)
    requires After(g, st, fs).Some? && After(g, st, gs).Some? && |fs| == |gs|
    ensures fs == gs
    decreases |fs|
  {
    if fs != [] {
      var n := |fs| - 1;
      AfterAgree(g, st, fs[..n], gs[..n]);
      assert fs == fs[..n] + [fs[n]] && gs == gs[..n] + [gs[n]];
    }
  }

  /** Every turn of a whole run is taken: the `k`-th state of the run is the
      front of the queue at the stage its first `k` turns reach. */
  lemma AfterNext(g: Search, st: Stage, fs: seq<Restaurant>, k: nat)
    requires Explores(g, st, fs) && k < |fs|
    ensures After(g, st, fs[..k]).Some?
    ensures var before := After(g, st, fs[..k]).value;
            CanTurn(g, before.contents, before.passed) && before.contents[0] == fs[k]
  {
    var after := After(g, st, fs);
    if after.Some? && after.value.contents == [] {
      AfterPrefix(g, st, fs, k + 1);
      TakeTake(fs, k, k + 1);
    } else if k + 1 < |fs| {
      AfterPrefix(g, st, fs[..|fs| - 1], k + 1);
      TakeTake(fs, k + 1, |fs| - 1);
      TakeTake(fs, k, k + 1);
    }
  }

  /** A prefix of a prefix is a prefix. */
  lemma TakeTake<T>(s: seq<T>, i: nat, j: nat)
    requires i <= j <= |s|
    ensures s[..j][..i] == s[..i]
  {
  }

  /** A whole run cannot go on: after it the queue is empty, or its last turn stopped. */
  lemma ExploresEnds(g: Search, st: Stage, fs: seq<Restaurant>)
    requires Explores(g, st, fs)
    ensures After(g, st, fs).None? || After(g, st, fs).value.contents == []
  {
  }

  /** Two whole runs from the same stage agree on their first `n` states. */
  lemma RunsAgree(g: Search, st: Stage, fs: seq<Restaurant>, gs: seq<Restaurant>, n: nat)
    requires Explores(g, st, fs) && Explores(g, st, gs) && n <= |fs| && n <= |gs|
    ensures fs[..n] == gs[..n]
  {
    if n > 0 {
      AfterNext(g, st, fs, n - 1);
      AfterNext(g, st, gs, n - 1);
      AfterAgree(g, st, fs[..n - 1], gs[..n - 1]);
      TakeOneMore(fs, n - 1);
      TakeOneMore(gs, n - 1);
    }
  }

  /** A prefix one longer is the prefix and the next element. */
  lemma TakeOneMore<T>(s: seq<T>, k: nat)
    requires k < |s|
    ensures s[..k + 1] == s[..k] + [s[k]]
  {
  }

  /** A whole run is not a proper prefix of another: the longer one would take
      a turn after the shorter one's end. */
  lemma ExploresNoLonger(g: Search, st: Stage, fs: seq<Restaurant>, gs: seq<Restaurant>)
    requires Explores(g, st, fs) && Explores(g, st, gs)
    ensures |gs| <= |fs|
  {
    var n := |fs|;
    if n < |gs| {
      assert fs[..n] == fs;
      RunsAgree(g, st, fs, gs, n);
      ExploresEnds(g, st, fs);
      AfterNext(g, st, gs, n);
      assert false;
    }
  }

  /** The search is deterministic: a stage admits only one whole run. */
  lemma ExploresUnique(g: Search, st: Stage, fs: seq<Restaurant>, gs: seq<Restaurant>)
    requires Explores(g, st, fs) && Explores(g, st, gs)
    ensures fs == gs
  {
    ExploresNoLonger(g, st, fs, gs);
    ExploresNoLonger(g, st, gs, fs);
    RunsAgree(g, st, fs, gs, |fs|);
    assert fs[..|fs|] == fs && gs[..|gs|] == gs;
  }

  /** The number of states in `s` standing at restaurant `x`. */
  ghost function Passes(s: seq<Restaurant>, x: int): nat
    decreases |s|
  {
    if s == [] then 0 else Passes(s[..|s| - 1], x) + (if s[|s| - 1].number == x then 1 else 0)
  }

  /** What `numberOfTimesPassed` counts: each turn adds the dequeued front's
      restaurant, so every counter grows by the passes of the run through it. */
  lemma {:induction false} AfterCounts(g: Search, st: Stage, fs: seq<Restaurant>)
    requires After(g, st, fs).Some?
    ensures |After(g, st, fs).value.passed| == |st.passed|
    ensures forall x :: 0 <= x < |st.passed| ==>
              After(g, st, fs).value.passed[x] == st.passed[x] + Passes(fs, x)
    decreases |fs|
  {
    if fs != [] {
      AfterCounts(g, st, fs[..|fs| - 1]);
    }
  }

  /** Line 163: a pass counter of 0 for each of the `n` restaurants. */
  function Zeros(n: nat): (r: seq<int>)
    ensures |r| == n && forall x :: 0 <= x < n ==> r[x] == 0
  {
    seq(n, _ => 0)
  }

  /** A turn that does not stop extends the run so far by its front, and the
      counters go on counting the passes of the run. */
  lemma RunGoesOn(g: Search, st: Stage, fs: seq<Restaurant>, c: seq<Restaurant>, p: seq<int>,
                  f: Restaurant, c': seq<Restaurant>, p': seq<int>)
    requires After(g, st, fs) == Some(Stage(c, p)) && CanTurn(g, c, p) && f == c[0] && !Stops(g, f)
    requires forall x :: 0 <= x < g.numOfN ==> p[x] == Passes(fs, x)
    requires p' == Bump(p, f.number)
    requires c' == c[1..] + Expansion(g.paths, p', Visit(f), g.paths[f.number])
    ensures After(g, st, fs + [f]) == Some(Stage(c', p'))
    ensures forall x :: 0 <= x < g.numOfN ==> p'[x] == Passes(fs + [f], x)
  {
    assert (fs + [f])[..|fs|] == fs;
  }

  /** A turn that stops ends the run with its front. */
  lemma RunStops(g: Search, st: Stage, fs: seq<Restaurant>, c: seq<Restaurant>, p: seq<int>, f: Restaurant)
    requires After(g, st, fs) == Some(Stage(c, p)) && CanTurn(g, c, p) && f == c[0] && Stops(g, f)
    ensures Explores(g, st, fs + [f])
  {
    assert (fs + [f])[..|fs|] == fs;
  }

  /** Lines 175-179: the bound after the turn that dequeues `last`. It drops
      to the travel time of `last` when the visited state covers every target
      and is shorter; otherwise it stays. */
  function Lowered(indexesOfM: seq<int>, bound: int, last: Restaurant): (r: int)
    ensures r <= bound
    ensures r < bound <==> AllIn(indexesOfM, Visit(last).traveledRestaurants) && last.travelTime < bound
    ensures r < bound ==> r == last.travelTime
  {
    if AllIn(indexesOfM, Visit(last).traveledRestaurants) then Min(bound, last.travelTime) else bound
  }

  /** Lines 166-212: one turn of the search loop. It dequeues the front state
      `front`, marks it traveled and counts the pass, then either stops the
      search (`Stops`: every target covered, every restaurant traveled, or the
      bound exceeded), lowering the bound only when every target is covered,
      or enqueues the admitted neighbours. */
  method VisitFront(q: Queue<Restaurant>, numOfN: nat, indexesOfM: seq<int>, paths: map<int, seq<int>>,
                    numberOfTimesPassed: seq<int>, smallestTravelTime: int,
                    ghost s0: Restaurant, ghost walks: seq<seq<int>>, ghost lastTime: int)
    returns (stop: bool, smallest: int, passed: seq<int>,
             front: Restaurant, ghost walk: seq<int>, ghost walks': seq<seq<int>>)
    requires q.Valid() && q.Contents != []
    requires Closed(numOfN, paths) && |numberOfTimesPassed| == numOfN
    requires QueueInv(paths, s0, walks, q.Contents, lastTime)
    modifies q.Repr
    ensures q.Valid() && fresh(q.Repr - old(q.Repr))
    ensures front == old(q.Contents)[0] && front.number in paths && lastTime <= front.travelTime
    ensures passed == Bump(numberOfTimesPassed, front.number)
    ensures stop <==> Stops(Search(numOfN, indexesOfM, paths, smallestTravelTime), front)
    ensures stop ==> q.Contents == old(q.Contents)[1..]
    ensures !stop ==> q.Contents == old(q.Contents)[1..] + Expansion(paths, passed, Visit(front), paths[front.number])
    ensures smallest == Lowered(indexesOfM, smallestTravelTime, front)
    ensures smallest < smallestTravelTime ==> Covering(paths, indexesOfM, s0, walk, smallest)
    ensures !stop ==>
              front.travelTime <= smallestTravelTime && !AllIn(indexesOfM, Visit(front).traveledRestaurants) &&
              QueueInv(paths, s0, walks', q.Contents, front.travelTime) &&
              CountAt(q.Contents, front.travelTime) < CountAt(old(q.Contents), front.travelTime)
  {
    ghost var before := q.Contents;
    QueueFront(paths, s0, walks, before, lastTime);
    var r := q.Dequeue();
    front := r.value;
    ghost var w := walks[0];
    smallest, passed, walk, walks' := smallestTravelTime, numberOfTimesPassed, w, walks;

    var number := front.number;
    var adjacentRestaurants := paths[number];
    var previousReataurant := front.previousRestaurant;
    var traveledRestaurants := front.traveledRestaurants;
    var travelTime := front.travelTime;
    traveledRestaurants := traveledRestaurants + {number};
    passed := passed[number := passed[number] + 1];

    if ContainsAll(indexesOfM, traveledRestaurants) {
      if travelTime < smallest {
        smallest := travelTime;
      }
      return true, smallest, passed, front, walk, walks';
    }

    if |traveledRestaurants| == numOfN {
      return true, smallest, passed, front, walk, walks';
    }

    if travelTime > smallest {
      return true, smallest, passed, front, walk, walks';
    }

    assert Visit(front) == Restaurant(number, previousReataurant, traveledRestaurants, travelTime);
    QueueExpand(paths, passed, s0, walks, before, lastTime);
    EnqueueNeighbours(q, paths, passed, number, previousReataurant, traveledRestaurants, travelTime);
    walks' := walks[1..] + ExtendWalks(w, Expansion(paths, passed, Visit(front), adjacentRestaurants));
    stop := false;
  }

  /** The travel time of the layer the queue is in once the run `fronts` from
      `s0` has been dequeued: that of the last front, or of `s0` before any. */
  function Layer(s0: Restaurant, fronts: seq<Restaurant>): int
  {
    if fronts == [] then s0.travelTime else fronts[|fronts| - 1].travelTime
  }

  /** Every stage a run from `s0` reaches satisfies the queue invariant at its
      layer: each queued state is `s0` followed along some walk of the map. */
  lemma {:induction false} QueueInvReached(g: Search, s0: Restaurant, fronts: seq<Restaurant>)
    returns (walks: seq<seq<int>>)
    requires Closed(g.numOfN, g.paths) && s0.number in g.paths
    requires After(g, Stage([s0], Zeros(g.numOfN)), fronts).Some?
    ensures QueueInv(g.paths, s0, walks, After(g, Stage([s0], Zeros(g.numOfN)), fronts).value.contents,
                     Layer(s0, fronts))
    decreases |fronts|
  {
    if fronts == [] {
      walks := [[s0.number]];
      assert Nodes([s0.number][..0]) == {};
    } else {
      var fs, f := fronts[..|fronts| - 1], fronts[|fronts| - 1];
      var before := After(g, Stage([s0], Zeros(g.numOfN)), fs).value;
      var w := QueueInvReached(g, s0, fs);
      var passed := Bump(before.passed, f.number);
      QueueExpand(g.paths, passed, s0, w, before.contents, Layer(s0, fs));
      walks := w[1..] + ExtendWalks(w[0], Expansion(g.paths, passed, Visit(f), g.paths[f.number]));
    }
  }

  /** Where a run from `s0` stands between two turns of the loop, after it has
      dequeued `fronts`: the turns reach queue `contents` and counters `passed`,
      each counter holds the passes through its restaurant, and the fronts so
      far left in non-decreasing travel time, none of them covering every
      target or longer than the bound. */
  ghost predicate Between(g: Search, s0: Restaurant, contents: seq<Restaurant>, passed: seq<int>,
                          fronts: seq<Restaurant>)
  {
    |passed| == g.numOfN &&
    After(g, Stage([s0], Zeros(g.numOfN)), fronts) == Some(Stage(contents, passed)) &&
    (forall x :: 0 <= x < g.numOfN ==> passed[x] == Passes(fronts, x)) &&
    Ordered(fronts) &&
    (fronts != [] ==>
       fronts[0] == s0 && !AllIn(g.indexesOfM, Visit(s0).traveledRestaurants) &&
       Layer(s0, fronts) <= g.bound &&
       !AllIn(g.indexesOfM, Visit(fronts[|fronts| - 1]).traveledRestaurants))
  }

  /** One turn of the loop as the run sees it: `VisitFront`, with its front
      added to the run so far, `fronts`. A turn that stops completes the run;
      one that does not leaves the run one front longer, and the termination
      measure lower. */
  method Turn(q: Queue<Restaurant>, numOfN: nat, indexesOfM: seq<int>, paths: map<int, seq<int>>,
              numberOfTimesPassed: seq<int>, smallestTravelTime: int,
              ghost s0: Restaurant, ghost fronts: seq<Restaurant>)
    returns (stop: bool, smallest: int, passed: seq<int>, front: Restaurant, ghost walk: seq<int>)
    requires q.Valid() && q.Contents != [] && Closed(numOfN, paths) && s0.number in paths
    requires Between(Search(numOfN, indexesOfM, paths, smallestTravelTime), s0,
                     q.Contents, numberOfTimesPassed, fronts)
    modifies q.Repr
    ensures q.Valid() && fresh(q.Repr - old(q.Repr))
    ensures smallest < smallestTravelTime ==> Covering(paths, indexesOfM, s0, walk, smallest)
    ensures stop ==>
              Explores(Search(numOfN, indexesOfM, paths, smallestTravelTime), Stage([s0], Zeros(numOfN)),
                       fronts + [front]) &&
              Ordered(fronts + [front]) && (fronts + [front])[0] == s0 &&
              smallest == Lowered(indexesOfM, smallestTravelTime, front)
    ensures !stop ==>
              smallest == smallestTravelTime &&
              Layer(s0, fronts) <= Layer(s0, fronts + [front]) <= smallestTravelTime &&
              Between(Search(numOfN, indexesOfM, paths, smallestTravelTime), s0,
                      q.Contents, passed, fronts + [front]) &&
              CountAt(q.Contents, Layer(s0, fronts + [front])) < CountAt(old(q.Contents), Layer(s0, fronts + [front]))
  {
    ghost var g := Search(numOfN, indexesOfM, paths, smallestTravelTime);
    ghost var contents := q.Contents;
    ghost var walks := QueueInvReached(g, s0, fronts);
    ghost var walks';
    stop, smallest, passed, front, walk, walks' :=
      VisitFront(q, numOfN, indexesOfM, paths, numberOfTimesPassed, smallestTravelTime,
                 s0, walks, Layer(s0, fronts));
    OrderedAppend(fronts, front);
    assert Layer(s0, fronts + [front]) == front.travelTime;
    if stop {
      RunStops(g, Stage([s0], Zeros(numOfN)), fronts, contents, numberOfTimesPassed, front);
    } else {
      RunGoesOn(g, Stage([s0], Zeros(numOfN)), fronts, contents, numberOfTimesPassed, front, q.Contents, passed);
    }
  }

  /** Lines 160-214: one breadth-first run from `startRestaurant`.
      `smallestTravelTime` is the shared bound on entry and `smallest` its value
      on exit. `dequeued` is the run itself: the states in the order they leave
      the queue, starting from the queue `[startRestaurant]` and zero counters.
      The bound is lowered only by the last of them, only when it covers every
      target, and then to the travel time of a walk from the start that covers
      every target. The states leave the queue in non-decreasing travel time. */
  method FindSmallestTravelTime(numOfN: nat, indexesOfM: seq<int>, paths: map<int, seq<int>>,
                                startRestaurant: Restaurant, smallestTravelTime: int)
    returns (smallest: int, ghost walk: seq<int>, ghost dequeued: seq<Restaurant>)
    requires Closed(numOfN, paths) && startRestaurant.number in paths
    ensures Explores(Search(numOfN, indexesOfM, paths, smallestTravelTime),
                     Stage([startRestaurant], Zeros(numOfN)), dequeued)
    ensures |dequeued| >= 1 && dequeued[0] == startRestaurant
    ensures smallest == Lowered(indexesOfM, smallestTravelTime, dequeued[|dequeued| - 1])
    ensures smallest <= smallestTravelTime
    ensures smallest < smallestTravelTime ==> Covering(paths, indexesOfM, startRestaurant, walk, smallest)
    ensures AllIn(indexesOfM, Visit(startRestaurant).traveledRestaurants) ==>
              smallest == Min(smallestTravelTime, startRestaurant.travelTime)
    ensures Ordered(dequeued)
  {
    ghost var startCovers := AllIn(indexesOfM, Visit(startRestaurant).traveledRestaurants);
    ghost var g := Search(numOfN, indexesOfM, paths, smallestTravelTime);

    var q := new Queue<Restaurant>();
    q.Enqueue(startRestaurant);
    var numberOfTimesPassed := Zeros(numOfN);
    smallest := smallestTravelTime;

    walk, dequeued := [startRestaurant.number], [];

    assert q.Contents == [startRestaurant];
    var stop := false;
    while !q.IsEmpty()
      invariant q.Valid() && fresh(q.Repr)
      invariant !stop && smallest == smallestTravelTime
      invariant Between(g, startRestaurant, q.Contents, numberOfTimesPassed, dequeued)
      decreases smallestTravelTime - Layer(startRestaurant, dequeued) + 1,
                CountAt(q.Contents, Layer(startRestaurant, dequeued))
    {
      var front;
      stop, smallest, numberOfTimesPassed, front, walk :=
        Turn(q, numOfN, indexesOfM, paths, numberOfTimesPassed, smallest, startRestaurant, dequeued);
      dequeued := dequeued + [front];
      if stop {
        assert dequeued[|dequeued| - 1] == front;
        break;
      }
    }
  }
}
