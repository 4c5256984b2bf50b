/**
 Candidate expansion (crates/unimatrix-engine/src/graph_expand.rs): a multi-source
 breadth-first search over the positive edges with a depth limit and a cap.
 */
module Expansion {
  import opened Prelude
  import opened Hops
  import opened RelationGraph
  import opened SearchOrder

  /** The non-seed nodes within `depth` positive hops of a seed. */
  ghost function Ball(r: Relation, seeds: set<nat>, depth: nat): set<nat> {
    Within(r, seeds, depth) - seeds
  }

  /** `x` is at least as near to the seeds as `y`. */
  ghost predicate NoFarther(r: Relation, seeds: set<nat>, x: nat, y: nat) {
    forall k: nat :: y in Within(r, seeds, k) ==> x in Within(r, seeds, k)
  }

  // ----- the discovery order -----

  /** The ascending enumeration of a finite set of ids. */
  ghost function Ascending(s: set<nat>): (a: seq<nat>)
    ensures StrictlyAscending(a) && Elements(a) == s
  {
    AscendingExists(s);
    var a: seq<nat> :| StrictlyAscending(a) && Elements(a) == s;
    a
  }

  lemma {:induction false} AscendingExists(s: set<nat>)
    ensures exists a: seq<nat> :: StrictlyAscending(a) && Elements(a) == s
  {
    if s == {} {
      assert Elements<nat>([]) == s;
      assert StrictlyAscending([]);
    } else {
      var m := Least(s);
      AscendingExists(s - {m});
      var rest: seq<nat> :| StrictlyAscending(rest) && Elements(rest) == s - {m};
      var a := [m] + rest;
      forall i | 0 <= i < |rest| ensures m < rest[i] {
        assert rest[i] in Elements(rest);
      }
      assert StrictlyAscending(a);
      assert Elements(a) == {m} + Elements(rest);
    }
  }

  ghost function Least(s: set<nat>): (m: nat)
    requires s != {}
    ensures m in s && forall x :: x in s ==> m <= x
  {
    var x :| x in s;
    if s == {x} then x
    else
      assert (s - {x}) + {x} == s;
      var m := Least(s - {x});
      if m < x then m else x
  }

  ghost function Successors(r: Relation, x: nat): seq<nat> {
    Ascending(Image(r, {x}))
  }

  /** The order in which an uncapped search finds nodes, from a given visited set and queue. */
  ghost function Discovery(r: Relation, visited: set<nat>, queue: seq<(nat, nat)>, depth: nat): seq<nat>
    decreases (set e | e in r :: e.1) - visited, |queue|
  {
    if queue == [] then []
    else
      var (x, h) := queue[0];
      if h >= depth then Discovery(r, visited, queue[1..], depth)
      else
        var found := Unseen(Successors(r, x), visited);
        UnseenElements(Successors(r, x), visited);
        UnseenEmpty(Successors(r, x), visited);
        assert Elements(Successors(r, x)) <= set e | e in r :: e.1;
        found + Discovery(r, visited + Elements(Successors(r, x)), queue[1..] + Tag(found, h + 1), depth)
  }

  /** The seeds that are graph nodes, queued at depth 0. */
  function SeedQueue(nodes: set<nat>, seeds: seq<nat>): seq<(nat, nat)> {
    if seeds == [] then []
    else
      var n := |seeds| - 1;
      SeedQueue(nodes, seeds[..n]) + if seeds[n] in nodes then [(seeds[n], 0)] else []
  }

  ghost function DiscoveryFrom(g: TypedGraph, seeds: seq<nat>, depth: nat): seq<nat> {
    Discovery(Positive(g), Elements(seeds), SeedQueue(g.nodes, seeds), depth)
  }

  /** What expansion returns: the first `cap` nodes of the discovery order. */
  ghost function Expanded(g: TypedGraph, seeds: seq<nat>, depth: nat, cap: nat): set<nat> {
    var order := DiscoveryFrom(g, seeds, depth);
    Elements(order[..Min(cap, |order|)])
  }

  // ----- what the order lists -----

  /** `order` extends `dist` to `dist'`: new nodes, once each, in order of depth, all beyond `low`. */
  ghost predicate GoodOrder(dist: map<nat, nat>, dist': map<nat, nat>, order: seq<nat>, low: nat, depth: nat) {
    && dist'.Keys == dist.Keys + Elements(order)
    && (forall v :: v in dist ==> dist'[v] == dist[v])
    && Distinct(order) && Elements(order) !! dist.Keys
    && (forall i :: 0 <= i < |order| ==> order[i] in dist' && low < dist'[order[i]] <= depth)
    && (forall i, j :: 0 <= i < j < |order| ==> order[i] in dist' && order[j] in dist' && dist'[order[i]] <= dist'[order[j]])
  }

  ghost function HeadDepth(queue: seq<(nat, nat)>, depth: nat): nat {
    if queue == [] then depth else queue[0].1
  }

  lemma GoodOrderEmpty(dist: map<nat, nat>, depth: nat)
    ensures GoodOrder(dist, dist, [], depth, depth)
  {
  }

  lemma GoodOrderAppend(
    dist: map<nat, nat>, mid: map<nat, nat>, dist': map<nat, nat>, found: seq<nat>, rest: seq<nat>, h: nat, low: nat, depth: nat)
    requires h <= low && h < depth
    requires mid.Keys == dist.Keys + Elements(found) && Elements(found) !! dist.Keys && Distinct(found)
    requires forall v :: v in dist ==> mid[v] == dist[v]
    requires forall v :: v in Elements(found) ==> mid[v] == h + 1
    requires GoodOrder(mid, dist', rest, low, depth)
    ensures GoodOrder(dist, dist', found + rest, h, depth)
  {
    var order := found + rest;
    forall i | 0 <= i < |order|
      ensures if i < |found| then order[i] in Elements(found) && order[i] in dist' && dist'[order[i]] == h + 1
              else order[i] in Elements(rest) && order[i] in dist' && h + 1 <= dist'[order[i]] <= depth
    {
      if i < |found| {
        assert order[i] == found[i];
        assert order[i] in mid;
      } else {
        assert order[i] == rest[i - |found|];
      }
    }
    assert Elements(order) == Elements(found) + Elements(rest);
  }

  lemma SuccessorsAreEdges(r: Relation, x: nat)
    ensures forall n :: n in Successors(r, x) ==> (x, n) in r
    ensures Elements(Successors(r, x)) == Image(r, {x}) <= set e | e in r :: e.1
  {
    forall n | n in Successors(r, x) ensures (x, n) in r {
      assert n in Elements(Successors(r, x));
    }
  }

  lemma QueueHead(r: Relation, seeds: set<nat>, dist: map<nat, nat>, queue: seq<(nat, nat)>, depth: nat)
    requires BfsInv(r, seeds, dist, queue, depth) && |queue| > 0
    ensures queue[0].1 <= depth ==> queue[0].1 <= HeadDepth(queue[1..], depth)
  {
  }

  lemma TailAppend<T>(a: seq<T>, b: seq<T>)
    requires |a| > 0
    ensures (a + b)[1..] == a[1..] + b && (a + b)[0] == a[0]
  {
  }

  /** One turn of the search loop, below the depth limit. */
  lemma DiscoverStep(r: Relation, seeds: set<nat>, dist: map<nat, nat>, queue: seq<(nat, nat)>, depth: nat)
    returns (mid: map<nat, nat>)
    requires BfsInv(r, seeds, dist, queue, depth) && |queue| > 0 && queue[0].1 < depth
    ensures var (x, h) := (queue[0].0, queue[0].1);
            var found := Unseen(Successors(r, x), dist.Keys);
            && BfsInv(r, seeds, mid, queue[1..] + Tag(found, h + 1), depth)
            && mid.Keys == dist.Keys + Elements(Successors(r, x)) == dist.Keys + Elements(found)
            && Elements(found) !! dist.Keys && Distinct(found)
            && (forall v :: v in dist ==> mid[v] == dist[v])
            && (forall v :: v in Elements(found) ==> mid[v] == h + 1)
            && h <= HeadDepth(queue[1..] + Tag(found, h + 1), depth)
  {
    hide BfsInv, Successors, Unseen, Tag, Elements, HeadDepth;
    var x, h := queue[0].0, queue[0].1;
    var ns := Successors(r, x);
    var found := Unseen(ns, dist.Keys);
    var tagged := Tag(found, h + 1);
    SuccessorsAreEdges(r, x);
    UnseenElements(ns, dist.Keys);
    mid := BfsDiscoverAll(r, seeds, dist, queue, depth, ns);
    BfsPop(r, seeds, mid, queue + tagged, depth);
    QueueHead(r, seeds, mid, queue + tagged, depth);
    TailAppend(queue, tagged);
  }

  lemma DiscoveryDone(r: Relation, visited: set<nat>, depth: nat)
    ensures Discovery(r, visited, [], depth) == []
  {
  }

  lemma DiscoveryUnfold(r: Relation, visited: set<nat>, queue: seq<(nat, nat)>, depth: nat)
    requires |queue| > 0
    ensures var (x, h) := (queue[0].0, queue[0].1);
            var found := Unseen(Successors(r, x), visited);
            Discovery(r, visited, queue, depth) ==
            if h >= depth then Discovery(r, visited, queue[1..], depth)
            else found + Discovery(r, visited + Elements(Successors(r, x)), queue[1..] + Tag(found, h + 1), depth)
  {
  }

  lemma QueueBounded(queue: seq<(nat, nat)>, found: seq<nat>, h: nat, depth: nat)
    requires |queue| > 0 && h < depth && forall i :: 0 <= i < |queue| ==> queue[i].1 <= depth
    ensures var queue' := queue[1..] + Tag(found, h + 1);
            forall i :: 0 <= i < |queue'| ==> queue'[i].1 <= depth
  {
    TagMember(found, h + 1);
  }

  /** The search finds each node at its distance, near ones first, and finds everything in range. */
  lemma {:induction false} DiscoveryCorrect(
    r: Relation, seeds: set<nat>, dist: map<nat, nat>, queue: seq<(nat, nat)>, depth: nat) returns (dist': map<nat, nat>)
    requires BfsInv(r, seeds, dist, queue, depth)
    requires forall i :: 0 <= i < |queue| ==> queue[i].1 <= depth
    ensures BfsInv(r, seeds, dist', [], depth)
    ensures GoodOrder(dist, dist', Discovery(r, dist.Keys, queue, depth), HeadDepth(queue, depth), depth)
    decreases (set e | e in r :: e.1) - dist.Keys, |queue|
  {
    hide BfsInv, GoodOrder, Discovery, Successors, Unseen, Tag, Elements, HeadDepth;
    if queue == [] {
      dist' := dist;
      GoodOrderEmpty(dist, depth);
      HeadDepthCases(queue, depth);
      DiscoveryDone(r, dist.Keys, depth);
    } else {
      DiscoveryUnfold(r, dist.Keys, queue, depth);
      var x, h := queue[0].0, queue[0].1;
      HeadDepthCases(queue, depth);
      if h >= depth {
        BfsPop(r, seeds, dist, queue, depth);
        QueueHead(r, seeds, dist, queue, depth);
        HeadDepthCases(queue[1..], depth);
        dist' := DiscoveryCorrect(r, seeds, dist, queue[1..], depth);
      } else {
        var found := Unseen(Successors(r, x), dist.Keys);
        var queue' := queue[1..] + Tag(found, h + 1);
        SuccessorsAreEdges(r, x);
        NoProgress(queue, Successors(r, x), dist.Keys, h + 1);
        QueueBounded(queue, found, h, depth);
        var mid := DiscoverStep(r, seeds, dist, queue, depth);
        dist' := DiscoveryCorrect(r, seeds, mid, queue', depth);
        GoodOrderAppend(dist, mid, dist', found, Discovery(r, mid.Keys, queue', depth), h, HeadDepth(queue', depth), depth);
      }
    }
  }

  lemma HeadDepthCases(queue: seq<(nat, nat)>, depth: nat)
    ensures queue == [] ==> HeadDepth(queue, depth) == depth
    ensures queue != [] ==> HeadDepth(queue, depth) == queue[0].1
  {
  }

  lemma {:induction false} SeedQueueMember(nodes: set<nat>, seeds: seq<nat>)
    ensures forall i :: 0 <= i < |SeedQueue(nodes, seeds)| ==>
              SeedQueue(nodes, seeds)[i].0 in seeds && SeedQueue(nodes, seeds)[i].0 in nodes && SeedQueue(nodes, seeds)[i].1 == 0
    ensures forall s :: s in seeds && s in nodes ==> (s, 0) in SeedQueue(nodes, seeds)
  {
    if seeds == [] {
    } else {
      var n := |seeds| - 1;
      SeedQueueMember(nodes, seeds[..n]);
      assert seeds == seeds[..n] + [seeds[n]];
    }
  }

  /** The distances an uncapped run records, and the order in which it records them. */
  lemma DiscoveryRun(g: TypedGraph, seeds: seq<nat>, depth: nat) returns (dist: map<nat, nat>, zero: map<nat, nat>, low: nat)
    requires g.Valid()
    ensures BfsInv(Positive(g), Elements(seeds), dist, [], depth)
    ensures zero.Keys == Elements(seeds) && GoodOrder(zero, dist, DiscoveryFrom(g, seeds, depth), low, depth)
  {
    hide BfsInv, GoodOrder, Discovery;
    var queue := SeedQueue(g.nodes, seeds);
    zero := map s | s in Elements(seeds) :: 0;
    SeedQueueMember(g.nodes, seeds);
    PositiveEndpoints(g);
    BfsInit(Positive(g), Elements(seeds), zero, queue, depth);
    assert zero.Keys == Elements(seeds);
    dist := DiscoveryCorrect(Positive(g), Elements(seeds), zero, queue, depth);
    low := HeadDepth(queue, depth);
  }

  /** The complete discovery order lists the ball, once each. */
  lemma DiscoveryIsBall(g: TypedGraph, seeds: seq<nat>, depth: nat)
    requires g.Valid()
    ensures Elements(DiscoveryFrom(g, seeds, depth)) == Ball(Positive(g), Elements(seeds), depth)
    ensures Distinct(DiscoveryFrom(g, seeds, depth))
  {
    hide Discovery, DiscoveryFrom, Positive, BfsInv, Ball, Elements;
    var dist, zero, low := DiscoveryRun(g, seeds, depth);
    OrderedIsBall(Positive(g), Elements(seeds), dist, zero, DiscoveryFrom(g, seeds, depth), low, depth);
  }

  lemma OrderedIsBall(
    r: Relation, seeds: set<nat>, dist: map<nat, nat>, zero: map<nat, nat>, order: seq<nat>, low: nat, depth: nat)
    requires BfsInv(r, seeds, dist, [], depth) && zero.Keys == seeds && GoodOrder(zero, dist, order, low, depth)
    ensures Elements(order) == Ball(r, seeds, depth) && Distinct(order)
  {
    hide BfsInv, Hop, Within;
    forall x ensures x in Elements(order) <==> x in Ball(r, seeds, depth) {
      WithinIsHop(r, seeds, depth, x);
      if x in Elements(order) {
        var i :| 0 <= i < |order| && order[i] == x;
        BfsSound(r, seeds, dist, [], depth, x);
      }
      if x in Ball(r, seeds, depth) {
        var k: nat :| k <= depth && x in Hop(r, seeds, k);
        BfsCovered(r, seeds, dist, [], depth, depth, k, x);
      }
    }
  }

  /** Nodes found earlier are no farther from the seeds. */
  lemma DiscoveryByDistance(g: TypedGraph, seeds: seq<nat>, depth: nat, i: nat, j: nat)
    requires g.Valid() && i < j < |DiscoveryFrom(g, seeds, depth)|
    ensures NoFarther(Positive(g), Elements(seeds), DiscoveryFrom(g, seeds, depth)[i], DiscoveryFrom(g, seeds, depth)[j])
  {
    hide Discovery, DiscoveryFrom;
    var r, s, order := Positive(g), Elements(seeds), DiscoveryFrom(g, seeds, depth);
    var dist, zero, low := DiscoveryRun(g, seeds, depth);
    var x, y := order[i], order[j];
    assert dist[x] <= dist[y];
    forall k: nat | y in Within(r, s, k) ensures x in Within(r, s, k) {
      WithinIsHop(r, s, k, y);
      WithinIsHop(r, s, k, x);
      var m: nat :| m <= k && y in Hop(r, s, m);
      assert dist[y] <= m;
      assert x in Hop(r, s, dist[x]);
    }
  }

  /**
   Expansion keeps nodes of the ball only, as many as the cap allows, and never
   drops a node while keeping a farther one.
   */
  lemma ExpandedIsNearestBall(g: TypedGraph, seeds: seq<nat>, depth: nat, cap: nat)
    requires g.Valid()
    ensures var (r, s) := (Positive(g), Elements(seeds));
            var (ball, kept) := (Ball(r, s, depth), Expanded(g, seeds, depth, cap));
            && kept <= ball
            && |kept| == Min(|ball|, cap)
            && (|ball| <= cap ==> kept == ball)
            && forall x, y :: x in kept && y in ball - kept ==> NoFarther(r, s, x, y)
  {
    hide DiscoveryFrom, NoFarther;
    var r, s, order := Positive(g), Elements(seeds), DiscoveryFrom(g, seeds, depth);
    var n := Min(cap, |order|);
    var kept := Expanded(g, seeds, depth, cap);
    DiscoveryIsBall(g, seeds, depth);
    DistinctCardinality(order);
    DistinctCardinality(order[..n]);
    assert |order| <= cap ==> order[..n] == order;
    forall x, y | x in kept && y in Elements(order) - kept ensures NoFarther(r, s, x, y) {
      var i :| 0 <= i < n && order[..n][i] == x;
      assert forall q :: 0 <= q < n ==> order[..n][q] in kept;
      var j :| 0 <= j < |order| && order[j] == y;
      DiscoveryByDistance(g, seeds, depth, i, j);
    }
  }

  // ----- nesting -----

  /** A deeper run finds everything a shallower run finds, first and in the same order. */
  lemma {:induction false} DiscoveryPrefix(r: Relation, visited: set<nat>, queue: seq<(nat, nat)>, depth: nat, deeper: nat)
    requires depth <= deeper
    requires Level(queue)
    ensures Discovery(r, visited, queue, depth) <= Discovery(r, visited, queue, deeper)
    decreases (set e | e in r :: e.1) - visited, |queue|
  {
    hide Discovery, Successors, Unseen, Tag, Elements, Level;
    if queue == [] {
      DiscoveryDone(r, visited, depth);
    } else {
      DiscoveryUnfold(r, visited, queue, depth);
      DiscoveryUnfold(r, visited, queue, deeper);
      var x, h := queue[0].0, queue[0].1;
      if h >= depth {
        LevelFloor(queue);
        NothingDeeper(r, visited, queue, depth);
      } else {
        var ns := Successors(r, x);
        var found := Unseen(ns, visited);
        SuccessorsAreEdges(r, x);
        NoProgress(queue, ns, visited, h + 1);
        StaysLevel(queue, found);
        DiscoveryPrefix(r, visited + Elements(ns), queue[1..] + Tag(found, h + 1), depth, deeper);
        PrefixAppend(found, Discovery(r, visited + Elements(ns), queue[1..] + Tag(found, h + 1), depth),
                     Discovery(r, visited + Elements(ns), queue[1..] + Tag(found, h + 1), deeper));
      }
    }
  }

  lemma PrefixAppend<T>(a: seq<T>, b: seq<T>, c: seq<T>)
    requires b <= c
    ensures a + b <= a + c
  {
  }

  /** A queue sorted by depth whose depths span at most two levels. */
  ghost predicate Level(queue: seq<(nat, nat)>) {
    && (forall i, j :: 0 <= i < j < |queue| ==> queue[i].1 <= queue[j].1)
    && (|queue| > 0 ==> forall i :: 0 <= i < |queue| ==> queue[i].1 <= queue[0].1 + 1)
  }

  lemma LevelFloor(queue: seq<(nat, nat)>)
    requires Level(queue) && |queue| > 0
    ensures forall i :: 0 <= i < |queue| ==> queue[0].1 <= queue[i].1
  {
  }

  lemma StaysLevel(queue: seq<(nat, nat)>, found: seq<nat>)
    requires Level(queue) && |queue| > 0
    ensures Level(queue[1..] + Tag(found, queue[0].1 + 1))
  {
    TagMember(found, queue[0].1 + 1);
  }

  lemma {:induction false} NothingDeeper(r: Relation, visited: set<nat>, queue: seq<(nat, nat)>, depth: nat)
    requires forall i :: 0 <= i < |queue| ==> queue[i].1 >= depth
    ensures Discovery(r, visited, queue, depth) == []
    decreases |queue|
  {
    if queue != [] {
      NothingDeeper(r, visited, queue[1..], depth);
    }
  }

  /** Raising the cap or the depth never removes a returned node. */
  lemma ExpandedNested(g: TypedGraph, seeds: seq<nat>, depth: nat, cap: nat, deeper: nat, larger: nat)
    requires depth <= deeper && cap <= larger
    ensures DiscoveryFrom(g, seeds, depth) <= DiscoveryFrom(g, seeds, deeper)
    ensures Expanded(g, seeds, depth, cap) <= Expanded(g, seeds, deeper, larger)
  {
    hide Discovery;
    SeedQueueMember(g.nodes, seeds);
    DiscoveryPrefix(Positive(g), Elements(seeds), SeedQueue(g.nodes, seeds), depth, deeper);
    var a, b := DiscoveryFrom(g, seeds, depth), DiscoveryFrom(g, seeds, deeper);
    var m, n := Min(cap, |a|), Min(larger, |b|);
    assert a[..m] <= b[..n];
    forall x | x in a[..m] ensures x in b[..n] {
      var i :| 0 <= i < m && a[..m][i] == x;
      assert b[..n][i] == x;
    }
  }

  // ----- the order of discovery, without the search -----

  function InGraph(nodes: set<nat>): nat -> bool {
    (s: nat) => s in nodes
  }

  /** A walk of at most `depth` positive edges leads from a seed to `x`. */
  ghost predicate ReachedWithin(g: TypedGraph, seeds: seq<nat>, depth: nat, x: nat) {
    exists w :: IsWalk(PositiveSteps(g), w) && |w| <= depth + 1 && w[0] in seeds && w[|w| - 1] == x
  }

  /**
   The breadth-first order: every non-seed node within range once, by the position of
   its first predecessor among the seeds and the nodes before it, and by id among the
   successors of one predecessor.
   */
  ghost predicate BreadthFirst(g: TypedGraph, seeds: seq<nat>, depth: nat, order: seq<nat>) {
    && Distinct(order)
    && (forall x :: x in order <==> x !in seeds && ReachedWithin(g, seeds, depth, x))
    && ByFirstParent(PositiveSteps(g), Filter(seeds, InGraph(g.nodes)), order)
  }

  /** There is one such order. */
  lemma BreadthFirstUnique(g: TypedGraph, seeds: seq<nat>, depth: nat, a: seq<nat>, b: seq<nat>)
    requires BreadthFirst(g, seeds, depth, a) && BreadthFirst(g, seeds, depth, b)
    ensures a == b
  {
    hide ReachedWithin, ByFirstParent, Filter, Distinct;
    assert Elements(a) == Elements(b);
    OrderUnique(PositiveSteps(g), Filter(seeds, InGraph(g.nodes)), a, b);
  }

  lemma {:induction false} UnseenAscending(ns: seq<nat>, visited: set<nat>)
    requires StrictlyAscending(ns)
    ensures StrictlyAscending(Unseen(ns, visited))
  {
    if ns != [] {
      if ns[0] in visited {
        UnseenAscending(ns[1..], visited);
      } else {
        var rest := Unseen(ns[1..], visited + {ns[0]});
        UnseenAscending(ns[1..], visited + {ns[0]});
        UnseenElements(ns[1..], visited + {ns[0]});
        forall i | 0 <= i < |rest| ensures ns[0] < rest[i] {
          assert rest[i] in Elements(rest);
        }
      }
    }
  }

  /** The nodes waiting in a queue. */
  ghost predicate Waiting(queue: seq<(nat, nat)>, l: seq<nat>, h: nat) {
    h <= |l| && |queue| == |l| - h && forall i :: 0 <= i < |queue| ==> queue[i].0 == l[h + i]
  }

  /** The successors of the nodes before position `h` have been visited. */
  ghost predicate Passed(r: Relation, l: seq<nat>, h: nat, visited: set<nat>)
    requires h <= |l|
  {
    forall p, v :: 0 <= p < h && (l[p], v) in r ==> v in visited
  }

  lemma WaitingStep(queue: seq<(nat, nat)>, l: seq<nat>, h: nat, found: seq<nat>, d: nat)
    requires Waiting(queue, l, h) && |queue| > 0
    ensures Waiting(queue[1..] + Tag(found, d), l + found, h + 1)
  {
    TagMember(found, d);
  }

  lemma PassedStep(r: Relation, l: seq<nat>, h: nat, visited: set<nat>, found: seq<nat>)
    requires h < |l| && Passed(r, l, h, visited)
    ensures Passed(r, l + found, h + 1, visited + Elements(Successors(r, l[h])))
  {
    hide Successors;
    SuccessorsAreEdges(r, l[h]);
    forall p, v | 0 <= p < h + 1 && ((l + found)[p], v) in r ensures v in visited + Elements(Successors(r, l[h])) {
      if p == h {
        ImageMember(r, l[h], v);
      }
    }
  }

  /** What one node adds: its unvisited successors by id, none of them known to an earlier node. */
  lemma FoundHere(r: Relation, l: seq<nat>, h: nat, visited: set<nat>)
    requires h < |l| && Passed(r, l, h, visited)
    ensures var found := Unseen(Successors(r, l[h]), visited);
            StrictlyAscending(found) && forall v :: v in found ==> FirstFrom(r, l, v, h)
  {
    hide Successors, Unseen, StrictlyAscending;
    var next := Successors(r, l[h]);
    var found := Unseen(next, visited);
    SuccessorsAscending(r, l[h]);
    SuccessorsAreEdges(r, l[h]);
    UnseenAscending(next, visited);
    UnseenElements(next, visited);
    forall v | v in found ensures FirstFrom(r, l, v, h) {
      assert v in Elements(found);
    }
  }

  lemma SuccessorsAscending(r: Relation, x: nat)
    ensures StrictlyAscending(Successors(r, x))
  {
  }

  lemma {:induction false} DiscoveryOrdered(
    r: Relation, visited: set<nat>, queue: seq<(nat, nat)>, depth: nat, l: seq<nat>, h: nat)
    requires Level(queue) && Waiting(queue, l, h)
    requires |queue| > 0 && queue[0].1 < depth ==> Passed(r, l, h, visited)
    ensures OrderedAfter(r, l, h, Discovery(r, visited, queue, depth))
    decreases (set e | e in r :: e.1) - visited, |queue|
  {
    hide OrderedAfter, Waiting, Passed, Unseen, Successors, Tag, Discovery, Level, FirstFrom, StrictlyAscending;
    NothingOrdered(r, l, h);
    if queue == [] {
      DiscoveryDone(r, visited, depth);
    } else if queue[0].1 >= depth {
      NothingDeeperLevel(r, visited, queue, depth);
    } else {
      WaitingHead(queue, l, h);
      var x, d := queue[0].0, queue[0].1;
      var next := Successors(r, x);
      var found := Unseen(next, visited);
      DiscoveryUnfold(r, visited, queue, depth);
      FoundHere(r, l, h, visited);
      PassedStep(r, l, h, visited, found);
      WaitingStep(queue, l, h, found, d + 1);
      StaysLevel(queue, found);
      SuccessorsAreEdges(r, x);
      NoProgress(queue, next, visited, d + 1);
      DiscoveryOrdered(r, visited + Elements(next), queue[1..] + Tag(found, d + 1), depth, l + found, h + 1);
      OrderStep(r, l, h, found, Discovery(r, visited + Elements(next), queue[1..] + Tag(found, d + 1), depth));
    }
  }

  lemma NothingDeeperLevel(r: Relation, visited: set<nat>, queue: seq<(nat, nat)>, depth: nat)
    requires Level(queue) && |queue| > 0 && queue[0].1 >= depth
    ensures Discovery(r, visited, queue, depth) == []
  {
    LevelFloor(queue);
    NothingDeeper(r, visited, queue, depth);
  }

  lemma WaitingHead(queue: seq<(nat, nat)>, l: seq<nat>, h: nat)
    requires Waiting(queue, l, h) && |queue| > 0
    ensures h < |l| && l[h] == queue[0].0
  {
  }

  lemma {:induction false} SeedsWaiting(nodes: set<nat>, seeds: seq<nat>)
    ensures Waiting(SeedQueue(nodes, seeds), Filter(seeds, InGraph(nodes)), 0)
  {
    if seeds != [] {
      var n := |seeds| - 1;
      SeedsWaiting(nodes, seeds[..n]);
      assert seeds == seeds[..n] + [seeds[n]];
      FilterAppend(seeds[..n], [seeds[n]], InGraph(nodes));
      assert Filter([seeds[n]], InGraph(nodes)) == if seeds[n] in nodes then [seeds[n]] else [];
    }
  }

  lemma SeedsLevel(nodes: set<nat>, seeds: seq<nat>)
    ensures Level(SeedQueue(nodes, seeds))
  {
    hide SeedQueue;
    SeedQueueMember(nodes, seeds);
  }

  lemma ReachedIsWithin(g: TypedGraph, seeds: seq<nat>, depth: nat, x: nat)
    ensures ReachedWithin(g, seeds, depth, x) <==> x in Within(PositiveSteps(g), Elements(seeds), depth)
  {
    hide PositiveSteps, Within, Hop;
    var r, s := PositiveSteps(g), Elements(seeds);
    WithinIsHop(r, s, depth, x);
    if x in Within(r, s, depth) {
      var k: nat :| k <= depth && x in Hop(r, s, k);
      HopIsWalk(r, s, k, x);
    }
    if w :| IsWalk(r, w) && |w| <= depth + 1 && w[0] in seeds && w[|w| - 1] == x {
      HopIsWalk(r, s, |w| - 1, x);
    }
  }

  /** The search finds nodes in breadth-first order. */
  lemma DiscoveryIsBreadthFirst(g: TypedGraph, seeds: seq<nat>, depth: nat)
    requires g.Valid()
    ensures BreadthFirst(g, seeds, depth, DiscoveryFrom(g, seeds, depth))
  {
    hide Positive, PositiveSteps, ReachedWithin, Discovery, Within, Distinct, OrderedAfter, Waiting, Filter, SeedQueue, Level;
    PositiveIsSteps(g);
    DiscoveryIsBall(g, seeds, depth);
    var order := DiscoveryFrom(g, seeds, depth);
    forall x ensures x in order <==> x !in seeds && ReachedWithin(g, seeds, depth, x) {
      ReachedIsWithin(g, seeds, depth, x);
      assert x in order <==> x in Elements(order);
    }
    SeedsWaiting(g.nodes, seeds);
    SeedsLevel(g.nodes, seeds);
    NonePassed(Positive(g), Filter(seeds, InGraph(g.nodes)), Elements(seeds));
    DiscoveryOrdered(Positive(g), Elements(seeds), SeedQueue(g.nodes, seeds), depth, Filter(seeds, InGraph(g.nodes)), 0);
  }

  lemma NonePassed(r: Relation, l: seq<nat>, visited: set<nat>)
    ensures Passed(r, l, 0, visited)
  {
  }

  /** `kept` is the first `cap` nodes of the breadth-first order. */
  ghost predicate FirstFound(g: TypedGraph, seeds: seq<nat>, depth: nat, cap: nat, kept: set<nat>) {
    exists order :: BreadthFirst(g, seeds, depth, order) && kept == Elements(order[..Min(cap, |order|)])
  }

  lemma ExpandedIsFirstFound(g: TypedGraph, seeds: seq<nat>, depth: nat, cap: nat)
    requires g.Valid()
    ensures FirstFound(g, seeds, depth, cap, Expanded(g, seeds, depth, cap))
  {
    hide BreadthFirst, DiscoveryFrom;
    DiscoveryIsBreadthFirst(g, seeds, depth);
  }

  /** Nothing else is: the result is determined. */
  lemma FirstFoundUnique(g: TypedGraph, seeds: seq<nat>, depth: nat, cap: nat, a: set<nat>, b: set<nat>)
    ensures FirstFound(g, seeds, depth, cap, a) && FirstFound(g, seeds, depth, cap, b) ==> a == b
  {
    hide BreadthFirst;
    if FirstFound(g, seeds, depth, cap, a) && FirstFound(g, seeds, depth, cap, b) {
      var x :| BreadthFirst(g, seeds, depth, x) && a == Elements(x[..Min(cap, |x|)]);
      var y :| BreadthFirst(g, seeds, depth, y) && b == Elements(y[..Min(cap, |y|)]);
      BreadthFirstUnique(g, seeds, depth, x, y);
    }
  }

  /** Of two nodes with one first predecessor, the one with the larger id is never kept without the other. */
  lemma SmallerIdFirst(g: TypedGraph, seeds: seq<nat>, depth: nat, cap: nat, order: seq<nat>, x: nat, y: nat, p: nat)
    requires BreadthFirst(g, seeds, depth, order) && x in order && x < y
    requires var l := Filter(seeds, InGraph(g.nodes)) + order;
             FirstFrom(PositiveSteps(g), l, x, p) && FirstFrom(PositiveSteps(g), l, y, p)
    ensures y in order[..Min(cap, |order|)] ==> x in order[..Min(cap, |order|)]
  {
    hide FirstFrom, ReachedWithin, PositiveSteps, Filter, ByFirstParent;
    var n := Min(cap, |order|);
    var i: nat :| i < |order| && order[i] == x;
    if y in order[..n] {
      var j: nat :| j < n && order[..n][j] == y;
      SmallerPlacedFirst(PositiveSteps(g), Filter(seeds, InGraph(g.nodes)), order, i, j, p);
      assert order[..n][i] == x;
    }
  }

  /** One hop from one seed, the kept neighbours are the ones with the smallest ids. */
  lemma OneHopKeepsSmallest(g: TypedGraph, s: nat, cap: nat, kept: set<nat>, x: nat, y: nat)
    requires g.Valid() && x != s && y != s && (s, x) in PositiveSteps(g) && (s, y) in PositiveSteps(g)
    ensures FirstFound(g, [s], 1, cap, kept) && x in kept && y !in kept ==> x < y
  {
    hide PositiveSteps, Filter, BreadthFirst, FirstFrom, ReachedWithin;
    if FirstFound(g, [s], 1, cap, kept) {
      var order :| BreadthFirst(g, [s], 1, order) && kept == Elements(order[..Min(cap, |order|)]);
      OneSeed(g, s, x, order);
      OneSeed(g, s, y, order);
      if y < x {
        SmallerIdFirst(g, [s], 1, cap, order, y, x, 0);
      }
    }
  }

  lemma OneSeed(g: TypedGraph, s: nat, x: nat, order: seq<nat>)
    requires g.Valid() && x != s && (s, x) in PositiveSteps(g) && BreadthFirst(g, [s], 1, order)
    ensures x in order && FirstFrom(PositiveSteps(g), Filter([s], InGraph(g.nodes)) + order, x, 0)
  {
    hide Distinct, ByFirstParent;
    var w := [s, x];
    assert IsWalk(PositiveSteps(g), w);
    assert ReachedWithin(g, [s], 1, x);
    var e :| e in g.edges && e.source == s && e.target == x;
    assert Filter([s], InGraph(g.nodes)) == [s];
  }

  // ----- the order of the seeds -----

  /** As long as the cap does not bind, the order of the seeds, and repeated seeds, do not matter. */
  lemma SeedOrderIrrelevant(g: TypedGraph, seeds: seq<nat>, seeds': seq<nat>, depth: nat, cap: nat)
    requires g.Valid() && Elements(seeds) == Elements(seeds')
    requires |Ball(Positive(g), Elements(seeds), depth)| <= cap
    ensures Expanded(g, seeds, depth, cap) == Expanded(g, seeds', depth, cap)
  {
    hide Expanded, Ball, Positive;
    ExpandedIsNearestBall(g, seeds, depth, cap);
    ExpandedIsNearestBall(g, seeds', depth, cap);
  }

  /** With room for one candidate, the first seed's only neighbour takes it. */
  lemma FirstSeedWins(g: TypedGraph, seeds: seq<nat>, depth: nat, x: nat)
    requires |seeds| > 0 && seeds[0] in g.nodes && depth > 0
    requires Image(Positive(g), {seeds[0]}) == {x} && x !in seeds
    ensures Expanded(g, seeds, depth, 1) == {x}
  {
    hide Discovery, Positive, Image;
    var r, queue := Positive(g), SeedQueue(g.nodes, seeds);
    FirstSeedQueued(g.nodes, seeds);
    assert Elements([x]) == {x};
    AscendingUnique(Successors(r, seeds[0]), [x]);
    DiscoveryUnfold(r, Elements(seeds), queue, depth);
    var order := DiscoveryFrom(g, seeds, depth);
    assert Unseen([x], Elements(seeds)) == [x] by {
      assert [x][1..] == [];
    }
    assert order[..1] == [x];
  }

  lemma {:induction false} FirstSeedQueued(nodes: set<nat>, seeds: seq<nat>)
    requires |seeds| > 0 && seeds[0] in nodes
    ensures |SeedQueue(nodes, seeds)| > 0 && SeedQueue(nodes, seeds)[0] == (seeds[0], 0)
  {
    var n := |seeds| - 1;
    if n > 0 {
      FirstSeedQueued(nodes, seeds[..n]);
    }
  }

  /** Two seeds with a neighbour each. */
  const TWO_SEEDS := TypedGraph({1, 2, 3, 5}, [Edge(2, 5, "CoAccess", 1.0), Edge(1, 3, "CoAccess", 1.0)])

  lemma TwoSeedsPairs()
    ensures Positive(TWO_SEEDS) == {(2, 5), (1, 3)}
  {
    assert TWO_SEEDS.edges[0] in TWO_SEEDS.edges && TWO_SEEDS.edges[1] in TWO_SEEDS.edges;
    assert RelationOf(TWO_SEEDS, CoAccess) == {(2, 5), (1, 3)};
  }

  /** When the cap binds, the seed that is named first decides. */
  lemma SeedOrderMatters()
    ensures TWO_SEEDS.Valid()
    ensures Expanded(TWO_SEEDS, [2, 1], 1, 1) == {5} && Expanded(TWO_SEEDS, [1, 2], 1, 1) == {3}
  {
    hide Expanded, Positive;
    TwoSeedsPairs();
    assert Image(Positive(TWO_SEEDS), {2}) == {5} && Image(Positive(TWO_SEEDS), {1}) == {3};
    FirstSeedWins(TWO_SEEDS, [2, 1], 1, 5);
    FirstSeedWins(TWO_SEEDS, [1, 2], 1, 3);
  }

  // ----- the loop -----

  /** The five `edges_of_type` queries of one node, sorted and deduplicated. */
  method SortedNeighbours(g: TypedGraph, id: nat) returns (neighbours: seq<nat>)
    requires g.Valid()
    ensures neighbours == Successors(Positive(g), id)
    ensures StrictlyAscending(neighbours)
    ensures forall y :: y in neighbours <==> exists e :: e in g.edges && e.source == id && e.target == y && PositiveName(e.relationType)
  {
    var all := Targets(g.EdgesOfType(id, CoAccess, Outgoing));
    all := all + Targets(g.EdgesOfType(id, Supports, Outgoing));
    all := all + Targets(g.EdgesOfType(id, Informs, Outgoing));
    all := all + Targets(g.EdgesOfType(id, Prerequisite, Outgoing));
    all := all + Targets(g.EdgesOfType(id, RelatedTo, Outgoing));
    neighbours := SortDedup(all);
    FiveImages(g, id, all);
    AscendingUnique(neighbours, Successors(Positive(g), id));
    NeighboursNamed(g, id, neighbours);
  }

  lemma NeighboursNamed(g: TypedGraph, id: nat, neighbours: seq<nat>)
    requires Elements(neighbours) == Image(Positive(g), {id})
    ensures forall y :: y in neighbours <==> exists e :: e in g.edges && e.source == id && e.target == y && PositiveName(e.relationType)
  {
    hide Positive, PositiveName;
    PositiveIsSteps(g);
    forall y ensures y in neighbours <==> exists e :: e in g.edges && e.source == id && e.target == y && PositiveName(e.relationType) {
      assert y in neighbours <==> y in Elements(neighbours);
      if e :| e in g.edges && e.source == id && e.target == y && PositiveName(e.relationType) {
        assert (id, y) in PositiveSteps(g);
      }
    }
  }

  lemma FiveImages(g: TypedGraph, id: nat, all: seq<nat>)
    requires g.Valid()
    requires all == Targets(g.EdgesOfType(id, CoAccess, Outgoing)) + Targets(g.EdgesOfType(id, Supports, Outgoing))
                    + Targets(g.EdgesOfType(id, Informs, Outgoing)) + Targets(g.EdgesOfType(id, Prerequisite, Outgoing))
                    + Targets(g.EdgesOfType(id, RelatedTo, Outgoing))
    ensures Elements(all) == Image(Positive(g), {id})
  {
    hide Targets, RelationOf;
    TargetsInGraph(g, id, CoAccess);
    TargetsInGraph(g, id, Supports);
    TargetsInGraph(g, id, Informs);
    TargetsInGraph(g, id, Prerequisite);
    TargetsInGraph(g, id, RelatedTo);
    forall y ensures y in Elements(all) <==> y in Image(Positive(g), {id}) {
      assert y in Image(Positive(g), {id}) <==>
        || y in Image(RelationOf(g, CoAccess), {id}) || y in Image(RelationOf(g, Supports), {id})
        || y in Image(RelationOf(g, Informs), {id}) || y in Image(RelationOf(g, Prerequisite), {id})
        || y in Image(RelationOf(g, RelatedTo), {id});
    }
  }

  lemma NothingToExpand(g: TypedGraph, seeds: seq<nat>, depth: nat)
    requires |seeds| == 0 || g.nodes == {} || depth == 0
    ensures DiscoveryFrom(g, seeds, depth) == []
  {
    SeedQueueMember(g.nodes, seeds);
    NothingDeeper(Positive(g), Elements(seeds), SeedQueue(g.nodes, seeds), depth);
  }

  lemma VisitOne(visited: set<nat>, n: nat, rest: set<nat>)
    ensures visited + ({n} + rest) == (visited + {n}) + rest
    ensures n in visited ==> visited + ({n} + rest) == visited + rest
  {
  }

  /** The inner loop: admits unvisited neighbours until the cap is met. */
  method AddNeighbours(
    neighbours: seq<nat>, d: nat, cap: nat, visited: set<nat>, result: set<nat>, queue: seq<(nat, nat)>, ghost found: seq<nat>)
    returns (full: bool, result': set<nat>, visited': set<nat>, queue': seq<(nat, nat)>)
    requires result == Elements(found) <= visited && |result| == |found| <= cap
    ensures full ==> exists kept: seq<nat> :: kept <= found + Unseen(neighbours, visited) && result' == Elements(kept) && |kept| == cap
    ensures !full ==>
              && result' == Elements(found + Unseen(neighbours, visited)) <= visited'
              && |result'| == |found + Unseen(neighbours, visited)| <= cap
              && visited' == visited + Elements(neighbours)
              && queue' == queue + Tag(Unseen(neighbours, visited), d + 1)
  {
    ghost var all := Unseen(neighbours, visited);
    ghost var added: seq<nat> := [];
    assert found + added == found && queue + Tag(added, d + 1) == queue && neighbours[0..] == neighbours;
    hide Unseen, Tag, Elements;
    result', visited', queue' := result, visited, queue;
    ghost var f := found;
    for i := 0 to |neighbours|
      invariant added + Unseen(neighbours[i..], visited') == all
      invariant f == found + added
      invariant result' == Elements(f) <= visited' && |result'| == |f| <= cap
      invariant visited' + Elements(neighbours[i..]) == visited + Elements(neighbours)
      invariant queue' == queue + Tag(added, d + 1)
    {
      if |result'| >= cap {
        AppendAssociative(found, added, Unseen(neighbours[i..], visited'));
        assert f <= found + all;
        full := true;
        return;
      }
      var n := neighbours[i];
      UnseenNext(neighbours, i, visited', added);
      VisitOne(visited', n, Elements(neighbours[i + 1..]));
      if n in visited' {
        continue;
      }
      TagSnoc(added, n, d + 1);
      AppendAssociative(found, added, [n]);
      AppendAssociative(queue, Tag(added, d + 1), [(n, d + 1)]);
      ElementsSnoc(f, n);
      visited' := visited' + {n};
      result' := result' + {n};
      added, f := added + [n], f + [n];
      queue' := queue' + [(n, d + 1)];
    }
    full := false;
    NothingLeft(neighbours, visited', added);
  }

  method EnqueueSeeds(g: TypedGraph, seeds: seq<nat>) returns (queue: seq<(nat, nat)>)
    ensures queue == SeedQueue(g.nodes, seeds)
  {
    queue := [];
    for i := 0 to |seeds|
      invariant queue == SeedQueue(g.nodes, seeds[..i])
    {
      assert seeds[..i + 1][..i] == seeds[..i];
      if seeds[i] in g.nodes {
        queue := queue + [(seeds[i], 0)];
      }
    }
    assert seeds[..|seeds|] == seeds;
  }

  lemma CapReached(g: TypedGraph, seeds: seq<nat>, depth: nat, step: seq<nat>, rest: seq<nat>, kept: seq<nat>)
    requires step + rest == DiscoveryFrom(g, seeds, depth) && kept <= step
    ensures Elements(kept) == Expanded(g, seeds, depth, |kept|)
  {
    assert kept == (step + rest)[..|kept|];
  }

  /** Breadth-first expansion of the seeds along positive edges. */
  method GraphExpand(g: TypedGraph, seeds: seq<nat>, depth: nat, cap: nat) returns (result: set<nat>)
    requires g.Valid()
    ensures result == Expanded(g, seeds, depth, cap)
    ensures FirstFound(g, seeds, depth, cap, result)
  {
    hide FirstFound;
    ExpandedIsFirstFound(g, seeds, depth, cap);
    if |seeds| == 0 || g.nodes == {} || depth == 0 {
      NothingToExpand(g, seeds, depth);
      return {};
    }
    var queue := EnqueueSeeds(g, seeds);
    result := ExpandLoop(g, seeds, depth, cap, queue);
  }

  method ExpandLoop(g: TypedGraph, seeds: seq<nat>, depth: nat, cap: nat, seedQueue: seq<(nat, nat)>) returns (result: set<nat>)
    requires g.Valid() && seedQueue == SeedQueue(g.nodes, seeds)
    ensures result == Expanded(g, seeds, depth, cap)
  {
    hide Discovery, Unseen, Tag, Successors, Positive, Elements;
    ghost var r := Positive(g);
    ghost var order := DiscoveryFrom(g, seeds, depth);
    var visited := Elements(seeds);
    var queue := seedQueue;
    result := {};
    NothingLeft([], {}, []);
    ghost var found: seq<nat> := [];
    while queue != []
      invariant found + Discovery(r, visited, queue, depth) == order
      invariant result == Elements(found) <= visited && |result| == |found| <= cap
      decreases (set e | e in r :: e.1) - visited, |queue|
    {
      var current, d := queue[0].0, queue[0].1;
      DiscoveryUnfold(r, visited, queue, depth);
      var neighbours := SortedNeighbours(g, current);
      if d >= depth {
        queue := queue[1..];
        continue;
      }
      SuccessorsAreEdges(r, current);
      UnseenEmpty(neighbours, visited);
      ghost var new' := Unseen(neighbours, visited);
      ghost var rest := Discovery(r, visited + Elements(neighbours), queue[1..] + Tag(new', d + 1), depth);
      AppendAssociative(found, new', rest);
      TagMember(new', d + 1);
      var full, more, seen, next := AddNeighbours(neighbours, d, cap, visited, result, queue[1..], found);
      if full {
        ghost var kept: seq<nat> :| kept <= found + new' && more == Elements(kept) && |kept| == cap;
        CapReached(g, seeds, depth, found + new', rest, kept);
        return more;
      }
      found := found + new';
      result, visited, queue := more, seen, next;
    }
    DiscoveryDone(r, visited, depth);
    assert order[..|order|] == order == found;
  }
}
