/**
 Reachability in a finite relation, measured in hops, and the invariant of a
 breadth-first search over it.
 */
module Hops {
  import opened Prelude

  type Relation = set<(nat, nat)>

  /** The nodes one hop away from a set of nodes. */
  function Image(r: Relation, s: set<nat>): set<nat> {
    set e | e in r && e.0 in s :: e.1
  }

  /** The nodes at the end of a walk of exactly `d` edges that starts in `s`. */
  function Hop(r: Relation, s: set<nat>, d: nat): set<nat> {
    if d == 0 then s else Image(r, Hop(r, s, d - 1))
  }

  /** The nodes at the end of a walk of at most `d` edges that starts in `s`. */
  function Within(r: Relation, s: set<nat>, d: nat): set<nat> {
    if d == 0 then s else Within(r, s, d - 1) + Hop(r, s, d)
  }

  ghost predicate IsWalk(r: Relation, w: seq<nat>) {
    && |w| > 0
    && forall i :: 0 <= i < |w| - 1 ==> (w[i], w[i + 1]) in r
  }

  lemma {:induction false} WalkToHop(r: Relation, s: set<nat>, w: seq<nat>)
    requires IsWalk(r, w) && w[0] in s
    ensures w[|w| - 1] in Hop(r, s, |w| - 1)
  {
    if |w| > 1 {
      var v := w[..|w| - 1];
      WalkToHop(r, s, v);
      assert (v[|v| - 1], w[|w| - 1]) in r;
    }
  }

  lemma {:induction false} HopToWalk(r: Relation, s: set<nat>, d: nat, x: nat) returns (w: seq<nat>)
    requires x in Hop(r, s, d)
    ensures IsWalk(r, w) && |w| == d + 1 && w[0] in s && w[d] == x
  {
    if d == 0 {
      w := [x];
    } else {
      var e :| e in r && e.0 in Hop(r, s, d - 1) && e.1 == x;
      var v := HopToWalk(r, s, d - 1, e.0);
      w := v + [x];
    }
  }

  /** `Hop` is reachability by explicit walks. */
  lemma HopIsWalk(r: Relation, s: set<nat>, d: nat, x: nat)
    ensures x in Hop(r, s, d) <==> exists w :: IsWalk(r, w) && |w| == d + 1 && w[0] in s && w[d] == x
  {
    if x in Hop(r, s, d) {
      var w := HopToWalk(r, s, d, x);
    }
    forall w | IsWalk(r, w) && |w| == d + 1 && w[0] in s && w[d] == x
      ensures x in Hop(r, s, d)
    {
      WalkToHop(r, s, w);
    }
  }

  lemma ImageMember(r: Relation, x: nat, y: nat)
    requires (x, y) in r
    ensures y in Image(r, {x})
  {
  }

  lemma WithinStep(r: Relation, s: set<nat>, d: nat)
    ensures Within(r, s, 0) == s == Hop(r, s, 0)
    ensures Within(r, s, d + 1) == Within(r, s, d) + Hop(r, s, d + 1)
  {
  }

  lemma {:induction false} WithinIsHop(r: Relation, s: set<nat>, d: nat, x: nat)
    ensures x in Within(r, s, d) <==> exists k: nat :: k <= d && x in Hop(r, s, k)
  {
    hide Within, Hop;
    if d == 0 {
      WithinStep(r, s, 0);
    } else {
      WithinIsHop(r, s, d - 1, x);
      WithinStep(r, s, d - 1);
    }
  }

  /** A walk may be peeled at the front as well as at the back. */
  lemma {:induction false} HopFront(r: Relation, s: set<nat>, d: nat)
    ensures Hop(r, s, d + 1) == Hop(r, Image(r, s), d)
  {
    if d > 0 {
      HopFront(r, s, d - 1);
    }
  }

  lemma {:induction false} HopMonotone(r: Relation, s: set<nat>, t: set<nat>, d: nat)
    requires s <= t
    ensures Hop(r, s, d) <= Hop(r, t, d)
  {
    if d > 0 {
      HopMonotone(r, s, t, d - 1);
    }
  }

  /** Every walk out of a set starts at one of its members. */
  lemma {:induction false} HopOrigin(r: Relation, s: set<nat>, d: nat, x: nat) returns (y: nat)
    requires x in Hop(r, s, d)
    ensures y in s && x in Hop(r, {y}, d)
  {
    if d == 0 {
      y := x;
    } else {
      var e :| e in r && e.0 in Hop(r, s, d - 1) && e.1 == x;
      y := HopOrigin(r, s, d - 1, e.0);
    }
  }

  lemma {:induction false} WithinGrows(r: Relation, s: set<nat>, d: nat)
    ensures s <= Within(r, s, d)
  {
    if d > 0 {
      WithinGrows(r, s, d - 1);
    }
  }

  /** Reaching `x` within `d + 1` hops of `u` means being `u` or being within `d` hops of a successor. */
  lemma WithinFront(r: Relation, u: nat, d: nat, x: nat)
    ensures x in Within(r, {u}, d + 1) <==> x == u || exists v :: v in Image(r, {u}) && x in Within(r, {v}, d)
  {
    WithinIsHop(r, {u}, d + 1, x);
    if k: nat :| k <= d + 1 && x in Hop(r, {u}, k) {
      if k > 0 {
        HopFront(r, {u}, k - 1);
        var v := HopOrigin(r, Image(r, {u}), k - 1, x);
        WithinIsHop(r, {v}, d, x);
      }
    }
    if x == u {
      WithinGrows(r, {u}, d + 1);
    } else if v :| v in Image(r, {u}) && x in Within(r, {v}, d) {
      WithinIsHop(r, {v}, d, x);
      var k: nat :| k <= d && x in Hop(r, {v}, k);
      HopFront(r, {u}, k);
      HopMonotone(r, {v}, Image(r, {u}), k);
    }
  }

  // ----- forests -----

  ghost predicate Acyclic(r: Relation) {
    forall x: nat, d: nat {:trigger Hop(r, {x}, d)} :: d >= 1 ==> x !in Hop(r, {x}, d)
  }

  /** No node has two predecessors and no walk returns to its start. */
  ghost predicate Forest(r: Relation) {
    && (forall e, f :: e in r && f in r && e.1 == f.1 ==> e.0 == f.0)
    && Acyclic(r)
  }

  /** In a forest all walks between two nodes have the same length. */
  lemma {:induction false} ForestDepthUnique(r: Relation, x: nat, y: nat, d: nat, k: nat)
    requires Forest(r)
    requires y in Hop(r, {x}, d) && y in Hop(r, {x}, k)
    ensures d == k
    decreases d
  {
    if d == 0 || k == 0 {
    } else {
      var e :| e in r && e.0 in Hop(r, {x}, d - 1) && e.1 == y;
      var f :| f in r && f.0 in Hop(r, {x}, k - 1) && f.1 == y;
      ForestDepthUnique(r, x, e.0, d - 1, k - 1);
    }
  }

  // ----- breadth-first search -----

  /**
   The state of a breadth-first search from `seeds` that expands the nodes of
   depth below `limit`: `dist` records the depth at which each visited node was
   found, and `queue` holds the nodes still to be expanded.
   */
  ghost predicate BfsInv(r: Relation, seeds: set<nat>, dist: map<nat, nat>, queue: seq<(nat, nat)>, limit: nat) {
    && (forall s :: s in seeds ==> s in dist && dist[s] == 0)
    && (forall v :: v in dist ==> v in Hop(r, seeds, dist[v]))
    && (forall v, j: nat {:trigger Hop(r, seeds, j), dist[v]} :: v in dist && j < dist[v] ==> v !in Hop(r, seeds, j))
    && (forall i :: 0 <= i < |queue| ==> queue[i].0 in dist && dist[queue[i].0] == queue[i].1)
    && (forall i, j :: 0 <= i < j < |queue| ==> queue[i].1 <= queue[j].1)
    && (|queue| > 0 ==> forall v :: v in dist ==> dist[v] <= queue[0].1 + 1)
    && (forall v :: v in dist && dist[v] < limit && (v, dist[v]) !in queue ==> Explored(r, dist, v))
  }

  ghost predicate Explored(r: Relation, dist: map<nat, nat>, v: nat)
    requires v in dist
  {
    forall e :: e in r && e.0 == v ==> e.1 in dist && dist[e.1] <= dist[v] + 1
  }

  lemma BfsInit(r: Relation, seeds: set<nat>, dist: map<nat, nat>, queue: seq<(nat, nat)>, limit: nat)
    requires dist.Keys == seeds && forall s :: s in seeds ==> dist[s] == 0
    requires forall i :: 0 <= i < |queue| ==> queue[i].0 in seeds && queue[i].1 == 0
    requires forall e :: e in r && e.0 in seeds ==> (e.0, 0) in queue
    ensures BfsInv(r, seeds, dist, queue, limit)
  {
  }

  /** What a search has found lies at its recorded distance. */
  lemma BfsSound(r: Relation, seeds: set<nat>, dist: map<nat, nat>, queue: seq<(nat, nat)>, limit: nat, x: nat)
    requires BfsInv(r, seeds, dist, queue, limit) && x in dist
    ensures x in Hop(r, seeds, dist[x])
  {
  }

  /** Everything nearer than the search front has been found, at no more than its distance. */
  lemma {:induction false} BfsCovered(
    r: Relation, seeds: set<nat>, dist: map<nat, nat>, queue: seq<(nat, nat)>, limit: nat, front: nat, k: nat, x: nat)
    requires BfsInv(r, seeds, dist, queue, limit)
    requires front <= limit && forall i :: 0 <= i < |queue| ==> queue[i].1 >= front
    requires k <= front && x in Hop(r, seeds, k)
    ensures x in dist && dist[x] <= k
  {
    if k == 0 {
    } else {
      var e :| e in r && e.0 in Hop(r, seeds, k - 1) && e.1 == x;
      BfsCovered(r, seeds, dist, queue, limit, front, k - 1, e.0);
      assert (e.0, dist[e.0]) !in queue;
      assert Explored(r, dist, e.0);
    }
  }

  lemma HopStep(r: Relation, s: set<nat>, d: nat, x: nat, y: nat)
    requires x in Hop(r, s, d) && (x, y) in r
    ensures y in Hop(r, s, d + 1)
  {
  }

  /** Finding an unvisited successor of the head of the queue keeps the invariant. */
  lemma BfsDiscover(r: Relation, seeds: set<nat>, dist: map<nat, nat>, queue: seq<(nat, nat)>, limit: nat, w: nat)
    requires BfsInv(r, seeds, dist, queue, limit)
    requires |queue| > 0 && queue[0].1 < limit
    requires (queue[0].0, w) in r && w !in dist
    ensures BfsInv(r, seeds, dist[w := queue[0].1 + 1], queue + [(w, queue[0].1 + 1)], limit)
  {
    hide Explored, Hop;
    var h := queue[0].1;
    var dist' := dist[w := h + 1];
    var queue' := queue + [(w, h + 1)];
    DiscoveredDistance(r, seeds, dist, queue, limit, w);
    forall v | v in dist' && dist'[v] < limit && (v, dist'[v]) !in queue'
      ensures Explored(r, dist', v)
    {
      assert queue'[|queue|] == (w, h + 1);
      assert v in dist && (v, dist[v]) !in queue;
      ExploredKept(r, dist, w, h + 1, v);
    }
  }

  /** A newly found node lies one hop behind the head of the queue, and no nearer. */
  lemma DiscoveredDistance(r: Relation, seeds: set<nat>, dist: map<nat, nat>, queue: seq<(nat, nat)>, limit: nat, w: nat)
    requires BfsInv(r, seeds, dist, queue, limit)
    requires |queue| > 0 && queue[0].1 < limit
    requires (queue[0].0, w) in r && w !in dist
    ensures w in Hop(r, seeds, queue[0].1 + 1)
    ensures forall j: nat :: j < queue[0].1 + 1 ==> w !in Hop(r, seeds, j)
  {
    hide Explored, Hop;
    var h := queue[0].1;
    HopStep(r, seeds, h, queue[0].0, w);
    forall j: nat | j < h + 1 ensures w !in Hop(r, seeds, j) {
      if w in Hop(r, seeds, j) {
        BfsCovered(r, seeds, dist, queue, limit, h, j, w);
      }
    }
  }

  lemma ExploredKept(r: Relation, dist: map<nat, nat>, w: nat, d: nat, v: nat)
    requires w !in dist && v in dist && Explored(r, dist, v)
    ensures Explored(r, dist[w := d], v)
  {
  }

  /** Once all successors of the head have been visited, the head may be dropped. */
  lemma BfsPop(r: Relation, seeds: set<nat>, dist: map<nat, nat>, queue: seq<(nat, nat)>, limit: nat)
    requires BfsInv(r, seeds, dist, queue, limit)
    requires |queue| > 0
    requires queue[0].1 < limit ==> Image(r, {queue[0].0}) <= dist.Keys
    ensures BfsInv(r, seeds, dist, queue[1..], limit)
  {
    var rest := queue[1..];
    var x := queue[0].0;
    forall v | v in dist && dist[v] < limit && (v, dist[v]) !in rest
      ensures Explored(r, dist, v)
    {
      if v == x {
        forall e | e in r && e.0 == v ensures e.1 in dist && dist[e.1] <= dist[v] + 1 {
          assert e.1 in Image(r, {x});
        }
      } else {
        assert (v, dist[v]) !in queue;
      }
    }
  }

  /** The members not visited before, in order, each listed once. */
  function Unseen(ns: seq<nat>, visited: set<nat>): seq<nat> {
    if ns == [] then []
    else if ns[0] in visited then Unseen(ns[1..], visited)
    else [ns[0]] + Unseen(ns[1..], visited + {ns[0]})
  }

  /** Queue entries for newly found nodes, all at one depth. */
  function Tag(ns: seq<nat>, d: nat): seq<(nat, nat)> {
    if ns == [] then [] else [(ns[0], d)] + Tag(ns[1..], d)
  }

  /** One step of a scan that collects the unvisited members. */
  lemma UnseenNext(ns: seq<nat>, i: nat, visited: set<nat>, added: seq<nat>)
    requires i < |ns|
    ensures added + Unseen(ns[i..], visited) ==
            if ns[i] in visited then added + Unseen(ns[i + 1..], visited)
            else (added + [ns[i]]) + Unseen(ns[i + 1..], visited + {ns[i]})
    ensures Elements(ns[i..]) == {ns[i]} + Elements(ns[i + 1..])
  {
  }

  lemma NothingLeft(ns: seq<nat>, visited: set<nat>, added: seq<nat>)
    ensures added + Unseen(ns[|ns|..], visited) == added
    ensures visited + Elements(ns[|ns|..]) == visited
  {
  }

  lemma {:induction false} UnseenElements(ns: seq<nat>, visited: set<nat>)
    ensures Elements(Unseen(ns, visited)) == Elements(ns) - visited
    ensures Distinct(Unseen(ns, visited))
  {
    if ns == [] {
    } else {
      assert Elements(ns) == {ns[0]} + Elements(ns[1..]);
      if ns[0] in visited {
        UnseenElements(ns[1..], visited);
      } else {
        var rest := Unseen(ns[1..], visited + {ns[0]});
        UnseenElements(ns[1..], visited + {ns[0]});
        assert Elements([ns[0]] + rest) == {ns[0]} + Elements(rest);
        assert ns[0] !in Elements(rest);
      }
    }
  }

  lemma UnseenEmpty(ns: seq<nat>, visited: set<nat>)
    ensures Elements(ns) <= visited ==> Unseen(ns, visited) == []
  {
  }

  lemma {:induction false} TagMember(ns: seq<nat>, d: nat)
    ensures |Tag(ns, d)| == |ns| && forall i :: 0 <= i < |ns| ==> Tag(ns, d)[i] == (ns[i], d)
  {
    if ns == [] {
    } else {
      TagMember(ns[1..], d);
    }
  }

  /** If expanding the head finds nothing new, the queue shrinks. */
  lemma NoProgress(queue: seq<(nat, nat)>, ns: seq<nat>, visited: set<nat>, d: nat)
    requires |queue| > 0
    ensures Elements(ns) <= visited ==> |queue[1..] + Tag(Unseen(ns, visited), d)| < |queue|
  {
  }

  lemma {:induction false} TagSnoc(ns: seq<nat>, x: nat, d: nat)
    ensures Tag(ns + [x], d) == Tag(ns, d) + [(x, d)]
  {
    TagMember(ns, d);
    TagMember(ns + [x], d);
  }

  lemma UnseenStep(ns: seq<nat>, visited: set<nat>, d: nat)
    ensures ns == [] ==> Tag(Unseen(ns, visited), d) == []
    ensures ns != [] ==>
              var rest := if ns[0] in visited then visited else visited + {ns[0]};
              Tag(Unseen(ns, visited), d) == (if ns[0] in visited then [] else [(ns[0], d)]) + Tag(Unseen(ns[1..], rest), d)
  {
    if ns != [] && ns[0] !in visited {
      var found := Unseen(ns[1..], visited + {ns[0]});
      assert ([ns[0]] + found)[1..] == found;
    }
  }

  /** Finding all unvisited successors of the head of the queue, in any order, keeps the invariant. */
  lemma {:induction false} BfsDiscoverAll(
    r: Relation, seeds: set<nat>, dist: map<nat, nat>, queue: seq<(nat, nat)>, limit: nat, ns: seq<nat>)
    returns (dist': map<nat, nat>)
    requires BfsInv(r, seeds, dist, queue, limit)
    requires |queue| > 0 && queue[0].1 < limit
    requires forall n :: n in ns ==> (queue[0].0, n) in r
    ensures BfsInv(r, seeds, dist', queue + Tag(Unseen(ns, dist.Keys), queue[0].1 + 1), limit)
    ensures dist'.Keys == dist.Keys + Elements(ns)
    ensures forall v :: v in dist ==> dist'[v] == dist[v]
    ensures forall v :: v in dist' && v !in dist ==> dist'[v] == queue[0].1 + 1
    decreases |ns|
  {
    hide BfsInv, Unseen, Tag;
    UnseenStep(ns, dist.Keys, queue[0].1 + 1);
    if ns == [] {
      dist' := dist;
      assert queue + [] == queue;
    } else {
      var h := queue[0].1 + 1;
      var w := ns[0];
      assert Elements(ns) == {w} + Elements(ns[1..]);
      if w in dist {
        assert [] + Tag(Unseen(ns[1..], dist.Keys), h) == Tag(Unseen(ns[1..], dist.Keys), h);
        dist' := BfsDiscoverAll(r, seeds, dist, queue, limit, ns[1..]);
      } else {
        BfsDiscover(r, seeds, dist, queue, limit, w);
        dist' := BfsDiscoverAll(r, seeds, dist[w := h], queue + [(w, h)], limit, ns[1..]);
        var rest := Tag(Unseen(ns[1..], dist.Keys + {w}), h);
        assert dist[w := h].Keys == dist.Keys + {w};
        assert queue + [(w, h)] + rest == queue + ([(w, h)] + rest);
      }
    }
  }
}
