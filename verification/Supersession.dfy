/**
 Supersession chains (crates/unimatrix-engine/src/graph.rs): the two depth-capped
 depth-first searches, the breadth-first chain depth, and the penalty they feed.

 The readers accept any graph and any entry list. Where an answer is exact only
 on a forest of Supersedes edges, the contract says so; `BuiltForest` supplies
 the forest for every graph that construction accepts.
 */
module Supersession {
  import opened Prelude
  import opened Reals
  import opened Hops
  import opened RelationGraph

  const MAX_TRAVERSAL_DEPTH: nat := 10
  const HOP_DECAY_CLAMP_FLOOR: real := 0.10

  /** An active entry that nothing supersedes. */
  predicate Terminal(entries: seq<Entry>, id: nat) {
    var e := EntryById(id, entries);
    e.Some? && e.value.status == Active && e.value.supersededBy.None?
  }

  // ----- what the searches are for, on the entry table -----

  /** An entry with this id is active and has not been superseded. */
  ghost predicate IsActiveEnd(entries: seq<Entry>, x: nat) {
    exists e :: e in entries && e.id == x && e.status == Active && e.supersededBy == None
  }

  /** A chain of ids of the table in which each entry is superseded by the next. */
  ghost predicate ReplacementChain(entries: seq<Entry>, c: seq<nat>) {
    |c| >= 1 && c[0] in Ids(entries) && forall i :: 0 <= i < |c| - 1 ==> PointsTo(entries, c[i + 1], c[i])
  }

  /** `t` replaces `start` at the end of a chain of `d` replacements. */
  ghost predicate ReplacedBy(entries: seq<Entry>, start: nat, t: nat, d: nat) {
    exists c :: ReplacementChain(entries, c) && |c| == d + 1 && c[0] == start && c[d] == t
  }

  /** A chain of `d` replacements leads from `start` to an active, unsuperseded entry. */
  ghost predicate ReplacedAfter(entries: seq<Entry>, start: nat, d: nat) {
    exists t :: IsActiveEnd(entries, t) && ReplacedBy(entries, start, t, d)
  }

  /** The shortest such chain of at least one and at most `limit` replacements has length `d`. */
  ghost predicate NearestReplacement(entries: seq<Entry>, start: nat, limit: nat, d: nat) {
    1 <= d <= limit && ReplacedAfter(entries, start, d) && forall j: nat :: 1 <= j < d ==> !ReplacedAfter(entries, start, j)
  }

  /** Some chain of at least one and at most `limit` replacements leads to an active, unsuperseded entry. */
  ghost predicate ReplacedWithin(entries: seq<Entry>, start: nat, limit: nat) {
    exists d: nat :: 1 <= d <= limit && ReplacedAfter(entries, start, d)
  }

  /** `depth` is the length of the shortest such chain, or absent if there is none. */
  ghost predicate ShortestReplacement(entries: seq<Entry>, start: nat, limit: nat, depth: Option<nat>) {
    match depth
    case None => !ReplacedWithin(entries, start, limit)
    case Some(d) => NearestReplacement(entries, start, limit, d)
  }

  lemma TerminalIff(entries: seq<Entry>, x: nat)
    requires UniqueIds(entries)
    ensures Terminal(entries, x) <==> IsActiveEnd(entries, x)
  {
    if IsActiveEnd(entries, x) {
      var e :| e in entries && e.id == x && e.status == Active && e.supersededBy == None;
      EntryByIdUnique(entries, e);
    }
  }

  function Backwards(c: seq<nat>): seq<nat> {
    seq(|c|, i requires 0 <= i < |c| => c[|c| - 1 - i])
  }

  lemma BackwardsChain(entries: seq<Entry>, c: seq<nat>)
    ensures ReplacementChain(entries, c) ==> PointerPath(entries, Backwards(c))
    ensures PointerPath(entries, c) && c[|c| - 1] in Ids(entries) ==> ReplacementChain(entries, Backwards(c))
  {
    hide PointsTo, Ids;
    var b, n := Backwards(c), |c| - 1;
    if ReplacementChain(entries, c) {
      forall i | 0 <= i < |b| - 1 ensures PointsTo(entries, b[i], b[i + 1]) {
        assert PointsTo(entries, c[n - 1 - i + 1], c[n - 1 - i]);
      }
    }
    if PointerPath(entries, c) && c[n] in Ids(entries) {
      forall i | 0 <= i < |b| - 1 ensures PointsTo(entries, b[i + 1], b[i]) {
        assert PointsTo(entries, c[n - 1 - i], c[n - 1 - i + 1]);
      }
    }
  }

  /** A chain of replacements is the pointers followed back. */
  lemma ReplacedByIff(entries: seq<Entry>, start: nat, t: nat, d: nat)
    requires UniqueIds(entries)
    ensures ReplacedBy(entries, start, t, d) <==> Follow(entries, t, d) == Some(start) && start in Ids(entries)
  {
    hide Follow, PointsTo, Ids, PointerPath, ReplacementChain;
    if c :| ReplacementChain(entries, c) && |c| == d + 1 && c[0] == start && c[d] == t {
      BackwardsChain(entries, c);
      ChainStart(entries, c);
      PathToFollow(entries, Backwards(c));
    }
    if Follow(entries, t, d) == Some(start) && start in Ids(entries) {
      var p := FollowToPath(entries, t, d);
      BackwardsChain(entries, p);
      var c := Backwards(p);
      assert ReplacementChain(entries, c) && |c| == d + 1 && c[0] == start && c[d] == t;
    }
  }

  lemma ChainStart(entries: seq<Entry>, c: seq<nat>)
    requires ReplacementChain(entries, c)
    ensures |c| >= 1 && c[0] in Ids(entries)
  {
  }

  lemma ReplacedAfterIff(entries: seq<Entry>, start: nat, d: nat)
    requires UniqueIds(entries)
    ensures ReplacedAfter(entries, start, d) <==> exists t :: Terminal(entries, t) && Follow(entries, t, d) == Some(start)
  {
    hide ReplacedBy, Terminal, IsActiveEnd, Follow;
    forall t ensures IsActiveEnd(entries, t) && ReplacedBy(entries, start, t, d) <==> Terminal(entries, t) && Follow(entries, t, d) == Some(start) {
      TerminalIff(entries, t);
      ReplacedByIff(entries, start, t, d);
      if Terminal(entries, t) && Follow(entries, t, d) == Some(start) {
        FollowEnds(entries, t, d);
      }
    }
  }

  lemma FollowEnds(entries: seq<Entry>, t: nat, d: nat)
    requires UniqueIds(entries) && Terminal(entries, t) && Follow(entries, t, d).Some?
    ensures Follow(entries, t, d).value in Ids(entries)
  {
    var c := FollowToPath(entries, t, d);
  }

  /** On a built graph the chain depth is the length of the shortest replacement chain. */
  lemma DepthOnTable(g: TypedGraph, entries: seq<Entry>, start: nat, limit: nat)
    requires Built(g, entries)
    ensures forall d: nat :: NearestTerminal(RelationOf(g, Supersedes), entries, start, 1, limit) == Some(d)
                             <==> NearestReplacement(entries, start, limit, d)
    ensures NearestTerminal(RelationOf(g, Supersedes), entries, start, 1, limit).None?
            <==> forall d: nat :: 1 <= d <= limit ==> !ReplacedAfter(entries, start, d)
  {
    hide NearestTerminal, RelationOf, ReplacedAfter, TerminalAt, PointerCycle, UniqueIds;
    var rows :| g == GraphOf(entries, rows);
    var r := RelationOf(g, Supersedes);
    forall d: nat | 1 <= d ensures TerminalAt(r, entries, start, d) <==> ReplacedAfter(entries, start, d) {
      TerminalAtOnTable(entries, rows, start, d);
    }
    NearestTerminalIsLeast(r, entries, start, 1, limit);
  }

  lemma DepthIsShortest(g: TypedGraph, entries: seq<Entry>, start: nat, limit: nat)
    ensures Built(g, entries) ==>
              ShortestReplacement(entries, start, limit, NearestTerminal(RelationOf(g, Supersedes), entries, start, 1, limit))
  {
    hide Built, NearestTerminal, NearestReplacement, ReplacedAfter, RelationOf;
    if Built(g, entries) {
      DepthOnTable(g, entries, start, limit);
    }
  }

  lemma ReachableIsReplaced(g: TypedGraph, entries: seq<Entry>, start: nat, limit: nat)
    ensures Built(g, entries) ==>
              && Forest(RelationOf(g, Supersedes))
              && (NearestTerminal(RelationOf(g, Supersedes), entries, start, 1, limit).Some? <==> ReplacedWithin(entries, start, limit))
  {
    hide Built, NearestTerminal, NearestReplacement, ReplacedAfter, RelationOf, Forest;
    if Built(g, entries) {
      DepthOnTable(g, entries, start, limit);
      BuiltIsForest(g, entries);
    }
  }

  lemma TerminalAtOnTable(entries: seq<Entry>, rows: seq<EdgeRow>, start: nat, d: nat)
    requires UniqueIds(entries) && !PointerCycle(entries) && d >= 1
    ensures TerminalAt(RelationOf(GraphOf(entries, rows), Supersedes), entries, start, d) <==> ReplacedAfter(entries, start, d)
  {
    hide Terminal, ReplacedAfter, RelationOf, Follow, PointerCycle;
    var r := RelationOf(GraphOf(entries, rows), Supersedes);
    BuiltForest(entries, rows);
    ReplacedAfterIff(entries, start, d);
    forall t ensures t in Hop(r, {start}, d) <==> Follow(entries, t, d) == Some(start) {
      HopIsFollow(entries, rows, start, t, d);
    }
    assert start !in Hop(r, {start}, d);
  }

  // ----- what the searches are for, on the graph -----

  /** Some other terminal entry lies exactly `k` hops from `start`. */
  ghost predicate TerminalAt(r: Relation, entries: seq<Entry>, start: nat, k: nat) {
    exists t :: t in Hop(r, {start}, k) && t != start && Terminal(entries, t)
  }

  /** The least depth in `from..limit` at which a terminal lies. */
  ghost function NearestTerminal(r: Relation, entries: seq<Entry>, start: nat, from: nat, limit: nat): Option<nat>
    decreases limit + 1 - from
  {
    if from > limit then None
    else if TerminalAt(r, entries, start, from) then Some(from)
    else NearestTerminal(r, entries, start, from + 1, limit)
  }

  lemma {:induction false} NearestTerminalNone(r: Relation, entries: seq<Entry>, start: nat, from: nat, limit: nat)
    ensures NearestTerminal(r, entries, start, from, limit).None?
            <==> forall j: nat :: from <= j <= limit ==> !TerminalAt(r, entries, start, j)
    decreases limit + 1 - from
  {
    hide TerminalAt;
    if from <= limit && !TerminalAt(r, entries, start, from) {
      NearestTerminalNone(r, entries, start, from + 1, limit);
    }
  }

  lemma {:induction false} NearestTerminalSome(r: Relation, entries: seq<Entry>, start: nat, from: nat, limit: nat)
    requires NearestTerminal(r, entries, start, from, limit).Some?
    ensures var d := NearestTerminal(r, entries, start, from, limit).value;
            && from <= d <= limit && TerminalAt(r, entries, start, d)
            && forall j: nat :: from <= j < d ==> !TerminalAt(r, entries, start, j)
    decreases limit + 1 - from
  {
    hide TerminalAt;
    if from <= limit && !TerminalAt(r, entries, start, from) {
      NearestTerminalSome(r, entries, start, from + 1, limit);
    }
  }

  lemma NearestTerminalIsLeast(r: Relation, entries: seq<Entry>, start: nat, from: nat, limit: nat)
    ensures var n := NearestTerminal(r, entries, start, from, limit);
            && (forall d: nat :: n == Some(d) <==>
                 && from <= d <= limit && TerminalAt(r, entries, start, d)
                 && forall j: nat :: from <= j < d ==> !TerminalAt(r, entries, start, j))
            && (n.None? <==> forall j: nat :: from <= j <= limit ==> !TerminalAt(r, entries, start, j))
  {
    hide TerminalAt, NearestTerminal;
    NearestTerminalNone(r, entries, start, from, limit);
    if NearestTerminal(r, entries, start, from, limit).Some? {
      NearestTerminalSome(r, entries, start, from, limit);
    }
  }

  // ----- breadth-first chain depth -----

  /** Exact on every graph: the shortest hop count to another terminal, up to the horizon. */
  method BfsChainDepth(start: nat, g: TypedGraph, entries: seq<Entry>, maxDepth: nat) returns (depth: Option<nat>)
    requires g.Valid()
    ensures depth == NearestTerminal(RelationOf(g, Supersedes), entries, start, 1, maxDepth + 1)
    ensures Built(g, entries) ==> ShortestReplacement(entries, start, maxDepth + 1, depth)
  {
    hide BfsInv, Terminal, Hop, RelationOf, NearestTerminal, Targets, Tag, Unseen, TypedGraph.EdgesOfType, Built, ShortestReplacement;
    DepthIsShortest(g, entries, start, maxDepth + 1);
    ghost var r := RelationOf(g, Supersedes);
    ghost var limit := maxDepth + 1;
    var queue: seq<(nat, nat)> := [(start, 0)];
    var visited := {start};
    ghost var dist: map<nat, nat> := map[start := 0];
    NearestTerminalIsLeast(r, entries, start, 1, limit);
    assert queue[0] == (start, 0);
    BfsInit(r, {start}, dist, queue, limit);

    while queue != []
      invariant visited == dist.Keys && visited <= g.nodes + {start}
      invariant BfsInv(r, {start}, dist, queue, limit)
      invariant forall v :: v in dist && v != start ==> !Terminal(entries, v)
      decreases g.nodes + {start} - visited, |queue|
    {
      var current, d := queue[0].0, queue[0].1;
      if d > maxDepth {
        BfsPop(r, {start}, dist, queue, limit);
        queue := queue[1..];
        continue;
      }
      var edges := g.EdgesOfType(current, Supersedes, Outgoing);
      TargetsInGraph(g, current, Supersedes);
      var hit, seen, rest := VisitSuccessors(edges, entries, visited, queue[1..], d);
      if hit {
        ghost var t :| t in Targets(edges) && t !in visited && Terminal(entries, t);
        TerminalFound(r, entries, start, dist, queue, limit, t);
        return Some(d + 1);
      }
      dist := AllExpanded(g, start, dist, queue, limit, edges);
      NoProgress(queue, Targets(edges), visited, d + 1);
      visited, queue := seen, rest;
    }
    forall j: nat | 1 <= j <= limit ensures !TerminalAt(r, entries, start, j) {
      forall t | t in Hop(r, {start}, j) ensures t == start || !Terminal(entries, t) {
        BfsCovered(r, {start}, dist, queue, limit, limit, j, t);
      }
    }
    return None;
  }

  /** The inner loop: marks and enqueues the unvisited successors, stopping at a terminal. */
  method VisitSuccessors(edges: seq<Edge>, entries: seq<Entry>, visited: set<nat>, queue: seq<(nat, nat)>, d: nat)
    returns (hit: bool, visited': set<nat>, queue': seq<(nat, nat)>)
    ensures hit ==> exists t :: t in Targets(edges) && t !in visited && Terminal(entries, t)
    ensures !hit ==> visited' == visited + Elements(Targets(edges))
    ensures !hit ==> queue' == queue + Tag(Unseen(Targets(edges), visited), d + 1)
    ensures !hit ==> forall v :: v in visited' && v !in visited ==> !Terminal(entries, v)
  {
    hide Terminal, Tag, Unseen, Elements;
    ghost var targets := Targets(edges);
    ghost var added: seq<nat> := [];
    visited', queue' := visited, queue;
    TagMember(added, d + 1);
    assert targets[0..] == targets;
    for i := 0 to |edges|
      invariant visited <= visited'
      invariant visited' + Elements(targets[i..]) == visited + Elements(targets)
      invariant added + Unseen(targets[i..], visited') == Unseen(targets, visited)
      invariant queue' == queue + Tag(added, d + 1)
      invariant forall v :: v in visited' && v !in visited ==> !Terminal(entries, v)
    {
      var neighbour := edges[i].target;
      assert targets[i] == neighbour;
      UnseenNext(targets, i, visited', added);
      if neighbour in visited' {
        continue;
      }
      visited' := visited' + {neighbour};
      if Terminal(entries, neighbour) {
        return true, visited', queue';
      }
      TagSnoc(added, neighbour, d + 1);
      AppendAssociative(queue, Tag(added, d + 1), [(neighbour, d + 1)]);
      added := added + [neighbour];
      queue' := queue' + [(neighbour, d + 1)];
    }
    NothingLeft(targets, visited', added);
    hit := false;
  }

  /** One full turn of the search loop: the head is expanded and dropped. */
  lemma AllExpanded(
    g: TypedGraph, start: nat, dist: map<nat, nat>, queue: seq<(nat, nat)>, limit: nat, edges: seq<Edge>)
    returns (dist': map<nat, nat>)
    requires g.Valid()
    requires BfsInv(RelationOf(g, Supersedes), {start}, dist, queue, limit)
    requires |queue| > 0 && queue[0].1 < limit && edges == g.EdgesOfType(queue[0].0, Supersedes, Outgoing)
    ensures BfsInv(RelationOf(g, Supersedes), {start}, dist',
                   queue[1..] + Tag(Unseen(Targets(edges), dist.Keys), queue[0].1 + 1), limit)
    ensures dist'.Keys == dist.Keys + Elements(Targets(edges))
  {
    hide BfsInv;
    var r, targets := RelationOf(g, Supersedes), Targets(edges);
    var found := Tag(Unseen(targets, dist.Keys), queue[0].1 + 1);
    TargetsInGraph(g, queue[0].0, Supersedes);
    dist' := BfsDiscoverAll(r, {start}, dist, queue, limit, targets);
    BfsPop(r, {start}, dist', queue + found, limit);
    assert (queue + found)[1..] == queue[1..] + found;
  }

  /** The first terminal a breadth-first search meets is a nearest one. */
  lemma TerminalFound(
    r: Relation, entries: seq<Entry>, start: nat, dist: map<nat, nat>, queue: seq<(nat, nat)>, limit: nat, found: nat)
    requires BfsInv(r, {start}, dist, queue, limit)
    requires |queue| > 0 && queue[0].1 < limit && (queue[0].0, found) in r
    requires found != start && Terminal(entries, found)
    requires forall v :: v in dist && v != start ==> !Terminal(entries, v)
    ensures NearestTerminal(r, entries, start, 1, limit) == Some(queue[0].1 + 1)
  {
    var h := queue[0].1;
    NearestTerminalIsLeast(r, entries, start, 1, limit);
    assert found in Hop(r, {start}, h + 1) by {
      assert queue[0].0 in Hop(r, {start}, h);
    }
    assert TerminalAt(r, entries, start, h + 1);
    forall j: nat | 1 <= j < h + 1 ensures !TerminalAt(r, entries, start, j) {
      forall t | t in Hop(r, {start}, j) ensures t == start || !Terminal(entries, t) {
        BfsCovered(r, {start}, dist, queue, limit, h, j, t);
      }
    }
  }

  // ----- depth-first reachability, visited when popped -----

  ghost predicate OnStack(stack: seq<(nat, nat)>, v: nat) {
    exists i :: 0 <= i < |stack| && stack[i].0 == v
  }

  lemma OnStackExtend(a: seq<(nat, nat)>, b: seq<(nat, nat)>)
    requires a <= b
    ensures forall v :: OnStack(a, v) ==> OnStack(b, v)
  {
  }

  /** `v` has been searched: its successors are not terminal and are known to the search. */
  ghost predicate Searched(r: Relation, entries: seq<Entry>, visited: set<nat>, stack: seq<(nat, nat)>, v: nat) {
    forall e :: e in r && e.0 == v ==> !Terminal(entries, e.1) && (e.1 in visited || OnStack(stack, e.1))
  }

  ghost predicate DfsInv(
    r: Relation, entries: seq<Entry>, start: nat, visited: set<nat>, stack: seq<(nat, nat)>, maxDepth: nat)
  {
    && (forall i :: 0 <= i < |stack| ==> stack[i].0 in Hop(r, {start}, stack[i].1))
    && (start in visited || OnStack(stack, start))
    && (Forest(r) ==> forall v, k: nat {:trigger Hop(r, {start}, k), v in visited} ::
          v in visited && k <= maxDepth && v in Hop(r, {start}, k) ==> Searched(r, entries, visited, stack, v))
  }

  /** What the search knows about is not forgotten when the top moves from the stack to `visited`. */
  lemma SearchedKept(
    r: Relation, entries: seq<Entry>, visited: set<nat>, stack: seq<(nat, nat)>, visited': set<nat>, stack': seq<(nat, nat)>, v: nat)
    requires Searched(r, entries, visited, stack, v)
    requires forall x :: x in visited || OnStack(stack, x) ==> x in visited' || OnStack(stack', x)
    ensures Searched(r, entries, visited', stack', v)
  {
  }

  lemma PopKnown(stack: seq<(nat, nat)>, x: nat)
    requires |stack| > 0 && OnStack(stack, x)
    ensures OnStack(stack[..|stack| - 1], x) || x == stack[|stack| - 1].0
  {
  }

  lemma DfsInit(r: Relation, entries: seq<Entry>, start: nat, maxDepth: nat)
    ensures DfsInv(r, entries, start, {}, [(start, 0)], maxDepth)
  {
    var stack: seq<(nat, nat)> := [(start, 0)];
    assert stack[0].0 == start;
  }

  lemma DfsSkip(r: Relation, entries: seq<Entry>, start: nat, visited: set<nat>, stack: seq<(nat, nat)>, maxDepth: nat)
    requires DfsInv(r, entries, start, visited, stack, maxDepth)
    requires |stack| > 0 && stack[|stack| - 1].0 in visited
    ensures DfsInv(r, entries, start, visited, stack[..|stack| - 1], maxDepth)
  {
  }

  /** A node popped beyond the horizon has no path within it, so nothing is owed to its successors. */
  lemma DfsBeyond(r: Relation, entries: seq<Entry>, start: nat, visited: set<nat>, stack: seq<(nat, nat)>, maxDepth: nat)
    requires DfsInv(r, entries, start, visited, stack, maxDepth)
    requires |stack| > 0 && stack[|stack| - 1].1 > maxDepth
    ensures DfsInv(r, entries, start, visited + {stack[|stack| - 1].0}, stack[..|stack| - 1], maxDepth)
  {
    var rest, top := stack[..|stack| - 1], stack[|stack| - 1];
    var visited' := visited + {top.0};
    forall x | OnStack(stack, x) ensures x in visited' || OnStack(rest, x) {
      PopKnown(stack, x);
    }
    forall v, k: nat | Forest(r) && v in visited' && k <= maxDepth && v in Hop(r, {start}, k)
      ensures Searched(r, entries, visited', rest, v)
    {
      if v == top.0 {
        ForestDepthUnique(r, start, v, top.1, k);
      }
      SearchedKept(r, entries, visited, stack, visited', rest, v);
    }
  }

  lemma ExpandedTop(
    r: Relation, entries: seq<Entry>, visited: set<nat>, rest: seq<(nat, nat)>, ns: seq<nat>, top: (nat, nat))
    requires Elements(ns) == Image(r, {top.0})
    requires forall i :: 0 <= i < |ns| ==> !Terminal(entries, ns[i])
    ensures Searched(r, entries, visited, rest + Tag(ns, top.1 + 1), top.0)
  {
    hide Terminal;
    var stack := rest + Tag(ns, top.1 + 1);
    TagMember(ns, top.1 + 1);
    forall e | e in r && e.0 == top.0 ensures !Terminal(entries, e.1) && OnStack(stack, e.1) {
      assert e.1 in Elements(ns);
      var i :| 0 <= i < |ns| && ns[i] == e.1;
      assert stack[|rest| + i].0 == e.1;
    }
  }

  lemma PushedHops(r: Relation, start: nat, stack: seq<(nat, nat)>, ns: seq<nat>)
    requires forall i :: 0 <= i < |stack| ==> stack[i].0 in Hop(r, {start}, stack[i].1)
    requires |stack| > 0 && Elements(ns) == Image(r, {stack[|stack| - 1].0})
    ensures var stack' := stack[..|stack| - 1] + Tag(ns, stack[|stack| - 1].1 + 1);
            forall i :: 0 <= i < |stack'| ==> stack'[i].0 in Hop(r, {start}, stack'[i].1)
  {
    var rest, top := stack[..|stack| - 1], stack[|stack| - 1];
    var stack' := rest + Tag(ns, top.1 + 1);
    TagMember(ns, top.1 + 1);
    assert Elements(ns) <= Hop(r, {start}, top.1 + 1) by {
      assert top.0 in Hop(r, {start}, top.1);
    }
    forall i | 0 <= i < |stack'| ensures stack'[i].0 in Hop(r, {start}, stack'[i].1) {
      if i < |rest| {
        assert stack'[i] == stack[i];
      } else {
        assert stack'[i].0 in Elements(ns);
      }
    }
  }

  lemma DfsExpand(
    r: Relation, entries: seq<Entry>, start: nat, visited: set<nat>, stack: seq<(nat, nat)>, maxDepth: nat, ns: seq<nat>)
    requires DfsInv(r, entries, start, visited, stack, maxDepth)
    requires |stack| > 0 && Elements(ns) == Image(r, {stack[|stack| - 1].0})
    requires forall i :: 0 <= i < |ns| ==> !Terminal(entries, ns[i])
    ensures DfsInv(r, entries, start, visited + {stack[|stack| - 1].0},
                   stack[..|stack| - 1] + Tag(ns, stack[|stack| - 1].1 + 1), maxDepth)
  {
    hide Searched, Terminal, OnStack, Forest, Hop, Tag;
    var rest, top := stack[..|stack| - 1], stack[|stack| - 1];
    var visited', stack' := visited + {top.0}, rest + Tag(ns, top.1 + 1);
    OnStackExtend(rest, stack');
    forall x | OnStack(stack, x) ensures x in visited' || OnStack(stack', x) {
      PopKnown(stack, x);
    }
    PushedHops(r, start, stack, ns);
    ExpandedTop(r, entries, visited', rest, ns, top);
    forall v, k: nat | Forest(r) && v in visited' && k <= maxDepth && v in Hop(r, {start}, k)
      ensures Searched(r, entries, visited', stack', v)
    {
      if v != top.0 {
        SearchedKept(r, entries, visited, stack, visited', stack', v);
      }
    }
  }

  lemma DfsFound(
    r: Relation, entries: seq<Entry>, start: nat, visited: set<nat>, stack: seq<(nat, nat)>, maxDepth: nat, t: nat)
    requires DfsInv(r, entries, start, visited, stack, maxDepth)
    requires |stack| > 0 && stack[|stack| - 1].1 <= maxDepth
    requires (stack[|stack| - 1].0, t) in r && Terminal(entries, t)
    ensures var k := stack[|stack| - 1].1 + 1;
            && t in Hop(r, {start}, k)
            && (Forest(r) ==> TerminalAt(r, entries, start, k))
  {
  }

  lemma {:induction false} DfsExhausted(
    r: Relation, entries: seq<Entry>, start: nat, visited: set<nat>, maxDepth: nat, k: nat, x: nat)
    requires DfsInv(r, entries, start, visited, [], maxDepth)
    requires Forest(r) && k <= maxDepth + 1 && x in Hop(r, {start}, k)
    ensures x in visited && (k >= 1 ==> !Terminal(entries, x))
    decreases k
  {
    if k > 0 {
      var e :| e in r && e.0 in Hop(r, {start}, k - 1) && e.1 == x;
      DfsExhausted(r, entries, start, visited, maxDepth, k - 1, e.0);
      assert Searched(r, entries, visited, [], e.0);
    }
  }

  /**
   Always sound. On a forest it is exact as well: a node popped beyond the
   horizon has no shorter path, so cutting there loses nothing.
   */
  method DfsActiveReachable(start: nat, g: TypedGraph, entries: seq<Entry>, maxDepth: nat) returns (reachable: bool)
    requires g.Valid()
    ensures reachable ==> exists k: nat, t :: 1 <= k <= maxDepth + 1 && t in Hop(RelationOf(g, Supersedes), {start}, k) && Terminal(entries, t)
    ensures Forest(RelationOf(g, Supersedes)) ==>
              (reachable <==> NearestTerminal(RelationOf(g, Supersedes), entries, start, 1, maxDepth + 1).Some?)
    ensures Built(g, entries) ==>
              (reachable <==> ReplacedWithin(entries, start, maxDepth + 1))
  {
    hide DfsInv, Hop, RelationOf, NearestTerminal, TypedGraph.EdgesOfType, Tag, Elements, Forest, Built, ReplacedWithin;
    ReachableIsReplaced(g, entries, start, maxDepth + 1);
    ghost var r := RelationOf(g, Supersedes);
    var stack: seq<(nat, nat)> := [(start, 0)];
    var visited: set<nat> := {};
    NearestTerminalIsLeast(r, entries, start, 1, maxDepth + 1);
    DfsInit(r, entries, start, maxDepth);

    while stack != []
      invariant visited <= g.nodes + {start}
      invariant forall i :: 0 <= i < |stack| ==> stack[i].0 in g.nodes + {start}
      invariant DfsInv(r, entries, start, visited, stack, maxDepth)
      decreases g.nodes + {start} - visited, |stack|
    {
      var top := |stack| - 1;
      var current, d := stack[top].0, stack[top].1;
      if current in visited {
        DfsSkip(r, entries, start, visited, stack, maxDepth);
        stack := stack[..top];
        continue;
      }
      if d > maxDepth {
        DfsBeyond(r, entries, start, visited, stack, maxDepth);
        visited := visited + {current};
        stack := stack[..top];
        continue;
      }
      var edges := g.EdgesOfType(current, Supersedes, Outgoing);
      TargetsInGraph(g, current, Supersedes);
      var pushed := stack[..top];
      TagMember(Targets(edges)[..0], d + 1);
      for i := 0 to |edges|
        invariant pushed == stack[..top] + Tag(Targets(edges)[..i], d + 1)
        invariant forall j :: 0 <= j < i ==> !Terminal(entries, edges[j].target)
      {
        var neighbour := edges[i].target;
        if Terminal(entries, neighbour) {
          assert Targets(edges)[i] == neighbour;
          DfsFound(r, entries, start, visited, stack, maxDepth, neighbour);
          return true;
        }
        TagSnoc(Targets(edges)[..i], neighbour, d + 1);
        assert Targets(edges)[..i + 1] == Targets(edges)[..i] + [neighbour];
        pushed := pushed + [(neighbour, d + 1)];
      }
      assert Targets(edges)[..|edges|] == Targets(edges);
      TagMember(Targets(edges), d + 1);
      DfsExpand(r, entries, start, visited, stack, maxDepth, Targets(edges));
      visited := visited + {current};
      stack := pushed;
    }
    if Forest(r) {
      forall j: nat | 1 <= j <= maxDepth + 1 ensures !TerminalAt(r, entries, start, j) {
        forall t | t in Hop(r, {start}, j) ensures !Terminal(entries, t) {
          DfsExhausted(r, entries, start, visited, maxDepth, j, t);
        }
      }
    }
    return false;
  }

  // ----- terminal search, visited when pushed -----

  /** Pushes the unvisited targets of `edges` at one depth. */
  function PushUnvisited(stack: seq<(nat, nat)>, visited: set<nat>, edges: seq<Edge>, d: nat): (seq<(nat, nat)>, set<nat>) {
    (stack + Tag(Unseen(Targets(edges), visited), d), visited + Elements(Targets(edges)))
  }

  /** The search as a function of the graph: pop, test, push the unvisited successors. */
  function TerminalSearch(g: TypedGraph, entries: seq<Entry>, stack: seq<(nat, nat)>, visited: set<nat>): Option<nat>
    requires g.Valid()
    decreases g.nodes - visited, |stack|
  {
    if stack == [] then None
    else
      var (current, d) := stack[|stack| - 1];
      var rest := stack[..|stack| - 1];
      if Terminal(entries, current) then Some(current)
      else if d + 1 > MAX_TRAVERSAL_DEPTH then TerminalSearch(g, entries, rest, visited)
      else
        var edges := g.EdgesOfType(current, Supersedes, Outgoing);
        var (stack', visited') := PushUnvisited(rest, visited, edges, d + 1);
        PushProgress(g, visited, current);
        TerminalSearch(g, entries, stack', visited')
  }

  lemma PushProgress(g: TypedGraph, visited: set<nat>, id: nat)
    requires g.Valid()
    ensures var ts := Targets(g.EdgesOfType(id, Supersedes, Outgoing));
            && (forall t :: t in ts ==> t in g.nodes)
            && (Elements(ts) <= visited ==> Unseen(ts, visited) == [] && forall d: nat :: Tag(Unseen(ts, visited), d) == [])
  {
    TargetsInGraph(g, id, Supersedes);
    UnseenEmpty(Targets(g.EdgesOfType(id, Supersedes, Outgoing)), visited);
  }

  ghost predicate SearchInv(
    r: Relation, entries: seq<Entry>, start: nat, stack: seq<(nat, nat)>, visited: set<nat>)
  {
    && start in visited
    && (forall i :: 0 <= i < |stack| ==>
          && stack[i].0 in visited && stack[i].1 <= MAX_TRAVERSAL_DEPTH
          && stack[i].0 in Hop(r, {start}, stack[i].1))
    && (Forest(r) ==> forall v, k: nat {:trigger Hop(r, {start}, k), v in visited} ::
          v in visited && v in Hop(r, {start}, k) ==> OnStack(stack, v) || Passed(r, entries, visited, v, k))
  }

  /** `v`, found at depth `k`, is not terminal and (inside the horizon) its successors have been found. */
  ghost predicate Passed(r: Relation, entries: seq<Entry>, visited: set<nat>, v: nat, k: nat) {
    && !Terminal(entries, v)
    && (k < MAX_TRAVERSAL_DEPTH ==> Image(r, {v}) <= visited)
  }

  lemma {:induction false} SearchExhausted(r: Relation, entries: seq<Entry>, start: nat, visited: set<nat>, k: nat, x: nat)
    requires Forest(r) && SearchInv(r, entries, start, [], visited)
    requires k <= MAX_TRAVERSAL_DEPTH && x in Hop(r, {start}, k)
    ensures x in visited && !Terminal(entries, x)
    decreases k
  {
    if k > 0 {
      var e :| e in r && e.0 in Hop(r, {start}, k - 1) && e.1 == x;
      SearchExhausted(r, entries, start, visited, k - 1, e.0);
      assert Passed(r, entries, visited, e.0, k - 1);
      assert x in Image(r, {e.0});
    }
    assert x in visited;
    assert Passed(r, entries, visited, x, k);
  }

  /** Dropping the top of the stack, with its unvisited successors pushed or its depth at the horizon. */
  lemma SearchStep(r: Relation, entries: seq<Entry>, start: nat, stack: seq<(nat, nat)>, visited: set<nat>, ns: seq<nat>)
    requires SearchInv(r, entries, start, stack, visited)
    requires |stack| > 0 && !Terminal(entries, stack[|stack| - 1].0)
    requires if stack[|stack| - 1].1 < MAX_TRAVERSAL_DEPTH
             then Elements(ns) == Image(r, {stack[|stack| - 1].0}) else ns == []
    ensures SearchInv(r, entries, start, stack[..|stack| - 1] + Tag(Unseen(ns, visited), stack[|stack| - 1].1 + 1), visited + Elements(ns))
  {
    hide Terminal, Forest, OnStack, Hop;
    var rest, top := stack[..|stack| - 1], stack[|stack| - 1];
    var stack', visited' := rest + Tag(Unseen(ns, visited), top.1 + 1), visited + Elements(ns);
    UnseenElements(ns, visited);
    TagMember(Unseen(ns, visited), top.1 + 1);
    forall i | 0 <= i < |stack'|
      ensures && stack'[i].0 in visited' && stack'[i].1 <= MAX_TRAVERSAL_DEPTH && stack'[i].0 in Hop(r, {start}, stack'[i].1)
    {
      if i < |rest| {
        assert stack'[i] == stack[i];
      } else {
        assert stack'[i].0 in Elements(Unseen(ns, visited));
        StepHop(r, start, top, stack'[i].0);
      }
    }
    forall v, k: nat | Forest(r) && v in visited' && v in Hop(r, {start}, k)
      ensures OnStack(stack', v) || Passed(r, entries, visited', v, k)
    {
      SearchStepNode(r, entries, start, stack, visited, ns, v, k);
    }
  }

  lemma StepHop(r: Relation, start: nat, top: (nat, nat), x: nat)
    requires top.0 in Hop(r, {start}, top.1) && x in Image(r, {top.0})
    ensures x in Hop(r, {start}, top.1 + 1)
  {
  }

  lemma SearchStepNode(
    r: Relation, entries: seq<Entry>, start: nat, stack: seq<(nat, nat)>, visited: set<nat>, ns: seq<nat>, v: nat, k: nat)
    requires SearchInv(r, entries, start, stack, visited) && Forest(r)
    requires |stack| > 0 && !Terminal(entries, stack[|stack| - 1].0)
    requires if stack[|stack| - 1].1 < MAX_TRAVERSAL_DEPTH
             then Elements(ns) == Image(r, {stack[|stack| - 1].0}) else ns == []
    requires v in visited + Elements(ns) && v in Hop(r, {start}, k)
    ensures OnStack(stack[..|stack| - 1] + Tag(Unseen(ns, visited), stack[|stack| - 1].1 + 1), v)
            || Passed(r, entries, visited + Elements(ns), v, k)
  {
    hide Forest, Terminal, Hop, Unseen, Tag;
    var rest, top := stack[..|stack| - 1], stack[|stack| - 1];
    var unseen := Unseen(ns, visited);
    var stack' := rest + Tag(unseen, top.1 + 1);
    if v !in visited {
      UnseenElements(ns, visited);
      TagMember(unseen, top.1 + 1);
      assert v in Elements(unseen);
      var i :| 0 <= i < |unseen| && unseen[i] == v;
      assert stack'[|rest| + i].0 == v;
    } else if v == top.0 {
      ForestDepthUnique(r, start, v, top.1, k);
    } else if OnStack(stack, v) {
      PopKnown(stack, v);
      OnStackExtend(rest, stack');
    }
  }

  /** What the search returns: a terminal inside the horizon, and on a forest `None` only if there is none. */
  lemma {:induction false} TerminalSearchExact(g: TypedGraph, entries: seq<Entry>, start: nat, stack: seq<(nat, nat)>, visited: set<nat>)
    requires g.Valid() && SearchInv(RelationOf(g, Supersedes), entries, start, stack, visited)
    ensures var found := TerminalSearch(g, entries, stack, visited);
            && (found.Some? ==>
                 && Terminal(entries, found.value)
                 && exists k: nat :: k <= MAX_TRAVERSAL_DEPTH && found.value in Hop(RelationOf(g, Supersedes), {start}, k))
            && (found.None? && Forest(RelationOf(g, Supersedes)) ==>
                 forall k: nat, t :: k <= MAX_TRAVERSAL_DEPTH && t in Hop(RelationOf(g, Supersedes), {start}, k) ==> !Terminal(entries, t))
    decreases g.nodes - visited, |stack|
  {
    hide SearchInv;
    var r := RelationOf(g, Supersedes);
    if stack == [] {
      forall k: nat, t | Forest(r) && k <= MAX_TRAVERSAL_DEPTH && t in Hop(r, {start}, k) ensures !Terminal(entries, t) {
        SearchExhausted(r, entries, start, visited, k, t);
      }
    } else {
      var top := stack[|stack| - 1];
      var rest := stack[..|stack| - 1];
      SearchTop(r, entries, start, stack, visited);
      if Terminal(entries, top.0) {
      } else if top.1 + 1 > MAX_TRAVERSAL_DEPTH {
        SearchStep(r, entries, start, stack, visited, []);
        assert rest + Tag(Unseen([], visited), top.1 + 1) == rest;
        assert visited + Elements<nat>([]) == visited;
        assert TerminalSearch(g, entries, stack, visited) == TerminalSearch(g, entries, rest, visited);
        TerminalSearchExact(g, entries, start, rest, visited);
      } else {
        var edges := g.EdgesOfType(top.0, Supersedes, Outgoing);
        TargetsInGraph(g, top.0, Supersedes);
        PushProgress(g, visited, top.0);
        SearchStep(r, entries, start, stack, visited, Targets(edges));
        var (stack', visited') := PushUnvisited(rest, visited, edges, top.1 + 1);
        TerminalSearchExact(g, entries, start, stack', visited');
      }
    }
  }

  lemma SearchTop(r: Relation, entries: seq<Entry>, start: nat, stack: seq<(nat, nat)>, visited: set<nat>)
    requires SearchInv(r, entries, start, stack, visited) && |stack| > 0
    ensures var top := stack[|stack| - 1];
            top.1 <= MAX_TRAVERSAL_DEPTH && top.0 in Hop(r, {start}, top.1)
  {
  }

  /** The first terminal a depth-first search meets, the start included. */
  method FindTerminalActive(id: nat, g: TypedGraph, entries: seq<Entry>) returns (found: Option<nat>)
    requires g.Valid()
    ensures found == if id in g.nodes then TerminalSearch(g, entries, [(id, 0)], {id}) else None
    ensures found.Some? ==>
              && Terminal(entries, found.value)
              && exists k: nat :: k <= MAX_TRAVERSAL_DEPTH && found.value in Hop(RelationOf(g, Supersedes), {id}, k)
    ensures found.None? && id in g.nodes && Forest(RelationOf(g, Supersedes)) ==>
              forall k: nat, t :: k <= MAX_TRAVERSAL_DEPTH && t in Hop(RelationOf(g, Supersedes), {id}, k) ==> !Terminal(entries, t)
    ensures found.Some? ==> exists e :: e in entries && e.id == found.value && e.status == Active && e.supersededBy == None
    ensures Built(g, entries) && found.Some? ==> exists k: nat :: k <= 10 && ReplacedBy(entries, id, found.value, k)
    ensures Built(g, entries) && found.None? ==> forall k: nat :: k <= 10 ==> !ReplacedAfter(entries, id, k)
  {
    hide Terminal, Hop, RelationOf, Targets, Tag, Unseen, TypedGraph.EdgesOfType, Forest, Built, ReplacedBy, ReplacedAfter;
    forall t | Terminal(entries, t) ensures exists e :: e in entries && e.id == t && e.status == Active && e.supersededBy == None {
      TerminalEntry(entries, t);
    }
    if Built(g, entries) {
      SearchOnTable(g, entries, id);
    }
    if id !in g.nodes {
      return None;
    }
    SearchStart(RelationOf(g, Supersedes), entries, id);
    TerminalSearchExact(g, entries, id, [(id, 0)], {id});
    var stack: seq<(nat, nat)> := [(id, 0)];
    var visited := {id};
    while stack != []
      invariant TerminalSearch(g, entries, stack, visited) == TerminalSearch(g, entries, [(id, 0)], {id})
      decreases g.nodes - visited, |stack|
    {
      var top := |stack| - 1;
      var current, d := stack[top].0, stack[top].1;
      if Terminal(entries, current) {
        return Some(current);
      }
      if d + 1 > MAX_TRAVERSAL_DEPTH {
        stack := stack[..top];
        continue;
      }
      var edges := g.EdgesOfType(current, Supersedes, Outgoing);
      PushProgress(g, visited, current);
      stack, visited := PushNeighbours(stack[..top], visited, edges, d + 1);
    }
    return None;
  }

  lemma TerminalEntry(entries: seq<Entry>, t: nat)
    requires Terminal(entries, t)
    ensures exists e :: e in entries && e.id == t && e.status == Active && e.supersededBy == None
  {
    var e := EntryById(t, entries).value;
    assert e in entries && e.id == t && e.status == Active && e.supersededBy == None;
  }

  lemma BuiltIsForest(g: TypedGraph, entries: seq<Entry>)
    requires Built(g, entries)
    ensures Forest(RelationOf(g, Supersedes)) && g.nodes == Ids(entries)
  {
    hide RelationOf, Forest, PointerCycle;
    var rows :| g == GraphOf(entries, rows);
    BuiltForest(entries, rows);
  }

  /** What the searches see of a built graph is the table. */
  lemma SearchOnTable(g: TypedGraph, entries: seq<Entry>, id: nat)
    requires Built(g, entries)
    ensures Forest(RelationOf(g, Supersedes)) && g.nodes == Ids(entries)
    ensures id in g.nodes ==>
              forall k: nat, t :: t in Hop(RelationOf(g, Supersedes), {id}, k) <==> ReplacedBy(entries, id, t, k)
    ensures forall k: nat :: ReplacedAfter(entries, id, k) ==> id in g.nodes
    ensures forall k: nat :: ReplacedAfter(entries, id, k) ==>
              exists t :: Terminal(entries, t) && ReplacedBy(entries, id, t, k)
  {
    hide RelationOf, Forest, PointerCycle, Terminal, Hop, Follow, ReplacedBy, IsActiveEnd;
    BuiltIsForest(g, entries);
    var rows :| g == GraphOf(entries, rows);
    forall k: nat, t ensures (id in Ids(entries) && t in Hop(RelationOf(g, Supersedes), {id}, k)) <==> ReplacedBy(entries, id, t, k) {
      HopIsFollow(entries, rows, id, t, k);
      ReplacedByIff(entries, id, t, k);
    }
    forall t ensures Terminal(entries, t) <==> IsActiveEnd(entries, t) {
      TerminalIff(entries, t);
    }
  }

  lemma SearchStart(r: Relation, entries: seq<Entry>, id: nat)
    ensures SearchInv(r, entries, id, [(id, 0)], {id})
  {
    var stack: seq<(nat, nat)> := [(id, 0)];
    assert stack[0].0 == id;
  }

  method PushNeighbours(stack: seq<(nat, nat)>, visited: set<nat>, edges: seq<Edge>, d: nat)
    returns (stack': seq<(nat, nat)>, visited': set<nat>)
    ensures (stack', visited') == PushUnvisited(stack, visited, edges, d)
  {
    hide Tag, Unseen, Elements;
    ghost var targets := Targets(edges);
    ghost var added: seq<nat> := [];
    stack', visited' := stack, visited;
    TagMember(added, d);
    assert targets[0..] == targets;
    for i := 0 to |edges|
      invariant visited' + Elements(targets[i..]) == visited + Elements(targets)
      invariant added + Unseen(targets[i..], visited') == Unseen(targets, visited)
      invariant stack' == stack + Tag(added, d)
    {
      var neighbour := edges[i].target;
      assert targets[i] == neighbour;
      UnseenNext(targets, i, visited', added);
      if neighbour !in visited' {
        TagSnoc(added, neighbour, d);
        AppendAssociative(stack, Tag(added, d), [(neighbour, d)]);
        added := added + [neighbour];
        visited' := visited' + {neighbour};
        stack' := stack' + [(neighbour, d)];
      }
    }
    NothingLeft(targets, visited', added);
  }

  // ----- the penalty -----

  datatype PenaltyParams = PenaltyParams(
    orphan: real, cleanReplacement: real, hopDecay: real, partialSupersession: real,
    deadEnd: real, fallback: real, maxTraversalDepth: nat)

  /** The clean-replacement penalty decayed once per hop beyond the first. */
  function Decayed(p: PenaltyParams, d: nat): real
    requires d >= 1
  {
    Times(p.cleanReplacement, Power(p.hopDecay, d - 1))
  }

  /** `f64::clamp`, which panics unless `lo <= hi`. */
  function Clamp(x: real, lo: real, hi: real): real
    requires lo <= hi
  {
    if x < lo then lo else if x > hi then hi else x
  }

  /** The penalty of an entry whose nearest active replacement is `d` hops away. */
  function HopPenalty(p: PenaltyParams, d: nat): real
    requires d >= 1
  {
    if d == 1 then p.cleanReplacement
    else if p.cleanReplacement <= HOP_DECAY_CLAMP_FLOOR then p.cleanReplacement
    else Clamp(Decayed(p, d), HOP_DECAY_CLAMP_FLOOR, p.cleanReplacement)
  }

  function SuccessorCount(g: TypedGraph, id: nat): nat {
    |g.EdgesOfType(id, Supersedes, Outgoing)|
  }

  /** The penalty by what is true of the graph, with no traversal and no fallback case. */
  ghost function Penalty(id: nat, g: TypedGraph, entries: seq<Entry>, p: PenaltyParams): real {
    var e := EntryById(id, entries);
    if id !in g.nodes || e.None? then 1.0
    else if e.value.status == Deprecated && SuccessorCount(g, id) == 0 then p.orphan
    else
      match NearestTerminal(RelationOf(g, Supersedes), entries, id, 1, p.maxTraversalDepth + 1)
      case None => p.deadEnd
      case Some(d) =>
        if SuccessorCount(g, id) > 1 then p.partialSupersession
        else
          NearestTerminalIsLeast(RelationOf(g, Supersedes), entries, id, 1, p.maxTraversalDepth + 1);
          HopPenalty(p, d)
  }

  /**
   The priority cascade. On a forest it is exactly `Penalty`, so the last,
   defensive case never fires: a reachable terminal always has a chain depth.
   */
  method GraphPenaltyWith(id: nat, g: TypedGraph, entries: seq<Entry>, p: PenaltyParams) returns (penalty: real)
    requires g.Valid()
    ensures Forest(RelationOf(g, Supersedes)) ==> penalty == Penalty(id, g, entries, p)
    ensures Built(g, entries) ==> PenaltyOfTable(entries, id, p, penalty)
  {
    hide Decayed, Built, PenaltyOfTable;
    if Built(g, entries) {
      BuiltIsForest(g, entries);
      PenaltyOnTable(id, g, entries, p);
    }
    if id !in g.nodes {
      return 1.0;
    }
    var entry := EntryById(id, entries);
    if entry.None? {
      return 1.0;
    }
    var successors := |g.EdgesOfType(id, Supersedes, Outgoing)|;
    if entry.value.status == Deprecated && successors == 0 {
      return p.orphan;
    }
    var reachable := DfsActiveReachable(id, g, entries, p.maxTraversalDepth);
    if !reachable {
      return p.deadEnd;
    }
    if successors > 1 {
      return p.partialSupersession;
    }
    var depth := BfsChainDepth(id, g, entries, p.maxTraversalDepth);
    if depth == Some(1) {
      return p.cleanReplacement;
    }
    if depth.Some? && depth.value >= 2 {
      assert Forest(RelationOf(g, Supersedes)) ==> Penalty(id, g, entries, p) == HopPenalty(p, depth.value);
      var raw := Decayed(p, depth.value);
      var ceiling := p.cleanReplacement;
      if ceiling <= HOP_DECAY_CLAMP_FLOOR {
        return ceiling;
      }
      return Clamp(raw, HOP_DECAY_CLAMP_FLOOR, ceiling);
    }
    NearestTerminalIsLeast(RelationOf(g, Supersedes), entries, id, 1, p.maxTraversalDepth + 1);
    assert !Forest(RelationOf(g, Supersedes));
    return p.deadEnd;
  }

  /**
   The penalty an entry deserves, read off the table: 1 for an unknown entry, the orphan
   penalty for a deprecated entry that nothing supersedes, the dead-end penalty without an
   active replacement in range, the partial penalty for several direct replacements, and
   otherwise the clean-replacement penalty decayed by every hop after the first, between
   the floor of 0.10 and the clean-replacement penalty itself.
   */
  ghost predicate PenaltyOfTable(entries: seq<Entry>, id: nat, p: PenaltyParams, penalty: real) {
    var known := exists e :: e in entries && e.id == id;
    var deprecated := exists e :: e in entries && e.id == id && e.status == Deprecated;
    var direct := |set i: nat | i < |entries| && entries[i].supersedes == Some(id)|;
    var limit := p.maxTraversalDepth + 1;
    var replaced := ReplacedWithin(entries, id, limit);
    && (!known ==> penalty == 1.0)
    && (known && deprecated && direct == 0 ==> penalty == p.orphan)
    && (known && !(deprecated && direct == 0) && !replaced ==> penalty == p.deadEnd)
    && (known && !(deprecated && direct == 0) && replaced && direct > 1 ==> penalty == p.partialSupersession)
    && (known && !(deprecated && direct == 0) && direct <= 1 ==>
          forall d: nat :: NearestReplacement(entries, id, limit, d) ==>
            penalty ==
            if d == 1 || p.cleanReplacement <= 0.1 then p.cleanReplacement
            else
              var raw := Times(p.cleanReplacement, Power(p.hopDecay, d - 1));
              if raw < 0.1 then 0.1 else if raw > p.cleanReplacement then p.cleanReplacement else raw)
  }

  lemma PenaltyOnTable(id: nat, g: TypedGraph, entries: seq<Entry>, p: PenaltyParams)
    requires Built(g, entries)
    ensures PenaltyOfTable(entries, id, p, Penalty(id, g, entries, p))
  {
    hide NearestTerminal, NearestReplacement, ReplacedAfter, SuccessorCount, HopPenalty, PointerCycle;
    var limit := p.maxTraversalDepth + 1;
    DepthOnTable(g, entries, id, limit);
    BuiltIsForest(g, entries);
    EntryOfTable(entries, id);
    if id in Ids(entries) {
      DirectReplacements(g, entries, id);
    }
    forall d: nat | d >= 1
      ensures HopPenalty(p, d) ==
              if d == 1 || p.cleanReplacement <= 0.1 then p.cleanReplacement
              else
                var raw := Times(p.cleanReplacement, Power(p.hopDecay, d - 1));
                if raw < 0.1 then 0.1 else if raw > p.cleanReplacement then p.cleanReplacement else raw
    {
      HopPenaltyValue(p, d);
    }
    forall d: nat | NearestReplacement(entries, id, limit, d) ensures 1 <= d <= limit && ReplacedAfter(entries, id, d) {
      NearestIsReplacement(entries, id, limit, d);
    }
  }

  lemma EntryOfTable(entries: seq<Entry>, id: nat)
    requires UniqueIds(entries)
    ensures EntryById(id, entries).Some? <==> exists e :: e in entries && e.id == id
    ensures EntryById(id, entries).Some? ==>
              (EntryById(id, entries).value.status == Deprecated <==> exists e :: e in entries && e.id == id && e.status == Deprecated)
  {
    forall e | e in entries && e.id == id ensures EntryById(id, entries) == Some(e) {
      EntryByIdUnique(entries, e);
    }
  }

  lemma DirectReplacements(g: TypedGraph, entries: seq<Entry>, id: nat)
    requires Built(g, entries) && id in Ids(entries)
    ensures SuccessorCount(g, id) == |set i: nat | i < |entries| && entries[i].supersedes == Some(id)|
  {
    hide PointerCycle, GraphOf, TypedGraph.EdgesOfType;
    var rows :| g == GraphOf(entries, rows);
    SuccessorsAreReplacements(entries, rows, id);
  }

  lemma HopPenaltyValue(p: PenaltyParams, d: nat)
    requires d >= 1
    ensures HopPenalty(p, d) ==
            if d == 1 || p.cleanReplacement <= 0.1 then p.cleanReplacement
            else
              var raw := Times(p.cleanReplacement, Power(p.hopDecay, d - 1));
              if raw < 0.1 then 0.1 else if raw > p.cleanReplacement then p.cleanReplacement else raw
  {
  }

  lemma NearestIsReplacement(entries: seq<Entry>, id: nat, limit: nat, d: nat)
    requires NearestReplacement(entries, id, limit, d)
    ensures 1 <= d <= limit && ReplacedAfter(entries, id, d)
  {
  }

  /** The multiplier never grows with the chain, and stays between the floor and the ceiling. */
  lemma HopPenaltyDecays(p: PenaltyParams, d: nat, e: nat)
    requires p.cleanReplacement >= 0.0 && 0.0 <= p.hopDecay <= 1.0
    requires 1 <= d <= e
    ensures HopPenalty(p, e) <= HopPenalty(p, d) <= p.cleanReplacement
    ensures HopPenalty(p, e) >= if p.cleanReplacement <= HOP_DECAY_CLAMP_FLOOR then p.cleanReplacement else HOP_DECAY_CLAMP_FLOOR
  {
    assert Decayed(p, e) <= Decayed(p, d) <= p.cleanReplacement by {
      PowerDecay(p.hopDecay, d - 1, e - 1);
      ScaleMonotone(p.cleanReplacement, Power(p.hopDecay, e - 1), Power(p.hopDecay, d - 1));
      ScaleMonotone(p.cleanReplacement, Power(p.hopDecay, d - 1), 1.0);
    }
  }

  /** One more hop multiplies the penalty by the decay factor, down to the floor. */
  lemma HopPenaltyPerHop(p: PenaltyParams, d: nat)
    requires p.cleanReplacement > HOP_DECAY_CLAMP_FLOOR && 0.0 <= p.hopDecay <= 1.0 && d >= 1
    ensures HopPenalty(p, 1) == p.cleanReplacement
    ensures var next := Times(p.hopDecay, HopPenalty(p, d));
            HopPenalty(p, d + 1) == if next < HOP_DECAY_CLAMP_FLOOR then HOP_DECAY_CLAMP_FLOOR else next
  {
    var c, h := p.cleanReplacement, p.hopDecay;
    assert Decayed(p, d + 1) == Times(h, Decayed(p, d)) by {
      hide Times;
      Regroup(c, h, Power(h, d - 1));
    }
    FirstHop(p);
    DecayedBounds(p, d);
    hide Decayed, Times;
    Shrink(h, Decayed(p, d));
    Shrink(h, HOP_DECAY_CLAMP_FLOOR);
    Shrink(h, c);
  }

  lemma FirstHop(p: PenaltyParams)
    ensures Decayed(p, 1) == p.cleanReplacement
  {
    assert Power(p.hopDecay, 0) == 1.0;
  }

  lemma DecayedBounds(p: PenaltyParams, d: nat)
    requires p.cleanReplacement >= 0.0 && 0.0 <= p.hopDecay <= 1.0 && d >= 1
    ensures 0.0 <= Decayed(p, d) <= p.cleanReplacement
  {
    PowerNonNegative(p.hopDecay, d - 1);
    PowerDecay(p.hopDecay, 0, d - 1);
    ProductNonNegative(p.cleanReplacement, Power(p.hopDecay, d - 1));
    ScaleMonotone(p.cleanReplacement, Power(p.hopDecay, d - 1), 1.0);
  }

  /** Among singly-replaced entries the penalty is non-increasing in the distance to the active replacement. */
  lemma PenaltyMonotone(a: nat, b: nat, g: TypedGraph, entries: seq<Entry>, p: PenaltyParams)
    requires p.cleanReplacement >= 0.0 && 0.0 <= p.hopDecay <= 1.0
    requires {a, b} <= g.nodes * Ids(entries) && SuccessorCount(g, a) == 1 && SuccessorCount(g, b) == 1
    requires var r, limit := RelationOf(g, Supersedes), p.maxTraversalDepth + 1;
             && NearestTerminal(r, entries, a, 1, limit).Some?
             && NearestTerminal(r, entries, b, 1, limit).Some?
             && NearestTerminal(r, entries, a, 1, limit).value <= NearestTerminal(r, entries, b, 1, limit).value
    ensures Penalty(b, g, entries, p) <= Penalty(a, g, entries, p) <= p.cleanReplacement
    ensures Penalty(b, g, entries, p) >= if p.cleanReplacement <= HOP_DECAY_CLAMP_FLOOR then p.cleanReplacement else HOP_DECAY_CLAMP_FLOOR
  {
    hide NearestTerminal, HopPenalty, RelationOf, SuccessorCount, EntryById, TerminalAt;
    var r, limit := RelationOf(g, Supersedes), p.maxTraversalDepth + 1;
    NearestTerminalIsLeast(r, entries, a, 1, limit);
    NearestTerminalIsLeast(r, entries, b, 1, limit);
    HopPenaltyDecays(p, NearestTerminal(r, entries, a, 1, limit).value, NearestTerminal(r, entries, b, 1, limit).value);
  }

  // ----- graphs that construction accepts -----

  /** On a built graph the chain depth is the least number of replacements that lead to an active, unsuperseded entry. */
  lemma ChainDepthOnTable(entries: seq<Entry>, rows: seq<EdgeRow>, start: nat, limit: nat, d: nat)
    requires UniqueIds(entries) && !PointerCycle(entries)
    ensures NearestTerminal(RelationOf(GraphOf(entries, rows), Supersedes), entries, start, 1, limit) == Some(d)
            <==> NearestReplacement(entries, start, limit, d)
  {
    hide NearestTerminal, RelationOf, NearestReplacement, PointerCycle, UniqueIds;
    DepthOnTable(GraphOf(entries, rows), entries, start, limit);
  }

  // ----- the horizon -----

  /** A table in which each of the entries 1 to `n` replaces the one before it, and only the last is active. */
  function Chain(n: nat): seq<Entry> {
    seq(n + 1, i requires 0 <= i < n + 1 => Entry(
      i, if i == n then Active else Deprecated, if i == 0 then None else Some(i - 1), if i == n then None else Some(i + 1)))
  }

  lemma ChainEntry(n: nat, id: nat)
    ensures UniqueIds(Chain(n))
    ensures EntryById(id, Chain(n)) == if id <= n then Some(Chain(n)[id]) else None
    ensures Terminal(Chain(n), id) <==> id == n
    ensures Parent(Chain(n), id) == if 1 <= id <= n then Some(id - 1) else None
  {
    var entries := Chain(n);
    if id <= n {
      assert entries[id] in entries;
      EntryByIdUnique(entries, entries[id]);
      if id > 0 {
        assert entries[id - 1] in entries;
      }
    }
  }

  lemma {:induction false} ChainFollow(n: nat, id: nat, d: nat)
    requires id <= n
    ensures Follow(Chain(n), id, d) == if d <= id then Some(id - d) else None
    decreases d
  {
    hide Chain, Parent;
    if d > 0 {
      ChainEntry(n, id);
      if id > 0 {
        ChainFollow(n, id - 1, d - 1);
      }
    }
  }

  lemma ChainHasNoCycle(n: nat)
    ensures UniqueIds(Chain(n)) && !PointerCycle(Chain(n))
  {
    ChainEntry(n, 0);
    forall id: nat, d: nat | d >= 1 && id in Ids(Chain(n)) ensures Follow(Chain(n), id, d) != Some(id) {
      ChainFollow(n, id, d);
    }
  }

  lemma ChainReplaced(n: nat, j: nat)
    ensures ReplacedAfter(Chain(n), 0, j) <==> j == n
  {
    hide Chain, Follow, Terminal, ReplacedAfter, UniqueIds;
    ChainEntry(n, n);
    ChainFollow(n, n, j);
    ReplacedAfterIff(Chain(n), 0, j);
    forall t: nat | Terminal(Chain(n), t) ensures t == n {
      ChainEntry(n, t);
    }
  }

  /** Whatever the cap, there is a table whose one terminal is found one hop beyond it. */
  lemma DepthPastCap(cap: nat)
    ensures UniqueIds(Chain(cap + 1)) && !PointerCycle(Chain(cap + 1))
    ensures NearestTerminal(RelationOf(GraphOf(Chain(cap + 1), []), Supersedes), Chain(cap + 1), 0, 1, cap + 1) == Some(cap + 1)
  {
    hide Chain, ReplacedAfter, NearestTerminal, UniqueIds, PointerCycle, RelationOf;
    var entries := Chain(cap + 1);
    ChainHasNoCycle(cap + 1);
    forall j: nat ensures ReplacedAfter(entries, 0, j) <==> j == cap + 1 {
      ChainReplaced(cap + 1, j);
    }
    ChainDepthOnTable(entries, [], 0, cap + 1, cap + 1);
  }

  /** From an entry that is not itself terminal, the capped search succeeds exactly when the chain depth is within its cap. */
  lemma SearchMatchesDepth(entries: seq<Entry>, rows: seq<EdgeRow>, id: nat)
    requires UniqueIds(entries) && !PointerCycle(entries)
    requires id in Ids(entries) && !Terminal(entries, id)
    ensures TerminalSearch(GraphOf(entries, rows), entries, [(id, 0)], {id}).Some? <==>
            NearestTerminal(RelationOf(GraphOf(entries, rows), Supersedes), entries, id, 1, MAX_TRAVERSAL_DEPTH).Some?
  {
    hide RelationOf, TerminalSearch, Terminal, NearestTerminal, SearchInv;
    var g := GraphOf(entries, rows);
    var r := RelationOf(g, Supersedes);
    BuiltForest(entries, rows);
    SearchStart(r, entries, id);
    TerminalSearchExact(g, entries, id, [(id, 0)], {id});
    NearestTerminalIsLeast(r, entries, id, 1, MAX_TRAVERSAL_DEPTH);
    var found := TerminalSearch(g, entries, [(id, 0)], {id});
    if found.Some? {
      var k: nat :| k <= MAX_TRAVERSAL_DEPTH && found.value in Hop(r, {id}, k);
      assert k >= 1;
      assert TerminalAt(r, entries, id, k);
    }
  }
}
