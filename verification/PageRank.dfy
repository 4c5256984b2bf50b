/**
 Personalized PageRank (crates/unimatrix-engine/src/graph_ppr.rs): a fixed number
 of rounds in which every node pulls score from the targets of its positive edges.
 */
module PageRank {
  import opened Prelude
  import opened Reals
  import opened Sums
  import opened Hops
  import opened RelationGraph

  /** A score, reading absent entries as 0. */
  function Lookup(m: map<nat, real>, id: nat): real {
    if id in m then m[id] else 0.0
  }

  /** The positive outgoing edges, in the order the five queries visit them. */
  function PositiveEdges(g: TypedGraph, id: nat): seq<Edge> {
    g.EdgesOfType(id, Supports, Outgoing) + g.EdgesOfType(id, CoAccess, Outgoing)
    + g.EdgesOfType(id, Prerequisite, Outgoing) + g.EdgesOfType(id, Informs, Outgoing)
    + g.EdgesOfType(id, RelatedTo, Outgoing)
  }

  function WeightSum(edges: seq<Edge>): real {
    if edges == [] then 0.0 else WeightSum(edges[..|edges| - 1]) + edges[|edges| - 1].weight
  }

  /** What one target feeds back along an edge. */
  function Contribution(score: real, weight: real, outDegree: real): real
    requires outDegree > 0.0
  {
    if score == 0.0 then 0.0 else score * weight / outDegree
  }

  function Pull(edges: seq<Edge>, scores: map<nat, real>, outDegree: real): real
    requires outDegree > 0.0
  {
    if edges == [] then 0.0
    else
      var e := edges[|edges| - 1];
      Pull(edges[..|edges| - 1], scores, outDegree) + Contribution(Lookup(scores, e.target), e.weight, outDegree)
  }

  /** The average score of the targets, weighted by edge weight; 0 without positive weight. */
  function Neighbourhood(g: TypedGraph, scores: map<nat, real>, id: nat): real {
    var edges := PositiveEdges(g, id);
    if WeightSum(edges) > 0.0 then Pull(edges, scores, WeightSum(edges)) else 0.0
  }

  function NextScore(g: TypedGraph, seeds: map<nat, real>, alpha: real, scores: map<nat, real>, id: nat): real {
    Times(1.0 - alpha, Lookup(seeds, id)) + Times(alpha, Neighbourhood(g, scores, id))
  }

  /** The score map after `k` rounds. */
  function Scores(g: TypedGraph, seeds: map<nat, real>, alpha: real, k: nat): map<nat, real> {
    if k == 0 then map id | id in g.nodes :: Lookup(seeds, id)
    else
      var previous := Scores(g, seeds, alpha, k - 1);
      map id | id in g.nodes :: NextScore(g, seeds, alpha, previous, id)
  }

  function Ranks(g: TypedGraph, seeds: map<nat, real>, alpha: real, k: nat): map<nat, real> {
    if seeds == map[] || g.nodes == {} then map[] else Scores(g, seeds, alpha, k)
  }

  // ----- the weighted average -----

  ghost predicate NonNegativeWeights(edges: seq<Edge>) {
    forall e :: e in edges ==> e.weight >= 0.0
  }

  /** The parts of the total weight that the edges hold. */
  function ShareSum(edges: seq<Edge>, total: real): real
    requires total > 0.0
  {
    if edges == [] then 0.0 else ShareSum(edges[..|edges| - 1], total) + edges[|edges| - 1].weight / total
  }

  lemma ContributionIsShare(score: real, weight: real, total: real)
    requires total > 0.0
    ensures Contribution(score, weight, total) == Times(score, weight / total)
  {
  }

  lemma {:induction false} SharesScale(edges: seq<Edge>, total: real)
    requires total > 0.0
    ensures Times(ShareSum(edges, total), total) == WeightSum(edges)
  {
    if edges == [] {
    } else {
      var n := |edges| - 1;
      SharesScale(edges[..n], total);
      var share := edges[n].weight / total;
      assert share * total == edges[n].weight;
      Distribute(ShareSum(edges[..n], total), share, total);
    }
  }

  lemma SharesAreOne(edges: seq<Edge>)
    requires WeightSum(edges) > 0.0
    ensures ShareSum(edges, WeightSum(edges)) == 1.0
  {
    var total := WeightSum(edges);
    var shares := ShareSum(edges, total);
    SharesScale(edges, total);
    Cancel(shares, total);
  }

  lemma Cancel(x: real, total: real)
    requires total > 0.0 && Times(x, total) == total
    ensures x == 1.0
  {
  }

  lemma {:induction false} PullBounds(edges: seq<Edge>, scores: map<nat, real>, total: real, bound: real)
    requires total > 0.0 && NonNegativeWeights(edges)
    requires forall v :: 0.0 <= Lookup(scores, v) <= bound
    ensures 0.0 <= Pull(edges, scores, total) <= Times(bound, ShareSum(edges, total))
  {
    if edges == [] {
    } else {
      var n := |edges| - 1;
      var score, share := Lookup(scores, edges[n].target), edges[n].weight / total;
      PullBounds(edges[..n], scores, total, bound);
      ContributionIsShare(score, edges[n].weight, total);
      assert edges[n] in edges;
      ShareNonNegative(edges[n].weight, total);
      ProductBetween(score, bound, share);
      Distribute(ShareSum(edges[..n], total), share, bound);
    }
  }

  lemma ShareNonNegative(weight: real, total: real)
    requires weight >= 0.0 && total > 0.0
    ensures weight / total >= 0.0
    ensures weight > 0.0 ==> weight / total > 0.0
  {
  }

  /** A weighted average moves no more than the values it averages. */
  lemma {:induction false} PullClose(edges: seq<Edge>, a: map<nat, real>, b: map<nat, real>, total: real, gap: real)
    requires total > 0.0 && NonNegativeWeights(edges)
    requires forall v :: -gap <= Lookup(a, v) - Lookup(b, v) <= gap
    ensures -Times(gap, ShareSum(edges, total)) <= Pull(edges, a, total) - Pull(edges, b, total) <= Times(gap, ShareSum(edges, total))
  {
    if edges == [] {
    } else {
      var n := |edges| - 1;
      var x, y, share := Lookup(a, edges[n].target), Lookup(b, edges[n].target), edges[n].weight / total;
      PullClose(edges[..n], a, b, total, gap);
      ContributionIsShare(x, edges[n].weight, total);
      ContributionIsShare(y, edges[n].weight, total);
      assert edges[n] in edges;
      ShareNonNegative(edges[n].weight, total);
      DifferenceBetween(x, y, gap, share);
      Distribute(ShareSum(edges[..n], total), share, gap);
    }
  }

  lemma DifferenceBetween(x: real, y: real, gap: real, z: real)
    requires -gap <= x - y <= gap && 0.0 <= z
    ensures -Times(gap, z) <= Times(x, z) - Times(y, z) <= Times(gap, z)
  {
  }

  lemma {:induction false} PullLinear(
    edges: seq<Edge>, c: map<nat, real>, s: map<nat, real>, t: map<nat, real>, a: real, b: real, total: real)
    requires total > 0.0
    requires forall v :: Lookup(c, v) == Times(a, Lookup(s, v)) + Times(b, Lookup(t, v))
    ensures Pull(edges, c, total) == Times(a, Pull(edges, s, total)) + Times(b, Pull(edges, t, total))
  {
    if edges == [] {
    } else {
      var n := |edges| - 1;
      var x, y, share := Lookup(s, edges[n].target), Lookup(t, edges[n].target), edges[n].weight / total;
      PullLinear(edges[..n], c, s, t, a, b, total);
      ContributionIsShare(x, edges[n].weight, total);
      ContributionIsShare(y, edges[n].weight, total);
      ContributionIsShare(Times(a, x) + Times(b, y), edges[n].weight, total);
      Distribute(Times(a, x), Times(b, y), share);
      Regroup(a, x, share);
      Regroup(b, y, share);
      Distribute(Pull(edges[..n], s, total), Times(x, share), a);
      Distribute(Pull(edges[..n], t, total), Times(y, share), b);
    }
  }

  lemma {:induction false} PullPositive(edges: seq<Edge>, scores: map<nat, real>, total: real)
    requires total > 0.0
    requires forall e :: e in edges ==> e.weight > 0.0
    requires forall v :: 0.0 <= Lookup(scores, v)
    ensures Pull(edges, scores, total) >= 0.0
    ensures Pull(edges, scores, total) > 0.0 <==> exists e :: e in edges && Lookup(scores, e.target) > 0.0
  {
    if edges == [] {
    } else {
      var n := |edges| - 1;
      var last, rest := edges[n], edges[..n];
      PullPositive(rest, scores, total);
      ContributionIsShare(Lookup(scores, last.target), last.weight, total);
      assert edges == rest + [last];
      assert last in edges;
      ShareNonNegative(last.weight, total);
      PositiveProduct(Lookup(scores, last.target), last.weight / total);
    }
  }

  // ----- the rounds -----

  /** No edge that PageRank reads has a negative weight. */
  ghost predicate WeightsNonNegative(g: TypedGraph) {
    forall id, e :: e in PositiveEdges(g, id) ==> e.weight >= 0.0
  }

  ghost predicate WeightsPositive(g: TypedGraph) {
    forall id, e :: e in PositiveEdges(g, id) ==> e.weight > 0.0
  }

  lemma PositiveEdgesMember(g: TypedGraph, id: nat)
    ensures forall e :: e in PositiveEdges(g, id) ==> e in g.edges && e.source == id && (id, e.target) in Positive(g)
    ensures forall v :: v in Image(Positive(g), {id}) ==> exists e :: e in PositiveEdges(g, id) && e.target == v
  {
    hide TypedGraph.EdgesOfType;
    EdgesOfTypeMember(g, id, Supports, Outgoing);
    EdgesOfTypeMember(g, id, CoAccess, Outgoing);
    EdgesOfTypeMember(g, id, Prerequisite, Outgoing);
    EdgesOfTypeMember(g, id, Informs, Outgoing);
    EdgesOfTypeMember(g, id, RelatedTo, Outgoing);
    forall v | v in Image(Positive(g), {id}) ensures exists e :: e in PositiveEdges(g, id) && e.target == v {
      assert (id, v) in Positive(g);
      var e :| e in g.edges && e.source == id && e.target == v && e in PositiveEdges(g, id);
    }
  }

  /** A neighbourhood average of values in `[0, bound]` stays there. */
  lemma NeighbourhoodBounds(g: TypedGraph, scores: map<nat, real>, bound: real, id: nat)
    requires WeightsNonNegative(g) && bound >= 0.0
    requires forall v :: 0.0 <= Lookup(scores, v) <= bound
    ensures 0.0 <= Neighbourhood(g, scores, id) <= bound
  {
    var edges := PositiveEdges(g, id);
    if WeightSum(edges) > 0.0 {
      PullBounds(edges, scores, WeightSum(edges), bound);
      SharesAreOne(edges);
    }
  }

  lemma NeighbourhoodClose(g: TypedGraph, a: map<nat, real>, b: map<nat, real>, gap: real, id: nat)
    requires WeightsNonNegative(g) && gap >= 0.0
    requires forall v :: -gap <= Lookup(a, v) - Lookup(b, v) <= gap
    ensures -gap <= Neighbourhood(g, a, id) - Neighbourhood(g, b, id) <= gap
  {
    var edges := PositiveEdges(g, id);
    if WeightSum(edges) > 0.0 {
      PullClose(edges, a, b, WeightSum(edges), gap);
      SharesAreOne(edges);
    }
  }

  lemma ConvexBetween(alpha: real, x: real, y: real, bound: real)
    requires 0.0 <= alpha <= 1.0 && 0.0 <= x <= bound && 0.0 <= y <= bound
    ensures 0.0 <= Times(1.0 - alpha, x) + Times(alpha, y) <= bound
  {
    ProductBetween(x, bound, 1.0 - alpha);
    ProductBetween(y, bound, alpha);
    assert (1.0 - alpha) * bound + alpha * bound == bound;
  }

  /** A round spelled out for one node. */
  lemma ScoreStep(g: TypedGraph, seeds: map<nat, real>, alpha: real, k: nat, id: nat)
    ensures Lookup(Scores(g, seeds, alpha, 0), id) == if id in g.nodes then Lookup(seeds, id) else 0.0
    ensures Lookup(Scores(g, seeds, alpha, k + 1), id) ==
            if id in g.nodes
            then Times(1.0 - alpha, Lookup(seeds, id)) + Times(alpha, Neighbourhood(g, Scores(g, seeds, alpha, k), id))
            else 0.0
  {
  }

  /** Every score of every round lies between 0 and the largest seed. */
  lemma {:induction false} ScoresBounded(g: TypedGraph, seeds: map<nat, real>, alpha: real, k: nat, bound: real, id: nat)
    requires WeightsNonNegative(g) && 0.0 <= alpha <= 1.0 && bound >= 0.0
    requires forall v :: 0.0 <= Lookup(seeds, v) <= bound
    ensures 0.0 <= Lookup(Scores(g, seeds, alpha, k), id) <= bound
    decreases k
  {
    hide Scores, Times, Neighbourhood;
    if k == 0 {
      ScoreStep(g, seeds, alpha, 0, id);
    } else {
      var previous := Scores(g, seeds, alpha, k - 1);
      ScoreStep(g, seeds, alpha, k - 1, id);
      forall v ensures 0.0 <= Lookup(previous, v) <= bound {
        ScoresBounded(g, seeds, alpha, k - 1, bound, v);
      }
      NeighbourhoodBounds(g, previous, bound, id);
      ConvexBetween(alpha, Lookup(seeds, id), Neighbourhood(g, previous, id), bound);
    }
  }

  lemma ScaleGap(alpha: real, d: real, gap: real)
    requires 0.0 <= alpha && -gap <= d <= gap
    ensures -Times(alpha, gap) <= Times(alpha, d) <= Times(alpha, gap)
  {
  }

  /** Consecutive rounds differ, at every node, by at most `alpha^(k+1)` times the largest seed. */
  lemma {:induction false} RoundsContract(g: TypedGraph, seeds: map<nat, real>, alpha: real, k: nat, bound: real, id: nat)
    requires WeightsNonNegative(g) && 0.0 <= alpha <= 1.0 && bound >= 0.0
    requires forall v :: 0.0 <= Lookup(seeds, v) <= bound
    ensures var gap := Times(Power(alpha, k + 1), bound);
            -gap <= Lookup(Scores(g, seeds, alpha, k + 1), id) - Lookup(Scores(g, seeds, alpha, k), id) <= gap
    decreases k
  {
    hide Scores, Times, Neighbourhood;
    var now := Scores(g, seeds, alpha, k);
    GapNonNegative(alpha, k + 1, bound);
    ScoreStep(g, seeds, alpha, k, id);
    if k == 0 {
      forall v ensures 0.0 <= Lookup(now, v) <= bound {
        ScoresBounded(g, seeds, alpha, 0, bound, v);
      }
      NeighbourhoodBounds(g, now, bound, id);
      FirstRound(alpha, Lookup(seeds, id), Neighbourhood(g, now, id));
      ScaleGap(alpha, Neighbourhood(g, now, id) - Lookup(seeds, id), bound);
      PowerOne(alpha);
    } else {
      var before := Scores(g, seeds, alpha, k - 1);
      var gap := Times(Power(alpha, k), bound);
      forall v ensures -gap <= Lookup(now, v) - Lookup(before, v) <= gap {
        RoundsContract(g, seeds, alpha, k - 1, bound, v);
      }
      GapNonNegative(alpha, k, bound);
      NeighbourhoodClose(g, now, before, gap, id);
      ScoreStep(g, seeds, alpha, k - 1, id);
      ScaleGap(alpha, Neighbourhood(g, now, id) - Neighbourhood(g, before, id), gap);
      Subtract(alpha, Neighbourhood(g, now, id), Neighbourhood(g, before, id));
      Regroup(alpha, Power(alpha, k), bound);
    }
  }

  lemma GapNonNegative(alpha: real, k: nat, bound: real)
    requires 0.0 <= alpha && 0.0 <= bound
    ensures 0.0 <= Times(Power(alpha, k), bound)
  {
  }

  lemma PowerOne(alpha: real)
    ensures Power(alpha, 1) == alpha
  {
  }

  lemma FirstRound(alpha: real, seed: real, average: real)
    ensures Times(1.0 - alpha, seed) + Times(alpha, average) - seed == Times(alpha, average - seed)
  {
  }

  /** Stopping after `k` rounds is within `alpha^(k+1)·bound / (1 - alpha)` of every later round. */
  lemma {:induction false} FixedRoundError(
    g: TypedGraph, seeds: map<nat, real>, alpha: real, k: nat, m: nat, bound: real, id: nat)
    requires WeightsNonNegative(g) && 0.0 <= alpha <= 1.0 && bound >= 0.0 && k <= m
    requires forall v :: 0.0 <= Lookup(seeds, v) <= bound
    ensures var gap := Times(Power(alpha, k + 1) - Power(alpha, m + 1), bound);
            -gap <= Times(1.0 - alpha, Lookup(Scores(g, seeds, alpha, m), id) - Lookup(Scores(g, seeds, alpha, k), id)) <= gap
    ensures Times(Power(alpha, k + 1) - Power(alpha, m + 1), bound) <= Times(Power(alpha, k + 1), bound)
    decreases m - k
  {
    hide Scores, Times;
    GapNonNegative(alpha, m + 1, bound);
    Distribute(Power(alpha, k + 1) - Power(alpha, m + 1), Power(alpha, m + 1), bound);
    var s0, s2 := Lookup(Scores(g, seeds, alpha, k), id), Lookup(Scores(g, seeds, alpha, m), id);
    if m == k {
      TimesZero(1.0 - alpha);
      TimesZero(bound);
    } else {
      var s1 := Lookup(Scores(g, seeds, alpha, m - 1), id);
      FixedRoundError(g, seeds, alpha, k, m - 1, bound, id);
      RoundsContract(g, seeds, alpha, m - 1, bound, id);
      ScaleGap(1.0 - alpha, s2 - s1, Times(Power(alpha, m), bound));
      Distribute(s2 - s1, s1 - s0, 1.0 - alpha);
      Telescope(alpha, Power(alpha, k + 1), Power(alpha, m), bound);
    }
  }

  lemma Telescope(alpha: real, p: real, q: real, bound: real)
    ensures Times(1.0 - alpha, Times(q, bound)) + Times(p - q, bound) == Times(p - Times(alpha, q), bound)
  {
  }

  // ----- the fixed point -----

  /** A score map that another round would leave as it is. */
  ghost predicate FixedPoint(g: TypedGraph, seeds: map<nat, real>, alpha: real, f: map<nat, real>) {
    f.Keys == g.nodes && forall v :: v in g.nodes ==> f[v] == NextScore(g, seeds, alpha, f, v)
  }

  ghost predicate Close(a: map<nat, real>, b: map<nat, real>, gap: real) {
    forall v :: -gap <= Lookup(a, v) - Lookup(b, v) <= gap
  }

  /** A round brings any two score maps closer by the factor alpha. */
  lemma RoundContracts(g: TypedGraph, seeds: map<nat, real>, alpha: real, a: map<nat, real>, b: map<nat, real>, gap: real, id: nat)
    requires WeightsNonNegative(g) && 0.0 <= alpha && gap >= 0.0 && Close(a, b, gap)
    ensures var d := NextScore(g, seeds, alpha, a, id) - NextScore(g, seeds, alpha, b, id);
            -Times(alpha, gap) <= d <= Times(alpha, gap)
  {
    hide Times, Neighbourhood;
    NeighbourhoodClose(g, a, b, gap, id);
    ScaleGap(alpha, Neighbourhood(g, a, id) - Neighbourhood(g, b, id), gap);
    Subtract(alpha, Neighbourhood(g, a, id), Neighbourhood(g, b, id));
  }

  /** Round `k` is within `alpha^k` times the initial distance of the fixed point. */
  lemma {:induction false} FixedPointError(
    g: TypedGraph, seeds: map<nat, real>, alpha: real, k: nat, f: map<nat, real>, gap: real)
    requires WeightsNonNegative(g) && 0.0 <= alpha && gap >= 0.0 && FixedPoint(g, seeds, alpha, f)
    requires Close(Scores(g, seeds, alpha, 0), f, gap)
    ensures Close(Scores(g, seeds, alpha, k), f, Times(Power(alpha, k), gap))
  {
    hide Times, NextScore, Scores, WeightsNonNegative;
    if k == 0 {
      PowerZero(alpha, gap);
    } else {
      var before, after, near := Scores(g, seeds, alpha, k - 1), Scores(g, seeds, alpha, k), Times(Power(alpha, k - 1), gap);
      FixedPointError(g, seeds, alpha, k - 1, f, gap);
      GapNonNegative(alpha, k - 1, gap);
      GapNonNegative(alpha, k, gap);
      Regroup(alpha, Power(alpha, k - 1), gap);
      forall v ensures -Times(alpha, near) <= Lookup(after, v) - Lookup(f, v) <= Times(alpha, near) {
        NextRound(g, seeds, alpha, k - 1, v);
        RoundContracts(g, seeds, alpha, before, f, near, v);
      }
    }
  }

  lemma PowerZero(alpha: real, gap: real)
    ensures Times(Power(alpha, 0), gap) == gap
  {
  }

  lemma NextRound(g: TypedGraph, seeds: map<nat, real>, alpha: real, k: nat, v: nat)
    ensures Lookup(Scores(g, seeds, alpha, k + 1), v)
            == if v in g.nodes then NextScore(g, seeds, alpha, Scores(g, seeds, alpha, k), v) else 0.0
  {
  }

  /** The largest distance between two score maps, and where it occurs. */
  lemma {:induction false} LargestGap(nodes: set<nat>, a: map<nat, real>, b: map<nat, real>) returns (gap: real, at: nat)
    requires nodes != {}
    ensures gap >= 0.0 && at in nodes
    ensures Lookup(a, at) - Lookup(b, at) == gap || Lookup(b, at) - Lookup(a, at) == gap
    ensures forall v :: v in nodes ==> -gap <= Lookup(a, v) - Lookup(b, v) <= gap
    decreases nodes
  {
    var x :| x in nodes;
    var d := Lookup(a, x) - Lookup(b, x);
    gap, at := if d >= 0.0 then d else -d, x;
    if nodes != {x} {
      var rest, there := LargestGap(nodes - {x}, a, b);
      if rest > gap {
        gap, at := rest, there;
      }
    }
  }

  /** For alpha below 1 there is at most one fixed point. */
  lemma FixedPointUnique(g: TypedGraph, seeds: map<nat, real>, alpha: real, a: map<nat, real>, b: map<nat, real>)
    requires WeightsNonNegative(g) && 0.0 <= alpha < 1.0
    requires FixedPoint(g, seeds, alpha, a) && FixedPoint(g, seeds, alpha, b)
    ensures a == b
  {
    hide Times, NextScore, WeightsNonNegative;
    if g.nodes != {} {
      var gap, at := LargestGap(g.nodes, a, b);
      RoundContracts(g, seeds, alpha, a, b, gap, at);
      ShrinksToZero(alpha, gap);
    }
  }

  lemma ShrinksToZero(alpha: real, gap: real)
    requires 0.0 <= alpha < 1.0 && 0.0 <= gap <= Times(alpha, gap)
    ensures gap == 0.0
  {
    PositiveProduct(gap, 1.0 - alpha);
    assert Times(gap, 1.0 - alpha) == gap - Times(alpha, gap);
  }

  // ----- which scores are positive -----

  /** A positive seed lies within `k` positive hops of `id`. */
  ghost predicate SeedWithin(g: TypedGraph, seeds: map<nat, real>, k: nat, id: nat) {
    exists v :: v in Within(Positive(g), {id}, k) && Lookup(seeds, v) > 0.0
  }

  /** A node's score after `k` rounds is positive exactly when a walk of at most `k` positive edges reaches a positive seed. */
  lemma {:induction false} PositiveScoreIsReach(g: TypedGraph, seeds: map<nat, real>, alpha: real, k: nat, id: nat)
    requires g.Valid() && 0.0 < alpha < 1.0 && WeightsPositive(g)
    requires forall v :: 0.0 <= Lookup(seeds, v)
    ensures Lookup(Scores(g, seeds, alpha, k), id) > 0.0 <==> id in g.nodes && SeedWithin(g, seeds, k, id)
    decreases k
  {
    hide Scores, Times, Neighbourhood, PositiveEdges, Positive, SeedWithin;
    if k == 0 {
      ScoreStep(g, seeds, alpha, 0, id);
      SeedAtHome(g, seeds, id);
    } else if id !in g.nodes {
      ScoreStep(g, seeds, alpha, k - 1, id);
    } else {
      var previous := Scores(g, seeds, alpha, k - 1);
      PositiveEdgesMember(g, id);
      PositiveEndpoints(g);
      forall v ensures Lookup(previous, v) >= 0.0 {
        NonNegativeScore(g, seeds, alpha, k - 1, v);
      }
      NeighbourhoodPositive(g, previous, id);
      PositiveMix(alpha, Lookup(seeds, id), Neighbourhood(g, previous, id));
      ScoreStep(g, seeds, alpha, k - 1, id);
      forall e | e in PositiveEdges(g, id) ensures Lookup(previous, e.target) > 0.0 <==> SeedWithin(g, seeds, k - 1, e.target) {
        PositiveScoreIsReach(g, seeds, alpha, k - 1, e.target);
      }
      SeedWithinFront(g, seeds, k - 1, id);
    }
  }

  lemma SeedAtHome(g: TypedGraph, seeds: map<nat, real>, id: nat)
    ensures SeedWithin(g, seeds, 0, id) <==> Lookup(seeds, id) > 0.0
  {
  }

  lemma PositiveMix(alpha: real, x: real, y: real)
    requires 0.0 < alpha < 1.0 && 0.0 <= x && 0.0 <= y
    ensures Times(1.0 - alpha, x) + Times(alpha, y) >= 0.0
    ensures Times(1.0 - alpha, x) + Times(alpha, y) > 0.0 <==> x > 0.0 || y > 0.0
  {
    PositiveProduct(x, 1.0 - alpha);
    PositiveProduct(y, alpha);
  }

  lemma {:induction false} NonNegativeScore(g: TypedGraph, seeds: map<nat, real>, alpha: real, k: nat, id: nat)
    requires 0.0 < alpha < 1.0 && WeightsPositive(g)
    requires forall v :: 0.0 <= Lookup(seeds, v)
    ensures Lookup(Scores(g, seeds, alpha, k), id) >= 0.0
    decreases k
  {
    hide Scores, Times, Neighbourhood;
    ScoreStep(g, seeds, alpha, if k == 0 then 0 else k - 1, id);
    if k > 0 {
      var previous := Scores(g, seeds, alpha, k - 1);
      forall v ensures Lookup(previous, v) >= 0.0 {
        NonNegativeScore(g, seeds, alpha, k - 1, v);
      }
      NeighbourhoodPositive(g, previous, id);
      PositiveMix(alpha, Lookup(seeds, id), Neighbourhood(g, previous, id));
    }
  }

  lemma NeighbourhoodPositive(g: TypedGraph, scores: map<nat, real>, id: nat)
    requires WeightsPositive(g)
    requires forall v :: 0.0 <= Lookup(scores, v)
    ensures Neighbourhood(g, scores, id) >= 0.0
    ensures Neighbourhood(g, scores, id) > 0.0 <==> exists e :: e in PositiveEdges(g, id) && Lookup(scores, e.target) > 0.0
  {
    var edges := PositiveEdges(g, id);
    WeightPositive(edges);
    if WeightSum(edges) > 0.0 {
      PullPositive(edges, scores, WeightSum(edges));
    }
  }

  lemma {:induction false} WeightPositive(edges: seq<Edge>)
    requires forall e :: e in edges ==> e.weight > 0.0
    ensures WeightSum(edges) >= 0.0 && (WeightSum(edges) > 0.0 <==> edges != [])
  {
    if edges != [] {
      assert edges[|edges| - 1] in edges;
      WeightPositive(edges[..|edges| - 1]);
    }
  }

  lemma SeedWithinFront(g: TypedGraph, seeds: map<nat, real>, k: nat, id: nat)
    ensures SeedWithin(g, seeds, k + 1, id) <==>
            Lookup(seeds, id) > 0.0 || exists e :: e in PositiveEdges(g, id) && SeedWithin(g, seeds, k, e.target)
  {
    hide Positive, PositiveEdges, Within, Image;
    var r := Positive(g);
    PositiveEdgesMember(g, id);
    if SeedWithin(g, seeds, k + 1, id) {
      var x :| x in Within(r, {id}, k + 1) && Lookup(seeds, x) > 0.0;
      WithinFront(r, id, k, x);
      if x != id {
        var v :| v in Image(r, {id}) && x in Within(r, {v}, k);
        var e :| e in PositiveEdges(g, id) && e.target == v;
      }
    }
    if Lookup(seeds, id) > 0.0 {
      WithinFront(r, id, k, id);
    } else if e :| e in PositiveEdges(g, id) && SeedWithin(g, seeds, k, e.target) {
      var x :| x in Within(r, {e.target}, k) && Lookup(seeds, x) > 0.0;
      ImageMember(r, id, e.target);
      WithinFront(r, id, k, x);
    }
  }

  // ----- linearity -----

  /** Scores are linear in the seeds, absent entries read as 0. */
  lemma {:induction false} ScoresLinear(
    g: TypedGraph, c: map<nat, real>, s: map<nat, real>, t: map<nat, real>, a: real, b: real, alpha: real, k: nat, id: nat)
    requires forall v :: Lookup(c, v) == Times(a, Lookup(s, v)) + Times(b, Lookup(t, v))
    ensures Lookup(Scores(g, c, alpha, k), id)
            == Times(a, Lookup(Scores(g, s, alpha, k), id)) + Times(b, Lookup(Scores(g, t, alpha, k), id))
    decreases k
  {
    hide Scores, Times, Neighbourhood;
    TimesZero(a);
    TimesZero(b);
    if k == 0 {
      ScoreStep(g, c, alpha, 0, id);
      ScoreStep(g, s, alpha, 0, id);
      ScoreStep(g, t, alpha, 0, id);
    } else {
      var pc, ps, pt := Scores(g, c, alpha, k - 1), Scores(g, s, alpha, k - 1), Scores(g, t, alpha, k - 1);
      ScoreStep(g, c, alpha, k - 1, id);
      ScoreStep(g, s, alpha, k - 1, id);
      ScoreStep(g, t, alpha, k - 1, id);
      forall v ensures Lookup(pc, v) == Times(a, Lookup(ps, v)) + Times(b, Lookup(pt, v)) {
        ScoresLinear(g, c, s, t, a, b, alpha, k - 1, v);
      }
      NeighbourhoodLinear(g, pc, ps, pt, a, b, id);
      CombineLinear(a, b, alpha, Lookup(s, id), Lookup(t, id), Neighbourhood(g, ps, id), Neighbourhood(g, pt, id));
    }
  }

  lemma NeighbourhoodLinear(g: TypedGraph, c: map<nat, real>, s: map<nat, real>, t: map<nat, real>, a: real, b: real, id: nat)
    requires forall v :: Lookup(c, v) == Times(a, Lookup(s, v)) + Times(b, Lookup(t, v))
    ensures Neighbourhood(g, c, id) == Times(a, Neighbourhood(g, s, id)) + Times(b, Neighbourhood(g, t, id))
  {
    hide Times;
    var edges := PositiveEdges(g, id);
    TimesZero(a);
    TimesZero(b);
    if WeightSum(edges) > 0.0 {
      PullLinear(edges, c, s, t, a, b, WeightSum(edges));
    }
  }

  lemma CombineLinear(a: real, b: real, alpha: real, x: real, y: real, m: real, n: real)
    ensures Times(1.0 - alpha, Times(a, x) + Times(b, y)) + Times(alpha, Times(a, m) + Times(b, n))
            == Times(a, Times(1.0 - alpha, x) + Times(alpha, m)) + Times(b, Times(1.0 - alpha, y) + Times(alpha, n))
  {
  }

  lemma ZeroSeeds(g: TypedGraph, seeds: map<nat, real>, alpha: real, k: nat, id: nat)
    requires forall v :: Lookup(seeds, v) == 0.0
    ensures Lookup(Scores(g, seeds, alpha, k), id) == 0.0
  {
    ScoresLinear(g, seeds, map[], map[], 0.0, 0.0, alpha, k, id);
  }

  /** The same for the returned map, whose early returns agree with the rule that absent means 0. */
  lemma RanksLinear(
    g: TypedGraph, c: map<nat, real>, s: map<nat, real>, t: map<nat, real>, a: real, b: real, alpha: real, k: nat, id: nat)
    requires forall v :: Lookup(c, v) == Times(a, Lookup(s, v)) + Times(b, Lookup(t, v))
    ensures Lookup(Ranks(g, c, alpha, k), id)
            == Times(a, Lookup(Ranks(g, s, alpha, k), id)) + Times(b, Lookup(Ranks(g, t, alpha, k), id))
  {
    ScoresLinear(g, c, s, t, a, b, alpha, k, id);
    RanksAreScores(g, c, alpha, k, id);
    RanksAreScores(g, s, alpha, k, id);
    RanksAreScores(g, t, alpha, k, id);
  }

  lemma RanksAreScores(g: TypedGraph, seeds: map<nat, real>, alpha: real, k: nat, id: nat)
    ensures Lookup(Ranks(g, seeds, alpha, k), id) == Lookup(Scores(g, seeds, alpha, k), id)
  {
    if seeds == map[] {
      ZeroSeeds(g, seeds, alpha, k, id);
    }
  }

  // ----- the order of the edges -----

  /** All that PageRank reads of an edge: its target and its weight. */
  type Link = (nat, real)

  function Links(edges: seq<Edge>): seq<Link> {
    if edges == [] then [] else Links(edges[..|edges| - 1]) + [(edges[|edges| - 1].target, edges[|edges| - 1].weight)]
  }

  function LinkWeight(): Link -> real {
    (l: Link) => l.1
  }

  function LinkShare(scores: map<nat, real>, total: real): Link -> real
    requires total > 0.0
  {
    (l: Link) => Contribution(Lookup(scores, l.0), l.1, total)
  }

  lemma {:induction false} WeightOfLinks(edges: seq<Edge>)
    ensures WeightSum(edges) == SeqSum(Links(edges), LinkWeight())
  {
    if edges != [] {
      WeightOfLinks(edges[..|edges| - 1]);
    }
  }

  lemma {:induction false} PullOfLinks(edges: seq<Edge>, scores: map<nat, real>, total: real)
    requires total > 0.0
    ensures Pull(edges, scores, total) == SeqSum(Links(edges), LinkShare(scores, total))
  {
    if edges != [] {
      PullOfLinks(edges[..|edges| - 1], scores, total);
    }
  }

  lemma {:induction false} LinksAppend(a: seq<Edge>, b: seq<Edge>)
    ensures Links(a + b) == Links(a) + Links(b)
  {
    if b == [] {
      assert a + b == a;
    } else {
      var n := |b| - 1;
      assert (a + b)[..|a + b| - 1] == a + b[..n];
      LinksAppend(a, b[..n]);
    }
  }

  /** The same links at every node, in whatever order and from whatever positive types. */
  ghost predicate SameLinks(g: TypedGraph, g': TypedGraph) {
    g.nodes == g'.nodes && forall id :: multiset(Links(PositiveEdges(g, id))) == multiset(Links(PositiveEdges(g', id)))
  }

  lemma NeighbourhoodSame(g: TypedGraph, g': TypedGraph, scores: map<nat, real>, id: nat)
    requires SameLinks(g, g')
    ensures Neighbourhood(g, scores, id) == Neighbourhood(g', scores, id)
  {
    hide PositiveEdges;
    var a, b := PositiveEdges(g, id), PositiveEdges(g', id);
    assert multiset(Links(a)) == multiset(Links(b));
    WeightOfLinks(a);
    WeightOfLinks(b);
    SumPermutation(Links(a), Links(b), LinkWeight());
    var total := WeightSum(a);
    if total > 0.0 {
      PullOfLinks(a, scores, total);
      PullOfLinks(b, scores, total);
      SumPermutation(Links(a), Links(b), LinkShare(scores, total));
    }
  }

  /** Scores depend on the graph only through its nodes and the bag of links at each of them. */
  lemma {:induction false} ScoresSame(g: TypedGraph, g': TypedGraph, seeds: map<nat, real>, alpha: real, k: nat)
    requires SameLinks(g, g')
    ensures Scores(g, seeds, alpha, k) == Scores(g', seeds, alpha, k)
  {
    hide SameLinks, Neighbourhood;
    assert g.nodes == g'.nodes by {
      SameLinksNodes(g, g');
    }
    if k > 0 {
      ScoresSame(g, g', seeds, alpha, k - 1);
      var previous := Scores(g, seeds, alpha, k - 1);
      forall id ensures Neighbourhood(g, previous, id) == Neighbourhood(g', previous, id) {
        NeighbourhoodSame(g, g', previous, id);
      }
    }
  }

  lemma SameLinksNodes(g: TypedGraph, g': TypedGraph)
    requires SameLinks(g, g')
    ensures g.nodes == g'.nodes
  {
  }

  // ----- what a round computes, without the five queries -----

  /** The edges that leave `id` under one of the five positive names. */
  function LeavesBy(id: nat): Edge -> bool {
    (e: Edge) => e.source == id && PositiveName(e.relationType)
  }

  function OutLinks(g: TypedGraph, id: nat): seq<Edge> {
    Filter(g.edges, LeavesBy(id))
  }

  function EdgeWeight(): Edge -> real {
    (e: Edge) => e.weight
  }

  /** Weight times the score at the far end. */
  function WeightedScore(scores: map<nat, real>): Edge -> real {
    (e: Edge) => Times(e.weight, Lookup(scores, e.target))
  }

  function OutWeight(g: TypedGraph, id: nat): real {
    SeqSum(OutLinks(g, id), EdgeWeight())
  }

  /** The five queries together find exactly those edges. */
  lemma PositiveEdgesAreOutLinks(g: TypedGraph, id: nat)
    ensures multiset(PositiveEdges(g, id)) == multiset(OutLinks(g, id))
  {
    hide Filter;
    forall x ensures multiset(PositiveEdges(g, id))[x] == multiset(OutLinks(g, id))[x] {
      CountPositive(g, id, x);
    }
  }

  lemma CountPositive(g: TypedGraph, id: nat, x: Edge)
    ensures multiset(PositiveEdges(g, id))[x] == multiset(OutLinks(g, id))[x]
  {
    hide Filter, PositiveName, RelationType.AsStr, RelationType.FromStr;
    FilterCount(g.edges, AtNode(id, Supports, Outgoing), x);
    FilterCount(g.edges, AtNode(id, CoAccess, Outgoing), x);
    FilterCount(g.edges, AtNode(id, Prerequisite, Outgoing), x);
    FilterCount(g.edges, AtNode(id, Informs, Outgoing), x);
    FilterCount(g.edges, AtNode(id, RelatedTo, Outgoing), x);
    FilterCount(g.edges, LeavesBy(id), x);
    PositiveNameIff(x.relationType);
    forall t: RelationType ensures RelationType.FromStr(t.AsStr()) == Some(t) {
      TypeOfName(t);
    }
  }

  lemma {:induction false} WeightSumIsSeqSum(edges: seq<Edge>)
    ensures WeightSum(edges) == SeqSum(edges, EdgeWeight())
  {
    if edges != [] {
      WeightSumIsSeqSum(edges[..|edges| - 1]);
    }
  }

  lemma {:induction false} PullIsSeqSum(edges: seq<Edge>, scores: map<nat, real>, total: real)
    requires total > 0.0
    ensures Times(total, Pull(edges, scores, total)) == SeqSum(edges, WeightedScore(scores))
  {
    hide Times;
    if edges == [] {
      TimesZero(total);
    } else {
      var n := |edges| - 1;
      var score := Lookup(scores, edges[n].target);
      PullIsSeqSum(edges[..n], scores, total);
      ContributionIsShare(score, edges[n].weight, total);
      Distribute(Pull(edges[..n], scores, total), Times(score, edges[n].weight / total), total);
      ShareOfTotal(score, edges[n].weight, total);
    }
  }

  lemma ShareOfTotal(score: real, weight: real, total: real)
    requires total > 0.0
    ensures Times(total, Times(score, weight / total)) == Times(weight, score)
  {
    assert total * (weight / total) == weight;
  }

  /** A neighbourhood term is the average score at the far ends, weighted by edge weight. */
  ghost predicate IsWeightedAverage(g: TypedGraph, scores: map<nat, real>, id: nat, average: real) {
    if OutWeight(g, id) > 0.0 then Times(OutWeight(g, id), average) == SeqSum(OutLinks(g, id), WeightedScore(scores))
    else average == 0.0
  }

  lemma NeighbourhoodIsAverage(g: TypedGraph, scores: map<nat, real>, id: nat)
    ensures IsWeightedAverage(g, scores, id, Neighbourhood(g, scores, id))
  {
    hide Times, PositiveEdges, OutLinks;
    var edges, links := PositiveEdges(g, id), OutLinks(g, id);
    PositiveEdgesAreOutLinks(g, id);
    WeightSumIsSeqSum(edges);
    SumPermutation(edges, links, EdgeWeight());
    if WeightSum(edges) > 0.0 {
      PullIsSeqSum(edges, scores, WeightSum(edges));
      SumPermutation(edges, links, WeightedScore(scores));
    }
  }

  /** There is one such average. */
  lemma AverageUnique(g: TypedGraph, scores: map<nat, real>, id: nat, a: real, b: real)
    requires IsWeightedAverage(g, scores, id, a) && IsWeightedAverage(g, scores, id, b)
    ensures a == b
  {
    if OutWeight(g, id) > 0.0 {
      CancelFactor(OutWeight(g, id), a, b);
    }
  }

  lemma CancelFactor(c: real, a: real, b: real)
    requires c > 0.0 && Times(c, a) == Times(c, b)
    ensures a == b
  {
    Subtract(c, a, b);
    if a > b {
      PositiveProduct(a - b, c);
      Regroup(a - b, c, 1.0);
    } else if a < b {
      PositiveProduct(b - a, c);
      Regroup(b - a, c, 1.0);
      Subtract(c, b, a);
    }
  }

  /** `next` is what one round makes of `before`: teleport share plus damped average, at every node. */
  ghost predicate IsRound(g: TypedGraph, seeds: map<nat, real>, alpha: real, before: map<nat, real>, next: map<nat, real>) {
    && next.Keys == g.nodes
    && forall id :: id in g.nodes ==>
         exists average :: IsWeightedAverage(g, before, id, average)
                           && next[id] == Times(1.0 - alpha, Lookup(seeds, id)) + Times(alpha, average)
  }

  /** `ranks` is the last of a run of score maps that starts with the seeds and takes `k` rounds. */
  ghost predicate IsRankRun(g: TypedGraph, seeds: map<nat, real>, alpha: real, k: nat, ranks: map<nat, real>) {
    exists run: seq<map<nat, real>> ::
      && |run| == k + 1 && run[k] == ranks
      && run[0].Keys == g.nodes && (forall id :: id in g.nodes ==> run[0][id] == if id in seeds then seeds[id] else 0.0)
      && forall i :: 0 <= i < k ==> IsRound(g, seeds, alpha, run[i], run[i + 1])
  }

  lemma NextIsRound(g: TypedGraph, seeds: map<nat, real>, alpha: real, before: map<nat, real>, next: map<nat, real>)
    requires next == map id | id in g.nodes :: NextScore(g, seeds, alpha, before, id)
    ensures IsRound(g, seeds, alpha, before, next)
  {
    hide Times, Neighbourhood, IsWeightedAverage;
    forall id | id in g.nodes
      ensures exists average :: IsWeightedAverage(g, before, id, average)
                                && next[id] == Times(1.0 - alpha, Lookup(seeds, id)) + Times(alpha, average)
    {
      NeighbourhoodIsAverage(g, before, id);
    }
  }

  lemma ScoresAreRankRun(g: TypedGraph, seeds: map<nat, real>, alpha: real, k: nat)
    ensures IsRankRun(g, seeds, alpha, k, Scores(g, seeds, alpha, k))
  {
    hide IsRound, NextScore, Scores;
    var run := seq(k + 1, i requires 0 <= i < k + 1 => Scores(g, seeds, alpha, i));
    ScoresUnfold(g, seeds, alpha, 0);
    assert run[0] == Scores(g, seeds, alpha, 0) && run[k] == Scores(g, seeds, alpha, k);
    forall i | 0 <= i < k ensures IsRound(g, seeds, alpha, run[i], run[i + 1]) {
      ScoresUnfold(g, seeds, alpha, i);
      NextIsRound(g, seeds, alpha, run[i], run[i + 1]);
    }
    RunOfRounds(g, seeds, alpha, k, run);
  }

  lemma RunOfRounds(g: TypedGraph, seeds: map<nat, real>, alpha: real, k: nat, run: seq<map<nat, real>>)
    requires |run| == k + 1 && run[0] == map id | id in g.nodes :: Lookup(seeds, id)
    requires forall i :: 0 <= i < k ==> IsRound(g, seeds, alpha, run[i], run[i + 1])
    ensures IsRankRun(g, seeds, alpha, k, run[k])
  {
    hide IsRound;
  }

  /** Where all nodes pass on their weight, seeds that are all equal stay as they are. */
  lemma {:induction false} EqualSeedsStay(g: TypedGraph, seeds: map<nat, real>, alpha: real, k: nat, m: real, id: nat)
    requires g.Valid() && id in g.nodes
    requires forall v :: v in g.nodes ==> OutWeight(g, v) > 0.0 && Lookup(seeds, v) == m
    ensures Lookup(Scores(g, seeds, alpha, k), id) == m
    decreases k
  {
    hide Scores, Times, Neighbourhood, IsWeightedAverage, OutWeight;
    if k == 0 {
      ScoreStep(g, seeds, alpha, 0, id);
    } else {
      var before := Scores(g, seeds, alpha, k - 1);
      ScoreStep(g, seeds, alpha, k - 1, id);
      forall v | v in g.nodes ensures Lookup(before, v) == m {
        EqualSeedsStay(g, seeds, alpha, k - 1, m, v);
      }
      NeighbourhoodIsAverage(g, before, id);
      EqualAverage(g, before, id, m);
      AverageUnique(g, before, id, m, Neighbourhood(g, before, id));
      MixSame(alpha, m);
    }
  }

  lemma MixSame(alpha: real, m: real)
    ensures Times(1.0 - alpha, m) + Times(alpha, m) == m
  {
  }

  lemma EqualAverage(g: TypedGraph, scores: map<nat, real>, id: nat, m: real)
    requires g.Valid() && OutWeight(g, id) > 0.0 && forall v :: v in g.nodes ==> Lookup(scores, v) == m
    ensures IsWeightedAverage(g, scores, id, m)
  {
    hide Times;
    var links := OutLinks(g, id);
    FilterMember(g.edges, LeavesBy(id));
    ConstantScores(links, scores, m);
    Regroup(OutWeight(g, id), m, 1.0);
  }

  lemma {:induction false} ConstantScores(edges: seq<Edge>, scores: map<nat, real>, m: real)
    requires forall e :: e in edges ==> Lookup(scores, e.target) == m
    ensures SeqSum(edges, WeightedScore(scores)) == Times(m, SeqSum(edges, EdgeWeight()))
  {
    hide Times;
    if edges == [] {
      TimesZero(m);
    } else {
      var n := |edges| - 1;
      assert edges[n] in edges;
      ConstantScores(edges[..n], scores, m);
      Distribute(SeqSum(edges[..n], EdgeWeight()), edges[n].weight, m);
      Regroup(edges[n].weight, m, 1.0);
    }
  }

  /** A node with one positive edge takes over the previous score of its target, damped. */
  lemma OneLink(g: TypedGraph, seeds: map<nat, real>, alpha: real, k: nat, id: nat, e: Edge)
    requires id in g.nodes && OutLinks(g, id) == [e] && e.weight > 0.0
    ensures Lookup(Scores(g, seeds, alpha, k + 1), id)
            == Times(1.0 - alpha, Lookup(seeds, id)) + Times(alpha, Lookup(Scores(g, seeds, alpha, k), e.target))
  {
    hide Scores, Times, Neighbourhood, OutLinks;
    var before := Scores(g, seeds, alpha, k);
    ScoreStep(g, seeds, alpha, k, id);
    NeighbourhoodIsAverage(g, before, id);
    OneTerm(e, EdgeWeight());
    OneTerm(e, WeightedScore(before));
    assert IsWeightedAverage(g, before, id, Lookup(before, e.target));
    AverageUnique(g, before, id, Lookup(before, e.target), Neighbourhood(g, before, id));
  }

  // ----- the loops -----

  lemma {:induction false} WeightSumAppend(a: seq<Edge>, b: seq<Edge>)
    ensures WeightSum(a + b) == WeightSum(a) + WeightSum(b)
  {
    if b == [] {
      assert a + b == a;
    } else {
      var n := |b| - 1;
      assert (a + b)[..|a + b| - 1] == a + b[..n];
      WeightSumAppend(a, b[..n]);
    }
  }

  lemma {:induction false} PullAppend(a: seq<Edge>, b: seq<Edge>, scores: map<nat, real>, total: real)
    requires total > 0.0
    ensures Pull(a + b, scores, total) == Pull(a, scores, total) + Pull(b, scores, total)
  {
    if b == [] {
      assert a + b == a;
    } else {
      var n := |b| - 1;
      assert (a + b)[..|a + b| - 1] == a + b[..n];
      PullAppend(a, b[..n], scores, total);
    }
  }

  /** One `edges_of_type` loop of the out-degree sum. */
  method AddWeights(total: real, edges: seq<Edge>) returns (total': real)
    ensures total' == total + WeightSum(edges)
  {
    total' := total;
    for i := 0 to |edges|
      invariant total' == total + WeightSum(edges[..i])
    {
      assert edges[..i + 1][..i] == edges[..i];
      total' := total' + edges[i].weight;
    }
    assert edges[..|edges|] == edges;
  }

  method PositiveOutDegreeWeight(g: TypedGraph, id: nat) returns (total: real)
    ensures total == WeightSum(PositiveEdges(g, id))
  {
    var a, b := g.EdgesOfType(id, Supports, Outgoing), g.EdgesOfType(id, CoAccess, Outgoing);
    var c, d := g.EdgesOfType(id, Prerequisite, Outgoing), g.EdgesOfType(id, Informs, Outgoing);
    var e := g.EdgesOfType(id, RelatedTo, Outgoing);
    total := AddWeights(0.0, a);
    total := AddWeights(total, b);
    total := AddWeights(total, c);
    total := AddWeights(total, d);
    total := AddWeights(total, e);
    WeightSumAppend(a, b);
    WeightSumAppend(a + b, c);
    WeightSumAppend(a + b + c, d);
    WeightSumAppend(a + b + c + d, e);
  }

  /** One `edges_of_type` loop of the pull sum. */
  method AddContributions(sum: real, edges: seq<Edge>, scores: map<nat, real>, outDegree: real) returns (sum': real)
    requires outDegree > 0.0
    ensures sum' == sum + Pull(edges, scores, outDegree)
  {
    sum' := sum;
    for i := 0 to |edges|
      invariant sum' == sum + Pull(edges[..i], scores, outDegree)
    {
      assert edges[..i + 1][..i] == edges[..i];
      sum' := sum' + Contribution(Lookup(scores, edges[i].target), edges[i].weight, outDegree);
    }
    assert edges[..|edges|] == edges;
  }

  method NeighbourContribution(g: TypedGraph, scores: map<nat, real>, id: nat) returns (sum: real)
    ensures sum == Neighbourhood(g, scores, id)
    ensures IsWeightedAverage(g, scores, id, sum)
  {
    hide Pull, WeightSum, IsWeightedAverage;
    NeighbourhoodIsAverage(g, scores, id);
    var outDegree := PositiveOutDegreeWeight(g, id);
    sum := 0.0;
    if outDegree > 0.0 {
      var a, b := g.EdgesOfType(id, Supports, Outgoing), g.EdgesOfType(id, CoAccess, Outgoing);
      var c, d := g.EdgesOfType(id, Prerequisite, Outgoing), g.EdgesOfType(id, Informs, Outgoing);
      var e := g.EdgesOfType(id, RelatedTo, Outgoing);
      sum := AddContributions(sum, a, scores, outDegree);
      sum := AddContributions(sum, b, scores, outDegree);
      sum := AddContributions(sum, c, scores, outDegree);
      sum := AddContributions(sum, d, scores, outDegree);
      sum := AddContributions(sum, e, scores, outDegree);
      PullAppend(a, b, scores, outDegree);
      PullAppend(a + b, c, scores, outDegree);
      PullAppend(a + b + c, d, scores, outDegree);
      PullAppend(a + b + c + d, e, scores, outDegree);
    }
  }

  /** All node ids, ascending. */
  method SortedIds(nodes: set<nat>) returns (ids: seq<nat>)
    ensures StrictlyAscending(ids) && Elements(ids) == nodes
  {
    var rest, keys := nodes, [];
    while rest != {}
      invariant rest + Elements(keys) == nodes
      decreases rest
    {
      var x :| x in rest;
      ElementsSnoc(keys, x);
      rest, keys := rest - {x}, keys + [x];
    }
    ids := SortDedup(keys);
  }

  lemma ScoresUnfold(g: TypedGraph, seeds: map<nat, real>, alpha: real, k: nat)
    ensures Scores(g, seeds, alpha, 0) == map id | id in g.nodes :: Lookup(seeds, id)
    ensures Scores(g, seeds, alpha, k + 1) == map id | id in g.nodes :: NextScore(g, seeds, alpha, Scores(g, seeds, alpha, k), id)
  {
    hide NextScore;
  }

  method PersonalizedPagerank(g: TypedGraph, seeds: map<nat, real>, alpha: real, iterations: nat)
    returns (ranks: map<nat, real>)
    ensures ranks == Ranks(g, seeds, alpha, iterations)
    ensures seeds == map[] || g.nodes == {} ==> ranks == map[]
    ensures seeds != map[] && g.nodes != {} ==> IsRankRun(g, seeds, alpha, iterations, ranks)
  {
    hide IsRankRun, IsRound, NextScore, Scores;
    ScoresAreRankRun(g, seeds, alpha, iterations);
    if seeds == map[] {
      return map[];
    }
    if g.nodes == {} {
      return map[];
    }
    var ids := SortedIds(g.nodes);
    ranks := map[];
    for i := 0 to |ids|
      invariant ranks == map id | id in Elements(ids[..i]) :: Lookup(seeds, id)
    {
      assert ids[..i + 1] == ids[..i] + [ids[i]];
      ranks := ranks[ids[i] := Lookup(seeds, ids[i])];
    }
    assert ids[..|ids|] == ids;
    ScoresUnfold(g, seeds, alpha, 0);
    for k := 0 to iterations
      invariant ranks == Scores(g, seeds, alpha, k)
    {
      ScoresUnfold(g, seeds, alpha, k);
      ranks := Round(g, seeds, alpha, ids, ranks);
    }
  }

  /** One round: every node, in ascending order, gets its teleport share and its neighbourhood share. */
  method Round(g: TypedGraph, seeds: map<nat, real>, alpha: real, ids: seq<nat>, scores: map<nat, real>)
    returns (next: map<nat, real>)
    requires Elements(ids) == g.nodes
    ensures next == map id | id in g.nodes :: NextScore(g, seeds, alpha, scores, id)
    ensures IsRound(g, seeds, alpha, scores, next)
  {
    hide Neighbourhood, Times, IsRound, IsWeightedAverage;
    next := map[];
    for i := 0 to |ids|
      invariant next == map id | id in Elements(ids[..i]) :: NextScore(g, seeds, alpha, scores, id)
    {
      assert ids[..i + 1] == ids[..i] + [ids[i]];
      var teleport := Times(1.0 - alpha, Lookup(seeds, ids[i]));
      var contribution := NeighbourContribution(g, scores, ids[i]);
      next := next[ids[i] := teleport + Times(alpha, contribution)];
    }
    assert ids[..|ids|] == ids;
    NextIsRound(g, seeds, alpha, scores, next);
  }
}
