/**
 What each reader of the graph can see of the stored edge rows. Supersession reads
 the entry table alone; expansion sees a set of positive pairs; PageRank sees a bag
 of links per node; suppression sees a set of contradicting pairs.
 */
module NonInterference {
  import opened Prelude
  import opened Sums
  import opened Hops
  import opened RelationGraph
  import S = Supersession
  import X = Expansion
  import P = PageRank
  import C = Suppression

  ghost function PairsOfType(ids: set<nat>, rows: seq<EdgeRow>, t: RelationType): Relation {
    set row | row in rows && Accepted(ids, row) && row.relationType == t.AsStr() :: (row.sourceId, row.targetId)
  }

  // ----- ignored rows -----

  /** Bootstrap-only, Supersedes, unknown-type and dangling rows leave no trace in the graph. */
  lemma {:induction false} IgnoredRows(entries: seq<Entry>, rows: seq<EdgeRow>)
    ensures GraphOf(entries, rows) == GraphOf(entries, Filter(rows, (row: EdgeRow) => Accepted(Ids(entries), row)))
  {
    RowEdgesFilter(Ids(entries), rows);
  }

  lemma {:induction false} RowEdgesFilter(ids: set<nat>, rows: seq<EdgeRow>)
    ensures RowEdges(ids, rows) == RowEdges(ids, Filter(rows, (row: EdgeRow) => Accepted(ids, row)))
  {
    if rows == [] {
    } else {
      var keep := (row: EdgeRow) => Accepted(ids, row);
      var n := |rows| - 1;
      RowEdgesFilter(ids, rows[..n]);
      assert rows == rows[..n] + [rows[n]];
      FilterAppend(rows[..n], [rows[n]], keep);
      var kept := Filter(rows[..n], keep);
      if Accepted(ids, rows[n]) {
        assert Filter(rows, keep) == kept + [rows[n]];
        assert (kept + [rows[n]])[..|kept|] == kept;
      } else {
        assert Filter(rows, keep) == kept + [];
        assert kept + [] == kept;
      }
    }
  }

  // ----- supersession -----

  /** The Supersedes edges at a node do not depend on the rows. */
  lemma SupersedesEdgesFixed(entries: seq<Entry>, rows: seq<EdgeRow>, rows': seq<EdgeRow>, id: nat)
    ensures GraphOf(entries, rows).EdgesOfType(id, Supersedes, Outgoing)
            == GraphOf(entries, rows').EdgesOfType(id, Supersedes, Outgoing)
  {
    SupersedesEdgesOnly(entries, rows, id);
    SupersedesEdgesOnly(entries, rows', id);
  }

  lemma SupersedesRelationFixed(entries: seq<Entry>, rows: seq<EdgeRow>, rows': seq<EdgeRow>)
    ensures RelationOf(GraphOf(entries, rows), Supersedes) == RelationOf(GraphOf(entries, rows'), Supersedes)
  {
    RowEdgesMember(Ids(entries), rows);
    RowEdgesMember(Ids(entries), rows');
  }

  /** The penalty of an entry is a function of the entry table. */
  lemma PenaltyIgnoresRows(entries: seq<Entry>, rows: seq<EdgeRow>, rows': seq<EdgeRow>, id: nat, p: S.PenaltyParams)
    ensures S.Penalty(id, GraphOf(entries, rows), entries, p) == S.Penalty(id, GraphOf(entries, rows'), entries, p)
  {
    SupersedesEdgesFixed(entries, rows, rows', id);
    SupersedesRelationFixed(entries, rows, rows');
  }

  /** Graphs with the same Supersedes edges at every node are searched alike. */
  lemma {:induction false} SearchSame(g: TypedGraph, g': TypedGraph, entries: seq<Entry>, stack: seq<(nat, nat)>, visited: set<nat>)
    requires g.Valid() && g'.Valid() && g.nodes == g'.nodes
    requires forall id :: g.EdgesOfType(id, Supersedes, Outgoing) == g'.EdgesOfType(id, Supersedes, Outgoing)
    ensures S.TerminalSearch(g, entries, stack, visited) == S.TerminalSearch(g', entries, stack, visited)
    decreases g.nodes - visited, |stack|
  {
    hide TypedGraph.EdgesOfType, S.Terminal, TypedGraph.Valid;
    if stack != [] {
      var top, rest := stack[|stack| - 1], stack[..|stack| - 1];
      if S.Terminal(entries, top.0) {
      } else if top.1 + 1 > S.MAX_TRAVERSAL_DEPTH {
        SearchSame(g, g', entries, rest, visited);
      } else {
        S.PushProgress(g, visited, top.0);
        var (stack', visited') := S.PushUnvisited(rest, visited, g.EdgesOfType(top.0, Supersedes, Outgoing), top.1 + 1);
        SearchSame(g, g', entries, stack', visited');
      }
    }
  }

  /** So is the terminal a search returns, down to which one of several it is. */
  lemma SearchIgnoresRows(
    entries: seq<Entry>, rows: seq<EdgeRow>, rows': seq<EdgeRow>, stack: seq<(nat, nat)>, visited: set<nat>)
    ensures S.TerminalSearch(GraphOf(entries, rows), entries, stack, visited)
            == S.TerminalSearch(GraphOf(entries, rows'), entries, stack, visited)
  {
    hide TypedGraph.EdgesOfType, S.TerminalSearch;
    var g, g' := GraphOf(entries, rows), GraphOf(entries, rows');
    forall id ensures g.EdgesOfType(id, Supersedes, Outgoing) == g'.EdgesOfType(id, Supersedes, Outgoing) {
      SupersedesEdgesFixed(entries, rows, rows', id);
    }
    SearchSame(g, g', entries, stack, visited);
  }

  // ----- relations that rows describe -----

  lemma RelationIsPairs(entries: seq<Entry>, rows: seq<EdgeRow>, t: RelationType)
    requires t != Supersedes
    ensures RelationOf(GraphOf(entries, rows), t) == PairsOfType(Ids(entries), rows, t)
  {
    var g, ids := GraphOf(entries, rows), Ids(entries);
    SupersedesEdgesMember(entries, |entries|);
    RowEdgesMember(ids, rows);
    OnlySupersedes(t);
    forall p | p in RelationOf(g, t) ensures p in PairsOfType(ids, rows, t) {
      var e :| e in g.edges && e.relationType == t.AsStr() && p == (e.source, e.target);
      assert e in RowEdges(ids, rows);
      var row :| row in rows && Accepted(ids, row) && e == Edge(row.sourceId, row.targetId, row.relationType, row.weight);
    }
    forall p | p in PairsOfType(ids, rows, t) ensures p in RelationOf(g, t) {
      var row :| row in rows && Accepted(ids, row) && row.relationType == t.AsStr() && p == (row.sourceId, row.targetId);
      var e := Edge(row.sourceId, row.targetId, row.relationType, row.weight);
      assert e in RowEdges(ids, rows);
      assert e in g.edges;
    }
  }

  ghost function PositivePairs(ids: set<nat>, rows: seq<EdgeRow>): Relation {
    PairsOfType(ids, rows, CoAccess) + PairsOfType(ids, rows, Supports) + PairsOfType(ids, rows, Informs)
    + PairsOfType(ids, rows, Prerequisite) + PairsOfType(ids, rows, RelatedTo)
  }

  /**
   Expansion depends on the rows only through the set of positive pairs: not on
   their order, repetition, weight, exact type, or on any other row.
   */
  lemma ExpansionSeesPairs(
    entries: seq<Entry>, rows: seq<EdgeRow>, rows': seq<EdgeRow>, seeds: seq<nat>, depth: nat, cap: nat)
    requires PositivePairs(Ids(entries), rows) == PositivePairs(Ids(entries), rows')
    ensures X.Expanded(GraphOf(entries, rows), seeds, depth, cap) == X.Expanded(GraphOf(entries, rows'), seeds, depth, cap)
  {
    PositiveIsPairs(entries, rows);
    PositiveIsPairs(entries, rows');
  }

  lemma PositiveIsPairs(entries: seq<Entry>, rows: seq<EdgeRow>)
    ensures Positive(GraphOf(entries, rows)) == PositivePairs(Ids(entries), rows)
  {
    hide RelationOf, PairsOfType;
    RelationIsPairs(entries, rows, CoAccess);
    RelationIsPairs(entries, rows, Supports);
    RelationIsPairs(entries, rows, Informs);
    RelationIsPairs(entries, rows, Prerequisite);
    RelationIsPairs(entries, rows, RelatedTo);
  }

  /** Expansion is also blind to the adjacency order of the graph it is given. */
  lemma ExpansionIgnoresOrder(g: TypedGraph, g': TypedGraph, seeds: seq<nat>, depth: nat, cap: nat)
    requires g.nodes == g'.nodes && forall e :: e in g.edges <==> e in g'.edges
    ensures X.Expanded(g, seeds, depth, cap) == X.Expanded(g', seeds, depth, cap)
  {
    assert Positive(g) == Positive(g') by {
      forall t: RelationType ensures RelationOf(g, t) == RelationOf(g', t) {
      }
    }
  }

  /** Suppression depends on the rows only through the set of contradicting pairs. */
  lemma SuppressionSeesContradictions(entries: seq<Entry>, rows: seq<EdgeRow>, rows': seq<EdgeRow>, ranked: seq<nat>, j: nat)
    requires PairsOfType(Ids(entries), rows, Contradicts) == PairsOfType(Ids(entries), rows', Contradicts)
    requires j < |ranked|
    ensures C.SuppressedBy(RelationOf(GraphOf(entries, rows), Contradicts), ranked, j)
            == C.SuppressedBy(RelationOf(GraphOf(entries, rows'), Contradicts), ranked, j)
  {
    RelationIsPairs(entries, rows, Contradicts);
    RelationIsPairs(entries, rows', Contradicts);
  }

  // ----- PageRank -----

  /** The links that the accepted rows of positive type give node `id`. */
  function PositiveLinks(ids: set<nat>, rows: seq<EdgeRow>, id: nat): seq<P.Link> {
    if rows == [] then []
    else
      var row := rows[|rows| - 1];
      PositiveLinks(ids, rows[..|rows| - 1], id)
      + if Accepted(ids, row) && PositiveName(row.relationType) && row.sourceId == id then [(row.targetId, row.weight)] else []
  }

  /** The links at `id` that a list of edges of one type holds. */
  ghost function LinksOfType(edges: seq<Edge>, id: nat, t: RelationType): multiset<P.Link> {
    multiset(P.Links(Filter(edges, AtNode(id, t, Outgoing))))
  }

  ghost function LinkBag(edges: seq<Edge>, id: nat): multiset<P.Link> {
    LinksOfType(edges, id, Supports) + LinksOfType(edges, id, CoAccess) + LinksOfType(edges, id, Prerequisite)
    + LinksOfType(edges, id, Informs) + LinksOfType(edges, id, RelatedTo)
  }

  lemma LinkBagOfGraph(g: TypedGraph, id: nat)
    ensures multiset(P.Links(P.PositiveEdges(g, id))) == LinkBag(g.edges, id)
  {
    var a, b := g.EdgesOfType(id, Supports, Outgoing), g.EdgesOfType(id, CoAccess, Outgoing);
    var c, d := g.EdgesOfType(id, Prerequisite, Outgoing), g.EdgesOfType(id, Informs, Outgoing);
    var e := g.EdgesOfType(id, RelatedTo, Outgoing);
    hide P.Links, Filter;
    P.LinksAppend(a, b);
    P.LinksAppend(a + b, c);
    P.LinksAppend(a + b + c, d);
    P.LinksAppend(a + b + c + d, e);
  }

  lemma LinksOfTypeAppend(a: seq<Edge>, b: seq<Edge>, id: nat, t: RelationType)
    ensures LinksOfType(a + b, id, t) == LinksOfType(a, id, t) + LinksOfType(b, id, t)
  {
    hide P.Links, Filter;
    FilterAppend(a, b, AtNode(id, t, Outgoing));
    P.LinksAppend(Filter(a, AtNode(id, t, Outgoing)), Filter(b, AtNode(id, t, Outgoing)));
  }

  lemma LinkBagAppend(a: seq<Edge>, b: seq<Edge>, id: nat)
    ensures LinkBag(a + b, id) == LinkBag(a, id) + LinkBag(b, id)
  {
    hide LinksOfType;
    LinksOfTypeAppend(a, b, id, Supports);
    LinksOfTypeAppend(a, b, id, CoAccess);
    LinksOfTypeAppend(a, b, id, Prerequisite);
    LinksOfTypeAppend(a, b, id, Informs);
    LinksOfTypeAppend(a, b, id, RelatedTo);
  }

  lemma LinksOfOne(e: Edge, id: nat, t: RelationType)
    ensures LinksOfType([e], id, t)
            == if e.source == id && e.relationType == t.AsStr() then multiset{(e.target, e.weight)} else multiset{}
  {
    hide RelationType.AsStr;
    var keep := AtNode(id, t, Outgoing);
    assert [e][1..] == [] && [e][..0] == [];
    assert Filter([e], keep) == if keep(e) then [e] else [];
    assert P.Links([e]) == [(e.target, e.weight)];
  }

  lemma LinkBagOne(e: Edge, id: nat)
    ensures LinkBag([e], id) == if e.source == id && PositiveName(e.relationType) then multiset{(e.target, e.weight)} else multiset{}
  {
    hide LinksOfType, RelationType.AsStr, RelationType.FromStr, PositiveName;
    PositiveNameIff(e.relationType);
    forall t: RelationType ensures RelationType.FromStr(t.AsStr()) == Some(t) {
      TypeOfName(t);
    }
    LinksOfOne(e, id, Supports);
    LinksOfOne(e, id, CoAccess);
    LinksOfOne(e, id, Prerequisite);
    LinksOfOne(e, id, Informs);
    LinksOfOne(e, id, RelatedTo);
  }

  lemma LinkBagNone(edges: seq<Edge>, id: nat)
    requires forall e :: e in edges ==> !PositiveName(e.relationType)
    ensures LinkBag(edges, id) == multiset{}
  {
    hide LinksOfType;
    NoLinksOfType(edges, id, Supports);
    NoLinksOfType(edges, id, CoAccess);
    NoLinksOfType(edges, id, Prerequisite);
    NoLinksOfType(edges, id, Informs);
    NoLinksOfType(edges, id, RelatedTo);
  }

  lemma NoLinksOfType(edges: seq<Edge>, id: nat, t: RelationType)
    requires PositiveType(t) && forall e :: e in edges ==> !PositiveName(e.relationType)
    ensures LinksOfType(edges, id, t) == multiset{}
  {
    hide RelationType.AsStr, PositiveName;
    forall e: Edge ensures e.relationType == t.AsStr() ==> PositiveName(e.relationType) {
      PositiveNameIff(e.relationType);
    }
    FilterNone(edges, AtNode(id, t, Outgoing));
  }

  lemma {:induction false} LinkBagOfRows(ids: set<nat>, rows: seq<EdgeRow>, id: nat)
    ensures LinkBag(RowEdges(ids, rows), id) == multiset(PositiveLinks(ids, rows, id))
  {
    hide LinkBag, PositiveName, Accepted;
    if rows == [] {
      LinkBagNone([], id);
    } else {
      var n := |rows| - 1;
      var row, before := rows[n], RowEdges(ids, rows[..n]);
      LinkBagOfRows(ids, rows[..n], id);
      if Accepted(ids, row) {
        var e := Edge(row.sourceId, row.targetId, row.relationType, row.weight);
        LinkBagAppend(before, [e], id);
        LinkBagOne(e, id);
      } else {
        assert before + [] == before;
      }
    }
  }

  /** The links of a built graph are those of its positive rows. */
  lemma LinksComeFromRows(entries: seq<Entry>, rows: seq<EdgeRow>, id: nat)
    ensures multiset(P.Links(P.PositiveEdges(GraphOf(entries, rows), id))) == multiset(PositiveLinks(Ids(entries), rows, id))
  {
    hide LinkBag, P.PositiveEdges, P.Links, SupersedesEdges, RowEdges, PositiveLinks;
    var own, others := SupersedesEdges(entries, |entries|), RowEdges(Ids(entries), rows);
    LinkBagOfGraph(GraphOf(entries, rows), id);
    LinkBagAppend(own, others, id);
    PointersGiveNoLinks(entries, id);
    LinkBagOfRows(Ids(entries), rows, id);
  }

  lemma PointersAreNotPositive(entries: seq<Entry>)
    ensures forall e :: e in SupersedesEdges(entries, |entries|) ==> !PositiveName(e.relationType)
  {
    hide SupersedesEdges, Ids, PositiveName;
    SupersedesEdgesMember(entries, |entries|);
    SupersedesIsNotPositive();
  }

  lemma SupersedesIsNotPositive()
    ensures !PositiveName("Supersedes")
  {
  }

  lemma PointersGiveNoLinks(entries: seq<Entry>, id: nat)
    ensures LinkBag(SupersedesEdges(entries, |entries|), id) == multiset{}
  {
    hide LinkBag, SupersedesEdges;
    PointersAreNotPositive(entries);
    LinkBagNone(SupersedesEdges(entries, |entries|), id);
  }

  /**
   PageRank depends on the rows only through the links they give each node: not on
   their order, on which of the five positive types a row has, or on any other row.
   */
  lemma PageRankSeesLinks(
    entries: seq<Entry>, rows: seq<EdgeRow>, rows': seq<EdgeRow>, seeds: map<nat, real>, alpha: real, k: nat)
    requires forall id ::
      multiset(PositiveLinks(Ids(entries), rows, id)) == multiset(PositiveLinks(Ids(entries), rows', id))
    ensures P.Ranks(GraphOf(entries, rows), seeds, alpha, k) == P.Ranks(GraphOf(entries, rows'), seeds, alpha, k)
  {
    hide P.PositiveEdges, P.Links, P.Scores, PositiveLinks;
    var g, g' := GraphOf(entries, rows), GraphOf(entries, rows');
    forall id ensures multiset(P.Links(P.PositiveEdges(g, id))) == multiset(P.Links(P.PositiveEdges(g', id))) {
      LinksComeFromRows(entries, rows, id);
      LinksComeFromRows(entries, rows', id);
    }
    P.ScoresSame(g, g', seeds, alpha, k);
  }

  /** The rows that PageRank can see. */
  function GivesLink(ids: set<nat>): EdgeRow -> bool {
    (row: EdgeRow) => Accepted(ids, row) && PositiveName(row.relationType)
  }

  /** Rejected rows and rows of other types, wherever they stand, give no links. */
  lemma {:induction false} OtherRowsGiveNoLinks(ids: set<nat>, rows: seq<EdgeRow>, id: nat)
    ensures PositiveLinks(ids, Filter(rows, GivesLink(ids)), id) == PositiveLinks(ids, rows, id)
  {
    hide Accepted, PositiveName;
    if rows == [] {
    } else {
      var keep, n := GivesLink(ids), |rows| - 1;
      var kept := Filter(rows[..n], keep);
      OtherRowsGiveNoLinks(ids, rows[..n], id);
      assert rows == rows[..n] + [rows[n]];
      FilterAppend(rows[..n], [rows[n]], keep);
      assert Filter([rows[n]], keep) == if keep(rows[n]) then [rows[n]] else [];
      if keep(rows[n]) {
        assert (kept + [rows[n]])[..|kept|] == kept;
      } else {
        assert kept + [] == kept;
      }
    }
  }

  lemma PageRankIgnoresOtherRows(entries: seq<Entry>, rows: seq<EdgeRow>, seeds: map<nat, real>, alpha: real, k: nat)
    ensures P.Ranks(GraphOf(entries, rows), seeds, alpha, k)
            == P.Ranks(GraphOf(entries, Filter(rows, GivesLink(Ids(entries)))), seeds, alpha, k)
  {
    hide P.Ranks, PositiveLinks, GraphOf, Filter;
    var seen := Filter(rows, GivesLink(Ids(entries)));
    forall id ensures multiset(PositiveLinks(Ids(entries), rows, id)) == multiset(PositiveLinks(Ids(entries), seen, id)) {
      OtherRowsGiveNoLinks(Ids(entries), rows, id);
    }
    PageRankSeesLinks(entries, rows, seen, seeds, alpha, k);
  }

  /** PageRank is also blind to the adjacency order of the graph it is given. */
  lemma PageRankIgnoresOrder(g: TypedGraph, g': TypedGraph, seeds: map<nat, real>, alpha: real, k: nat)
    requires g.nodes == g'.nodes && multiset(g.edges) == multiset(g'.edges)
    ensures P.Ranks(g, seeds, alpha, k) == P.Ranks(g', seeds, alpha, k)
  {
    hide P.PositiveEdges, P.Links, P.Scores;
    forall id ensures multiset(P.Links(P.PositiveEdges(g, id))) == multiset(P.Links(P.PositiveEdges(g', id))) {
      LinkBagOfGraph(g, id);
      LinkBagOfGraph(g', id);
      LinkBagPermutation(g.edges, g'.edges, id);
    }
    P.ScoresSame(g, g', seeds, alpha, k);
  }

  lemma {:induction false} LinkBagPermutation(a: seq<Edge>, b: seq<Edge>, id: nat)
    requires multiset(a) == multiset(b)
    ensures LinkBag(a, id) == LinkBag(b, id)
  {
    hide LinkBag;
    if a == [] {
      assert |multiset(b)| == 0;
    } else {
      var n := |a| - 1;
      var x := a[n];
      assert a == a[..n] + [x];
      assert x in multiset(a);
      var before, after := Extract(b, x);
      LinkBagPermutation(a[..n], before + after, id);
      LinkBagAppend(a[..n], [x], id);
      LinkBagAppend(before + [x], after, id);
      LinkBagAppend(before, [x], id);
      LinkBagAppend(before, after, id);
    }
  }
}
