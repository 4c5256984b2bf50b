/**
 The typed relation graph (crates/unimatrix-engine/src/graph.rs): entries, edge
 rows, construction in passes, and detection of supersession cycles.

 A petgraph `NodeIndex` is represented by the entry id it was created for, and
 `node_index` by its key set; unique entry ids make the two interchangeable.
 The order of `edges` stands for petgraph's adjacency order. Nothing proved about
 the readers of a graph depends on it.
 */
module RelationGraph {
  import opened Prelude
  import opened Hops

  datatype RelationType =
    | Supersedes | Contradicts | Supports | CoAccess | Prerequisite | Informs
    | Advances | Motivates | Cites | Asserts | Mentions | Refutes | Tests
    | DerivedFrom | About | RelatedTo
  {
    function AsStr(): string {
      match this
      case Supersedes => "Supersedes"
      case Contradicts => "Contradicts"
      case Supports => "Supports"
      case CoAccess => "CoAccess"
      case Prerequisite => "Prerequisite"
      case Informs => "Informs"
      case Advances => "Advances"
      case Motivates => "Motivates"
      case Cites => "Cites"
      case Asserts => "Asserts"
      case Mentions => "Mentions"
      case Refutes => "Refutes"
      case Tests => "Tests"
      case DerivedFrom => "DerivedFrom"
      case About => "About"
      case RelatedTo => "RelatedTo"
    }

    static function FromStr(s: string): Option<RelationType> {
      if s == "Supersedes" then Some(Supersedes)
      else if s == "Contradicts" then Some(Contradicts)
      else if s == "Supports" then Some(Supports)
      else if s == "CoAccess" then Some(CoAccess)
      else if s == "Prerequisite" then Some(Prerequisite)
      else if s == "Informs" then Some(Informs)
      else if s == "Advances" then Some(Advances)
      else if s == "Motivates" then Some(Motivates)
      else if s == "Cites" then Some(Cites)
      else if s == "Asserts" then Some(Asserts)
      else if s == "Mentions" then Some(Mentions)
      else if s == "Refutes" then Some(Refutes)
      else if s == "Tests" then Some(Tests)
      else if s == "DerivedFrom" then Some(DerivedFrom)
      else if s == "About" then Some(About)
      else if s == "RelatedTo" then Some(RelatedTo)
      else None
    }
  }

  /** No other type is stored under the reserved name. */
  lemma OnlySupersedes(t: RelationType)
    ensures t.AsStr() == "Supersedes" ==> t == Supersedes
  {
  }

  /** The five types that expansion and PageRank walk along. */
  predicate PositiveType(t: RelationType) {
    t in {CoAccess, Supports, Informs, Prerequisite, RelatedTo}
  }

  datatype Status = Active | Deprecated | Proposed | Quarantined

  datatype Entry = Entry(id: nat, status: Status, supersedes: Option<nat>, supersededBy: Option<nat>)

  datatype EdgeRow = EdgeRow(sourceId: nat, targetId: nat, relationType: string, weight: real, bootstrapOnly: bool)

  datatype Edge = Edge(source: nat, target: nat, relationType: string, weight: real)

  datatype Direction = Outgoing | Incoming

  datatype GraphError = CycleDetected

  datatype TypedGraph = TypedGraph(nodes: set<nat>, edges: seq<Edge>) {
    ghost predicate Valid() {
      forall e :: e in edges ==> e.source in nodes && e.target in nodes
    }

    /** The sole filter boundary: the edges of one type at one end of a node. */
    function EdgesOfType(id: nat, t: RelationType, dir: Direction): seq<Edge> {
      Filter(edges, AtNode(id, t, dir))
    }
  }

  /** The edges of type `t` with `id` at the given end. */
  function AtNode(id: nat, t: RelationType, dir: Direction): Edge -> bool {
    (e: Edge) => (if dir == Outgoing then e.source else e.target) == id && e.relationType == t.AsStr()
  }

  /** The edges of one type as a relation between entry ids. */
  ghost function RelationOf(g: TypedGraph, t: RelationType): Relation {
    set e | e in g.edges && e.relationType == t.AsStr() :: (e.source, e.target)
  }

  /** The positive edges as a relation between entry ids. */
  ghost function Positive(g: TypedGraph): Relation {
    RelationOf(g, CoAccess) + RelationOf(g, Supports) + RelationOf(g, Informs)
    + RelationOf(g, Prerequisite) + RelationOf(g, RelatedTo)
  }

  /** The names of the five positive types. */
  predicate PositiveName(name: string) {
    name == "CoAccess" || name == "Supports" || name == "Informs" || name == "Prerequisite" || name == "RelatedTo"
  }

  /** The pairs joined by an edge with one of those names. */
  ghost function PositiveSteps(g: TypedGraph): Relation {
    set e | e in g.edges && PositiveName(e.relationType) :: (e.source, e.target)
  }

  lemma TypeOfName(t: RelationType)
    ensures RelationType.FromStr(t.AsStr()) == Some(t)
  {
  }

  lemma PositiveNameIff(name: string)
    ensures PositiveName(name) <==>
            || name == CoAccess.AsStr() || name == Supports.AsStr() || name == Informs.AsStr()
            || name == Prerequisite.AsStr() || name == RelatedTo.AsStr()
  {
  }

  lemma PositiveIsSteps(g: TypedGraph)
    ensures Positive(g) == PositiveSteps(g)
  {
    hide PositiveName, RelationType.AsStr;
    forall e: Edge ensures PositiveName(e.relationType) <==>
                      || e.relationType == CoAccess.AsStr() || e.relationType == Supports.AsStr() || e.relationType == Informs.AsStr()
                      || e.relationType == Prerequisite.AsStr() || e.relationType == RelatedTo.AsStr() {
      PositiveNameIff(e.relationType);
    }
    forall p ensures p in Positive(g) <==> p in PositiveSteps(g) {
      if p in Positive(g) {
        var e :| e in g.edges && p == (e.source, e.target) && PositiveName(e.relationType);
      }
      if p in PositiveSteps(g) {
        var e :| e in g.edges && PositiveName(e.relationType) && p == (e.source, e.target);
      }
    }
  }

  lemma PositiveEndpoints(g: TypedGraph)
    requires g.Valid()
    ensures forall e :: e in Positive(g) ==> e.0 in g.nodes && e.1 in g.nodes
  {
  }

  lemma EdgesOfTypeMember(g: TypedGraph, id: nat, t: RelationType, dir: Direction)
    ensures forall e :: e in g.EdgesOfType(id, t, dir) <==>
                        e in g.edges && (if dir == Outgoing then e.source else e.target) == id && e.relationType == t.AsStr()
  {
    FilterMember(g.edges, AtNode(id, t, dir));
  }

  /** The targets of the outgoing edges are the image of the node. */
  lemma OutgoingIsImage(g: TypedGraph, id: nat, t: RelationType)
    ensures forall e :: e in g.EdgesOfType(id, t, Outgoing) ==> (id, e.target) in RelationOf(g, t)
    ensures forall y :: y in Image(RelationOf(g, t), {id}) <==>
                        exists e :: e in g.EdgesOfType(id, t, Outgoing) && e.target == y
  {
    EdgesOfTypeMember(g, id, t, Outgoing);
    forall y | y in Image(RelationOf(g, t), {id})
      ensures exists e :: e in g.EdgesOfType(id, t, Outgoing) && e.target == y
    {
      var e :| e in g.edges && e.relationType == t.AsStr() && e.source == id && e.target == y;
    }
    forall y, e | e in g.EdgesOfType(id, t, Outgoing) && e.target == y
      ensures y in Image(RelationOf(g, t), {id})
    {
      assert (id, y) in RelationOf(g, t);
    }
  }

  function Targets(edges: seq<Edge>): seq<nat> {
    seq(|edges|, i requires 0 <= i < |edges| => edges[i].target)
  }

  lemma TargetsInGraph(g: TypedGraph, id: nat, t: RelationType)
    requires g.Valid()
    ensures var ts := Targets(g.EdgesOfType(id, t, Outgoing));
            && Elements(ts) == Image(RelationOf(g, t), {id})
            && (forall x :: x in ts ==> x in g.nodes && (id, x) in RelationOf(g, t))
  {
    var edges := g.EdgesOfType(id, t, Outgoing);
    EdgesOfTypeMember(g, id, t, Outgoing);
    OutgoingIsImage(g, id, t);
    forall x | x in Targets(edges) ensures x in g.nodes && (id, x) in RelationOf(g, t) {
      var i :| 0 <= i < |edges| && edges[i].target == x;
      assert edges[i] in edges;
    }
    forall y | y in Image(RelationOf(g, t), {id}) ensures y in Targets(edges) {
      var e :| e in edges && e.target == y;
      var i :| 0 <= i < |edges| && edges[i] == e;
      assert Targets(edges)[i] == y;
    }
  }

  // ----- the entry table -----

  function Ids(entries: seq<Entry>): set<nat> {
    set e | e in entries :: e.id
  }

  ghost predicate UniqueIds(entries: seq<Entry>) {
    forall i, j :: 0 <= i < j < |entries| ==> entries[i].id != entries[j].id
  }

  /** Linear scan for an entry by id. */
  function EntryById(id: nat, entries: seq<Entry>): (r: Option<Entry>)
    ensures r.Some? ==> r.value in entries && r.value.id == id
    ensures r.None? <==> id !in Ids(entries)
  {
    if entries == [] then None
    else if entries[0].id == id then
      assert entries[0] in entries; Some(entries[0])
    else
      assert entries == [entries[0]] + entries[1..];
      EntryById(id, entries[1..])
  }

  lemma EntryByIdUnique(entries: seq<Entry>, e: Entry)
    requires UniqueIds(entries) && e in entries
    ensures EntryById(e.id, entries) == Some(e)
  {
  }

  /** The entry that `id` replaces, if `id` and that entry are both in the table. */
  function Parent(entries: seq<Entry>, id: nat): Option<nat> {
    match EntryById(id, entries)
    case None => None
    case Some(e) => if e.supersedes.Some? && e.supersedes.value in Ids(entries) then e.supersedes else None
  }

  /** Where `d` steps along `supersedes` pointers lead. */
  function Follow(entries: seq<Entry>, id: nat, d: nat): Option<nat>
    decreases d
  {
    if d == 0 then Some(id)
    else match Parent(entries, id)
         case None => None
         case Some(p) => Follow(entries, p, d - 1)
  }

  /** Following `supersedes` pointers from some entry leads back to it. */
  ghost predicate PointerCycle(entries: seq<Entry>) {
    exists id: nat, d: nat :: d >= 1 && id in Ids(entries) && Follow(entries, id, d) == Some(id)
  }

  // ----- the graph a table and its rows describe -----

  function SupersedesEdges(entries: seq<Entry>, n: nat): seq<Edge>
    requires n <= |entries|
  {
    if n == 0 then [] else SupersedesEdges(entries, n - 1) + PointerEdge(entries, entries[n - 1])
  }

  /** The edge of one entry's `supersedes` pointer, if the pointer resolves. */
  function PointerEdge(entries: seq<Entry>, e: Entry): seq<Edge> {
    if e.supersedes.Some? && e.supersedes.value in Ids(entries)
    then [Edge(e.supersedes.value, e.id, "Supersedes", 1.0)] else []
  }

  /** A row becomes an edge unless it is bootstrap-only, Supersedes, unknown or dangling. */
  predicate Accepted(ids: set<nat>, row: EdgeRow) {
    && !row.bootstrapOnly
    && row.relationType != "Supersedes"
    && RelationType.FromStr(row.relationType).Some?
    && row.sourceId in ids
    && row.targetId in ids
  }

  function RowEdges(ids: set<nat>, rows: seq<EdgeRow>): seq<Edge> {
    if rows == [] then []
    else
      var row := rows[|rows| - 1];
      RowEdges(ids, rows[..|rows| - 1]) +
      if Accepted(ids, row) then [Edge(row.sourceId, row.targetId, row.relationType, row.weight)] else []
  }

  function GraphOf(entries: seq<Entry>, rows: seq<EdgeRow>): (g: TypedGraph)
    ensures g.Valid()
  {
    SupersedesEdgesMember(entries, |entries|);
    RowEdgesMember(Ids(entries), rows);
    assert forall i :: 0 <= i < |entries| ==> entries[i] in entries;
    TypedGraph(Ids(entries), SupersedesEdges(entries, |entries|) + RowEdges(Ids(entries), rows))
  }

  lemma {:induction false} SupersedesEdgesMember(entries: seq<Entry>, n: nat)
    requires n <= |entries|
    ensures forall x: Edge :: x in SupersedesEdges(entries, n) <==>
      && x.relationType == "Supersedes" && x.weight == 1.0 && x.source in Ids(entries)
      && exists i :: 0 <= i < n && entries[i].id == x.target && entries[i].supersedes == Some(x.source)
  {
    if n > 0 {
      SupersedesEdgesMember(entries, n - 1);
    }
  }

  lemma {:induction false} RowEdgesMember(ids: set<nat>, rows: seq<EdgeRow>)
    ensures forall x: Edge :: x in RowEdges(ids, rows) <==>
      exists row :: row in rows && Accepted(ids, row) && x == Edge(row.sourceId, row.targetId, row.relationType, row.weight)
  {
    if rows == [] {
    } else {
      var n := |rows| - 1;
      RowEdgesMember(ids, rows[..n]);
      assert rows == rows[..n] + [rows[n]];
    }
  }

  /** The positions of the entries whose pointer is the edge `x`. */
  ghost function PointersFor(entries: seq<Entry>, n: nat, x: Edge): set<nat>
    requires n <= |entries|
  {
    set i: nat | i < n && entries[i].supersedes == Some(x.source) && entries[i].id == x.target
  }

  /** The fifteen names under which a row is stored as an edge. */
  predicate RowTypeName(name: string) {
    || name == "Contradicts" || name == "Supports" || name == "CoAccess" || name == "Prerequisite" || name == "Informs"
    || name == "Advances" || name == "Motivates" || name == "Cites" || name == "Asserts" || name == "Mentions"
    || name == "Refutes" || name == "Tests" || name == "DerivedFrom" || name == "About" || name == "RelatedTo"
  }

  /** The positions of the rows that put the edge `x` into a graph over `ids`. */
  ghost function RowsFor(ids: set<nat>, rows: seq<EdgeRow>, x: Edge): set<nat> {
    set i: nat |
      && i < |rows| && !rows[i].bootstrapOnly && RowTypeName(rows[i].relationType)
      && rows[i].sourceId in ids && rows[i].targetId in ids
      && rows[i].sourceId == x.source && rows[i].targetId == x.target
      && rows[i].relationType == x.relationType && rows[i].weight == x.weight
  }

  /** The tests of the row pass, by name. */
  lemma AcceptedIff(ids: set<nat>, row: EdgeRow)
    ensures Accepted(ids, row)
            <==> !row.bootstrapOnly && RowTypeName(row.relationType) && row.sourceId in ids && row.targetId in ids
  {
  }

  /** The edges that a pointer of the table could give rise to. */
  predicate PointerLike(entries: seq<Entry>, x: Edge) {
    x.relationType == "Supersedes" && x.weight == 1.0 && x.source in Ids(entries)
  }

  lemma {:induction false} PointerCount(entries: seq<Entry>, n: nat, x: Edge)
    requires n <= |entries|
    ensures multiset(SupersedesEdges(entries, n))[x] == if PointerLike(entries, x) then |PointersFor(entries, n, x)| else 0
  {
    hide PointerEdge, PointersFor, PointerLike, SupersedesEdges;
    SupersedesEdgesStep(entries, n);
    if n == 0 {
      NoPointers(entries, x);
    } else {
      PointerCount(entries, n - 1, x);
      CountAppend(SupersedesEdges(entries, n - 1), PointerEdge(entries, entries[n - 1]), x);
      PointerStep(entries, n - 1, x);
    }
  }

  lemma SupersedesEdgesStep(entries: seq<Entry>, n: nat)
    requires n <= |entries|
    ensures SupersedesEdges(entries, n)
            == if n == 0 then [] else SupersedesEdges(entries, n - 1) + PointerEdge(entries, entries[n - 1])
  {
  }

  lemma NoPointers(entries: seq<Entry>, x: Edge)
    ensures PointersFor(entries, 0, x) == {}
  {
  }

  lemma PointerStep(entries: seq<Entry>, i: nat, x: Edge)
    requires i < |entries|
    ensures |PointersFor(entries, i + 1, x)| >= |PointersFor(entries, i, x)|
    ensures multiset(PointerEdge(entries, entries[i]))[x] ==
            if PointerLike(entries, x) then |PointersFor(entries, i + 1, x)| - |PointersFor(entries, i, x)| else 0
  {
    var hit := entries[i].supersedes == Some(x.source) && entries[i].id == x.target;
    assert PointersFor(entries, i + 1, x) == PointersFor(entries, i, x) + if hit then {i} else {};
  }

  lemma {:induction false} RowCount(ids: set<nat>, rows: seq<EdgeRow>, x: Edge)
    ensures multiset(RowEdges(ids, rows))[x] == |RowsFor(ids, rows, x)|
  {
    if rows == [] {
      assert RowsFor(ids, rows, x) == {};
    } else {
      hide Accepted, RowTypeName;
      var n := |rows| - 1;
      RowCount(ids, rows[..n], x);
      RowsForStep(ids, rows, x);
    }
  }

  lemma RowsCounted(edges: seq<Edge>, ids: set<nat>, rows: seq<EdgeRow>)
    ensures forall x :: multiset(edges + RowEdges(ids, rows))[x] == multiset(edges)[x] + |RowsFor(ids, rows, x)|
  {
    hide RowEdges, RowsFor;
    forall x ensures multiset(edges + RowEdges(ids, rows))[x] == multiset(edges)[x] + |RowsFor(ids, rows, x)| {
      RowCount(ids, rows, x);
      CountAppend(edges, RowEdges(ids, rows), x);
    }
  }

  lemma RowsForStep(ids: set<nat>, rows: seq<EdgeRow>, x: Edge)
    requires rows != []
    ensures var n := |rows| - 1;
            var last := if Accepted(ids, rows[n]) then [Edge(rows[n].sourceId, rows[n].targetId, rows[n].relationType, rows[n].weight)] else [];
            |RowsFor(ids, rows, x)| == |RowsFor(ids, rows[..n], x)| + multiset(last)[x]
  {
    hide Accepted, RowTypeName;
    var n := |rows| - 1;
    AcceptedIff(ids, rows[n]);
    var hit := Accepted(ids, rows[n]) && rows[n] == EdgeRow(x.source, x.target, x.relationType, x.weight, false);
    assert RowsFor(ids, rows, x) == RowsFor(ids, rows[..n], x) + if hit then {n} else {};
  }

  /**
   What the graph holds: each edge once per entry whose resolvable pointer it is, and
   once per row that says so and is not bootstrap-only, of one of the fifteen stored
   types, and between entries of the table; and no other edge.
   */
  lemma GraphEdgeCount(entries: seq<Entry>, rows: seq<EdgeRow>, x: Edge)
    ensures GraphOf(entries, rows).nodes == Ids(entries)
    ensures multiset(GraphOf(entries, rows).edges)[x] ==
            |RowsFor(Ids(entries), rows, x)| + if PointerLike(entries, x) then |PointersFor(entries, |entries|, x)| else 0
  {
    PointerCount(entries, |entries|, x);
    RowCount(Ids(entries), rows, x);
  }

  /** The Supersedes edges of the graph are exactly the resolvable `supersedes` pointers. */
  lemma SupersedesIsParent(entries: seq<Entry>, rows: seq<EdgeRow>, p: nat, c: nat)
    requires UniqueIds(entries)
    ensures (p, c) in RelationOf(GraphOf(entries, rows), Supersedes) <==> Parent(entries, c) == Some(p)
  {
    var g := GraphOf(entries, rows);
    SupersedesEdgesMember(entries, |entries|);
    RowEdgesMember(Ids(entries), rows);
    if (p, c) in RelationOf(g, Supersedes) {
      var x :| x in g.edges && x.relationType == Supersedes.AsStr() && x.source == p && x.target == c;
      assert x in SupersedesEdges(entries, |entries|);
      var i :| 0 <= i < |entries| && entries[i].id == c && entries[i].supersedes == Some(p);
      EntryByIdUnique(entries, entries[i]);
    }
    if Parent(entries, c) == Some(p) {
      var e := EntryById(c, entries).value;
      var i :| 0 <= i < |entries| && entries[i] == e;
      var x := Edge(p, c, "Supersedes", 1.0);
      assert x in SupersedesEdges(entries, |entries|);
      assert x in g.edges;
    }
  }

  /** The rows contribute no Supersedes edge. */
  lemma SupersedesEdgesOnly(entries: seq<Entry>, rows: seq<EdgeRow>, id: nat)
    ensures GraphOf(entries, rows).EdgesOfType(id, Supersedes, Outgoing)
            == TypedGraph(Ids(entries), SupersedesEdges(entries, |entries|)).EdgesOfType(id, Supersedes, Outgoing)
  {
    var keep := AtNode(id, Supersedes, Outgoing);
    var own, other := SupersedesEdges(entries, |entries|), RowEdges(Ids(entries), rows);
    RowEdgesMember(Ids(entries), rows);
    FilterAppend(own, other, keep);
    FilterNone(other, keep);
    assert Filter(own, keep) + [] == Filter(own, keep);
  }

  /** The positions of the entries that replace `id`. */
  ghost function Replacements(entries: seq<Entry>, n: nat, id: nat): set<nat>
    requires n <= |entries|
  {
    set i: nat | i < n && entries[i].supersedes == Some(id)
  }

  /** A node has one outgoing Supersedes edge for each entry that replaces it. */
  lemma SuccessorsAreReplacements(entries: seq<Entry>, rows: seq<EdgeRow>, id: nat)
    requires id in Ids(entries)
    ensures |GraphOf(entries, rows).EdgesOfType(id, Supersedes, Outgoing)| == |Replacements(entries, |entries|, id)|
  {
    SupersedesEdgesOnly(entries, rows, id);
    CountReplacements(entries, |entries|, id);
  }

  lemma {:induction false} CountReplacements(entries: seq<Entry>, n: nat, id: nat)
    requires n <= |entries| && id in Ids(entries)
    ensures |Filter(SupersedesEdges(entries, n), AtNode(id, Supersedes, Outgoing))| == |Replacements(entries, n, id)|
  {
    hide Filter, AtNode, PointerEdge;
    if n == 0 {
      NothingFiltered(id);
      assert Replacements(entries, 0, id) == {};
    } else {
      var e, keep := entries[n - 1], AtNode(id, Supersedes, Outgoing);
      CountReplacements(entries, n - 1, id);
      FilterAppend(SupersedesEdges(entries, n - 1), PointerEdge(entries, e), keep);
      OnePointer(entries, e, id);
      if e.supersedes == Some(id) {
        assert Replacements(entries, n, id) == Replacements(entries, n - 1, id) + {n - 1};
      } else {
        assert Replacements(entries, n, id) == Replacements(entries, n - 1, id);
      }
    }
  }

  lemma NothingFiltered(id: nat)
    ensures Filter([], AtNode(id, Supersedes, Outgoing)) == []
  {
  }

  lemma OnePointer(entries: seq<Entry>, e: Entry, id: nat)
    requires id in Ids(entries)
    ensures |Filter(PointerEdge(entries, e), AtNode(id, Supersedes, Outgoing))| == if e.supersedes == Some(id) then 1 else 0
  {
    var edges := PointerEdge(entries, e);
    assert edges != [] ==> edges[1..] == [];
  }

  /** `d` hops forward along Supersedes edges are `d` pointer steps back. */
  lemma {:induction false} HopIsFollow(entries: seq<Entry>, rows: seq<EdgeRow>, x: nat, y: nat, d: nat)
    requires UniqueIds(entries)
    ensures y in Hop(RelationOf(GraphOf(entries, rows), Supersedes), {x}, d) <==> Follow(entries, y, d) == Some(x)
    decreases d
  {
    hide RelationOf, GraphOf, Parent;
    var r := RelationOf(GraphOf(entries, rows), Supersedes);
    if d > 0 {
      if y in Hop(r, {x}, d) {
        var e :| e in r && e.0 in Hop(r, {x}, d - 1) && e.1 == y;
        SupersedesIsParent(entries, rows, e.0, y);
        HopIsFollow(entries, rows, x, e.0, d - 1);
      }
      if Follow(entries, y, d) == Some(x) {
        var p := Parent(entries, y).value;
        SupersedesIsParent(entries, rows, p, y);
        HopIsFollow(entries, rows, x, p, d - 1);
        assert (p, y) in r;
      }
    }
  }

  // ----- pointers and chains of pointers -----

  /** Some entry with id `x` supersedes `y`. */
  ghost predicate PointsTo(entries: seq<Entry>, x: nat, y: nat) {
    exists e :: e in entries && e.id == x && e.supersedes == Some(y)
  }

  /** Each id of `c` names an entry that supersedes the next one. */
  ghost predicate PointerPath(entries: seq<Entry>, c: seq<nat>) {
    |c| >= 1 && forall i :: 0 <= i < |c| - 1 ==> PointsTo(entries, c[i], c[i + 1])
  }

  /** A path of at least one pointer that ends where it began. */
  ghost predicate ClosedPath(entries: seq<Entry>, c: seq<nat>) {
    |c| >= 2 && c[0] == c[|c| - 1] && PointerPath(entries, c)
  }

  lemma ParentPoints(entries: seq<Entry>, x: nat, y: nat)
    requires UniqueIds(entries)
    ensures Parent(entries, x) == Some(y) <==> PointsTo(entries, x, y) && y in Ids(entries)
  {
    if PointsTo(entries, x, y) {
      var e :| e in entries && e.id == x && e.supersedes == Some(y);
      EntryByIdUnique(entries, e);
    }
  }

  lemma {:induction false} FollowToPath(entries: seq<Entry>, x: nat, d: nat) returns (c: seq<nat>)
    requires UniqueIds(entries) && Follow(entries, x, d).Some?
    ensures PointerPath(entries, c) && |c| == d + 1 && c[0] == x && c[d] == Follow(entries, x, d).value
    ensures d >= 1 ==> c[d] in Ids(entries)
    decreases d
  {
    hide Parent, PointsTo;
    if d == 0 {
      c := [x];
    } else {
      var p := Parent(entries, x).value;
      ParentPoints(entries, x, p);
      var rest := FollowToPath(entries, p, d - 1);
      c := [x] + rest;
    }
  }

  lemma {:induction false} PathToFollow(entries: seq<Entry>, c: seq<nat>)
    requires UniqueIds(entries) && PointerPath(entries, c) && c[|c| - 1] in Ids(entries)
    ensures Follow(entries, c[0], |c| - 1) == Some(c[|c| - 1])
    decreases |c|
  {
    hide Parent, PointsTo;
    if |c| > 1 {
      var rest := c[1..];
      PathToFollow(entries, rest);
      if |c| > 2 {
        PointsFrom(entries, c[1], c[2]);
      }
      ParentPoints(entries, c[0], c[1]);
    }
  }

  lemma PointsFrom(entries: seq<Entry>, x: nat, y: nat)
    requires PointsTo(entries, x, y)
    ensures x in Ids(entries)
  {
  }

  /** A pointer cycle is a closed path of pointers. */
  lemma CycleIsClosedPath(entries: seq<Entry>)
    requires UniqueIds(entries)
    ensures PointerCycle(entries) <==> exists c :: ClosedPath(entries, c)
  {
    hide Follow, PointsTo;
    if PointerCycle(entries) {
      var id: nat, d: nat :| d >= 1 && id in Ids(entries) && Follow(entries, id, d) == Some(id);
      var c := FollowToPath(entries, id, d);
      assert ClosedPath(entries, c);
    }
    if c :| ClosedPath(entries, c) {
      PointsFrom(entries, c[0], c[1]);
      PathToFollow(entries, c);
    }
  }

  lemma {:induction false} FollowStaysInside(entries: seq<Entry>, id: nat, d: nat)
    requires d >= 1 && Follow(entries, id, d).Some?
    ensures id in Ids(entries)
  {
  }

  /** Whether the Supersedes relation has a cycle is a question about the pointers alone. */
  lemma AcyclicIsPointerFree(entries: seq<Entry>, rows: seq<EdgeRow>)
    requires UniqueIds(entries)
    ensures Acyclic(RelationOf(GraphOf(entries, rows), Supersedes)) <==> !PointerCycle(entries)
  {
    var r := RelationOf(GraphOf(entries, rows), Supersedes);
    forall x: nat, d: nat | d >= 1 ensures x in Hop(r, {x}, d) <==> Follow(entries, x, d) == Some(x) {
      HopIsFollow(entries, rows, x, x, d);
    }
    if !Acyclic(r) {
      var x: nat, d: nat :| d >= 1 && x in Hop(r, {x}, d);
      FollowStaysInside(entries, x, d);
    }
  }

  /** With unique ids and no pointer cycle, the Supersedes edges form a forest. */
  lemma BuiltForest(entries: seq<Entry>, rows: seq<EdgeRow>)
    requires UniqueIds(entries) && !PointerCycle(entries)
    ensures Forest(RelationOf(GraphOf(entries, rows), Supersedes))
  {
    var r := RelationOf(GraphOf(entries, rows), Supersedes);
    AcyclicIsPointerFree(entries, rows);
    forall e, f | e in r && f in r && e.1 == f.1 ensures e.0 == f.0 {
      SupersedesIsParent(entries, rows, e.0, e.1);
      SupersedesIsParent(entries, rows, f.0, f.1);
    }
  }

  // ----- cycle detection -----

  /** Nodes already removed are ranked so that every edge into one of them climbs. */
  ghost predicate Ranked(nodes: set<nat>, r: Relation, remaining: set<nat>, rank: map<nat, nat>) {
    && rank.Keys == nodes - remaining
    && forall e :: e in r && e.1 in rank ==> e.0 in rank && rank[e.0] < rank[e.1]
  }

  lemma {:induction false} RankClimbs(nodes: set<nat>, r: Relation, remaining: set<nat>, rank: map<nat, nat>, x: nat, y: nat, d: nat)
    requires Ranked(nodes, r, remaining, rank)
    requires y in rank && y in Hop(r, {x}, d)
    ensures x in rank && rank[x] + d <= rank[y]
    decreases d
  {
    if d > 0 {
      var e :| e in r && e.0 in Hop(r, {x}, d - 1) && e.1 == y;
      RankClimbs(nodes, r, remaining, rank, x, e.0, d - 1);
    }
  }

  ghost predicate HasPredecessorIn(r: Relation, s: set<nat>, y: nat) {
    exists e :: e in r && e.1 == y && e.0 in s
  }

  /** If every member of a set has a predecessor in it, walks inside it can be extended backwards for ever. */
  lemma {:induction false} BackwardWalk(r: Relation, s: set<nat>, x: nat, n: nat) returns (w: seq<nat>)
    requires x in s && forall y :: y in s ==> HasPredecessorIn(r, s, y)
    ensures |w| == n + 1 && IsWalk(r, w) && Elements(w) <= s
  {
    if n == 0 {
      w := [x];
    } else {
      var v := BackwardWalk(r, s, x, n - 1);
      assert v[0] in Elements(v);
      assert HasPredecessorIn(r, s, v[0]);
      var e :| e in r && e.1 == v[0] && e.0 in s;
      w := [e.0] + v;
    }
  }

  lemma SubsetCardinality(a: set<nat>, b: set<nat>)
    requires a <= b
    ensures |a| <= |b|
  {
    assert b == a + (b - a);
  }

  /** A finite set closed under some choice of predecessor contains a cycle. */
  lemma PredecessorsMakeCycle(r: Relation, s: set<nat>)
    requires s != {} && forall y :: y in s ==> HasPredecessorIn(r, s, y)
    ensures !Acyclic(r)
  {
    var x :| x in s;
    var w := BackwardWalk(r, s, x, |s|);
    if Distinct(w) {
      DistinctCardinality(w);
      SubsetCardinality(Elements(w), s);
    }
    var i, j :| 0 <= i < j < |w| && w[i] == w[j];
    WalkToHop(r, {w[i]}, w[i..j + 1]);
    assert w[i] in Hop(r, {w[i]}, j - i);
  }

  /** `is_cyclic_directed`, by repeatedly removing the nodes that nothing remaining points to. */
  method IsCyclicDirected(nodes: set<nat>, r: Relation) returns (cyclic: bool)
    requires forall e :: e in r ==> e.0 in nodes && e.1 in nodes
    ensures cyclic <==> !Acyclic(r)
  {
    var remaining := nodes;
    ghost var rank: map<nat, nat>, round := map[], 0;
    while true
      invariant remaining <= nodes
      invariant Ranked(nodes, r, remaining, rank)
      invariant forall x :: x in rank ==> rank[x] < round
      decreases remaining
    {
      var free := remaining - Image(r, remaining);
      if free == {} {
        break;
      }
      rank := rank + map x | x in free :: round;
      remaining := remaining - free;
      round := round + 1;
    }
    cyclic := remaining != {};
    if cyclic {
      forall y | y in remaining ensures HasPredecessorIn(r, remaining, y) {
        assert y !in remaining - Image(r, remaining);
      }
      PredecessorsMakeCycle(r, remaining);
    } else {
      forall x: nat, d: nat | d >= 1 ensures x !in Hop(r, {x}, d) {
        if x in Hop(r, {x}, d) {
          var e :| e in r && e.0 in Hop(r, {x}, d - 1) && e.1 == x;
          RankClimbs(nodes, r, remaining, rank, x, x, d);
        }
      }
    }
  }

  // ----- construction -----

  /** A graph that construction returns for these entries. */
  ghost predicate Built(g: TypedGraph, entries: seq<Entry>) {
    UniqueIds(entries) && !PointerCycle(entries) && exists rows :: g == GraphOf(entries, rows)
  }

  /**
   Builds the graph in passes and rejects supersession cycles. Entry ids come
   from a keyed table, so they are unique.
   */
  method BuildTypedRelationGraph(entries: seq<Entry>, rows: seq<EdgeRow>) returns (r: Result<TypedGraph, GraphError>)
    requires UniqueIds(entries)
    ensures r.Err? <==> PointerCycle(entries)
    ensures r.Err? <==> exists c :: ClosedPath(entries, c)
    ensures r.Ok? ==> r.value == GraphOf(entries, rows) && Built(r.value, entries)
    ensures r.Ok? ==> r.value.nodes == set e | e in entries :: e.id
    ensures r.Ok? ==>
              forall x ::
                multiset(r.value.edges)[x] ==
                |RowsFor(r.value.nodes, rows, x)| +
                if x.relationType == "Supersedes" && x.weight == 1.0 && x.source in r.value.nodes
                then |PointersFor(entries, |entries|, x)| else 0
  {
    hide Follow, PointerCycle, ClosedPath, RowsFor, PointersFor;
    var nodes := AddNodes(entries);
    var edges := AddSupersedes(entries, nodes);
    edges := AddRows(rows, nodes, edges);
    var graph := TypedGraph(nodes, edges);
    assert graph == GraphOf(entries, rows);
    var temp := SupersedesPairs(graph);
    var cyclic := IsCyclicDirected(nodes, temp);
    AcyclicIsPointerFree(entries, rows);
    CycleIsClosedPath(entries);
    if cyclic {
      return Err(CycleDetected);
    }
    forall x ensures multiset(graph.edges)[x] == |RowsFor(nodes, rows, x)| + if PointerLike(entries, x) then |PointersFor(entries, |entries|, x)| else 0 {
      GraphEdgeCount(entries, rows, x);
    }
    return Ok(graph);
  }

  /** Pass 1: one node per entry. */
  method AddNodes(entries: seq<Entry>) returns (nodes: set<nat>)
    ensures nodes == Ids(entries)
  {
    nodes := {};
    for i := 0 to |entries|
      invariant nodes == Ids(entries[..i])
    {
      assert entries[..i + 1] == entries[..i] + [entries[i]];
      nodes := nodes + {entries[i].id};
    }
    assert entries[..|entries|] == entries;
  }

  /** Pass 2a: Supersedes edges come from the entries themselves. */
  method AddSupersedes(entries: seq<Entry>, nodes: set<nat>) returns (edges: seq<Edge>)
    requires nodes == Ids(entries)
    ensures edges == SupersedesEdges(entries, |entries|)
  {
    edges := [];
    for i := 0 to |entries|
      invariant edges == SupersedesEdges(entries, i)
    {
      if entries[i].supersedes.Some? && entries[i].supersedes.value in nodes {
        edges := edges + [Edge(entries[i].supersedes.value, entries[i].id, "Supersedes", 1.0)];
      }
    }
  }

  /** Pass 2b: every other edge comes from a row. */
  method AddRows(rows: seq<EdgeRow>, nodes: set<nat>, edges: seq<Edge>) returns (edges': seq<Edge>)
    ensures edges' == edges + RowEdges(nodes, rows)
    ensures forall x :: multiset(edges')[x] == multiset(edges)[x] + |RowsFor(nodes, rows, x)|
  {
    hide RelationType.FromStr, RowsFor;
    edges' := edges;
    for i := 0 to |rows|
      invariant edges' == edges + RowEdges(nodes, rows[..i])
    {
      assert rows[..i + 1][..i] == rows[..i];
      var row := rows[i];
      if row.bootstrapOnly {
        continue;
      }
      if row.relationType == "Supersedes" {
        continue;
      }
      if RelationType.FromStr(row.relationType).None? {
        continue;
      }
      if row.sourceId !in nodes {
        continue;
      }
      if row.targetId !in nodes {
        continue;
      }
      edges' := edges' + [Edge(row.sourceId, row.targetId, row.relationType, row.weight)];
    }
    assert rows[..|rows|] == rows;
    RowsCounted(edges, nodes, rows);
  }

  /** Pass 3, first half: a temporary graph of the Supersedes edges only. */
  method SupersedesPairs(g: TypedGraph) returns (temp: Relation)
    ensures temp == RelationOf(g, Supersedes)
  {
    temp := {};
    for i := 0 to |g.edges|
      invariant temp == set e | e in g.edges[..i] && e.relationType == "Supersedes" :: (e.source, e.target)
    {
      assert g.edges[..i + 1] == g.edges[..i] + [g.edges[i]];
      if g.edges[i].relationType == "Supersedes" {
        temp := temp + {(g.edges[i].source, g.edges[i].target)};
      }
    }
    assert g.edges[..|g.edges|] == g.edges;
  }
}
