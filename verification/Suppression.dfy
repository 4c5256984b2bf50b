/**
 Contradiction suppression (crates/unimatrix-engine/src/graph_suppression.rs): of
 two ranked results joined by a Contradicts edge, the lower-ranked one is dropped.
 */
module Suppression {
  import opened Prelude
  import opened Hops
  import opened RelationGraph

  /** Joined by a Contradicts edge in either direction. */
  predicate Conflict(r: Relation, a: nat, b: nat) {
    (a, b) in r || (b, a) in r
  }

  /** The least index from `from` on, below `j`, whose entry conflicts with entry `j`. */
  ghost function FirstConflict(r: Relation, ids: seq<nat>, j: nat, from: nat): Option<nat>
    requires from <= j < |ids|
    decreases j - from
  {
    if from == j then None
    else if Conflict(r, ids[from], ids[j]) then Some(from)
    else FirstConflict(r, ids, j, from + 1)
  }

  /** The entry that suppresses entry `j`: its highest-ranked contradictor, whether or not that one is kept. */
  ghost function SuppressedBy(r: Relation, ids: seq<nat>, j: nat): Option<nat>
    requires j < |ids|
  {
    FirstConflictIsLeast(r, ids, j, 0);
    match FirstConflict(r, ids, j, 0)
    case None => None
    case Some(i) => Some(ids[i])
  }

  /** No index conflicts exactly when there is no first one. */
  lemma {:induction false} FirstConflictNone(r: Relation, ids: seq<nat>, j: nat, from: nat)
    requires from <= j < |ids|
    ensures FirstConflict(r, ids, j, from).None? <==> forall i :: from <= i < j ==> !Conflict(r, ids[i], ids[j])
    decreases j - from
  {
    hide Conflict;
    if from < j && !Conflict(r, ids[from], ids[j]) {
      FirstConflictNone(r, ids, j, from + 1);
    }
  }

  /** A first conflict is a conflict with nothing in conflict before it. */
  lemma {:induction false} FirstConflictSome(r: Relation, ids: seq<nat>, j: nat, from: nat)
    requires from <= j < |ids| && FirstConflict(r, ids, j, from).Some?
    ensures var i := FirstConflict(r, ids, j, from).value;
            && from <= i < j && Conflict(r, ids[i], ids[j])
            && forall k :: from <= k < i ==> !Conflict(r, ids[k], ids[j])
    decreases j - from
  {
    hide Conflict;
    if from < j && !Conflict(r, ids[from], ids[j]) {
      FirstConflictSome(r, ids, j, from + 1);
    }
  }

  /** The first conflict is absent exactly when there is none, and is otherwise the one index that is least. */
  lemma FirstConflictIsLeast(r: Relation, ids: seq<nat>, j: nat, from: nat)
    requires from <= j < |ids|
    ensures var c := FirstConflict(r, ids, j, from);
            && (c.None? <==> forall i :: from <= i < j ==> !Conflict(r, ids[i], ids[j]))
            && (forall i: nat :: c == Some(i) <==>
                 && from <= i < j && Conflict(r, ids[i], ids[j])
                 && forall k :: from <= k < i ==> !Conflict(r, ids[k], ids[j]))
  {
    hide Conflict, FirstConflict;
    FirstConflictNone(r, ids, j, from);
    if FirstConflict(r, ids, j, from).Some? {
      FirstConflictSome(r, ids, j, from);
    }
  }

  /** Entry `i` is the highest-ranked one in conflict with entry `j`. */
  ghost predicate IsFirstConflict(r: Relation, ids: seq<nat>, i: nat, j: nat)
    requires j < |ids|
  {
    i < j && Conflict(r, ids[i], ids[j]) && forall k :: 0 <= k < i ==> !Conflict(r, ids[k], ids[j])
  }

  /** A suppressed entry is blamed on the highest-ranked entry in conflict with it. */
  lemma SuppressedByIff(r: Relation, ids: seq<nat>, j: nat)
    requires j < |ids|
    ensures forall x :: SuppressedBy(r, ids, j) == Some(x) <==> exists i: nat :: IsFirstConflict(r, ids, i, j) && x == ids[i]
    ensures SuppressedBy(r, ids, j).None? <==> forall i :: 0 <= i < j ==> !Conflict(r, ids[i], ids[j])
  {
    hide Conflict, FirstConflict;
    FirstConflictIsLeast(r, ids, j, 0);
    forall i: nat ensures FirstConflict(r, ids, j, 0) == Some(i) <==> IsFirstConflict(r, ids, i, j) {
    }
    var c := FirstConflict(r, ids, j, 0);
    if c.Some? {
      assert IsFirstConflict(r, ids, c.value, j);
    }
  }

  /** A Contradicts edge joins `a` and `b`, in one direction or the other. */
  ghost predicate Contradicted(g: TypedGraph, a: nat, b: nat) {
    exists e :: e in g.edges && e.relationType == "Contradicts"
                && ((e.source == a && e.target == b) || (e.source == b && e.target == a))
  }

  lemma ConflictIff(g: TypedGraph, a: nat, b: nat)
    ensures Conflict(RelationOf(g, Contradicts), a, b) <==> Contradicted(g, a, b)
  {
    var r := RelationOf(g, Contradicts);
    if e :| e in g.edges && e.relationType == "Contradicts"
            && ((e.source == a && e.target == b) || (e.source == b && e.target == a)) {
      assert (e.source, e.target) in r;
    }
  }

  /** Entry `i` of the ranking is the highest-ranked one that contradicts entry `j`. */
  ghost predicate FirstContradictor(g: TypedGraph, ids: seq<nat>, i: nat, j: nat)
    requires j < |ids|
  {
    i < j && Contradicted(g, ids[i], ids[j]) && forall k :: 0 <= k < i ==> !Contradicted(g, ids[k], ids[j])
  }

  lemma VerdictIff(g: TypedGraph, ids: seq<nat>, j: nat)
    requires j < |ids|
    ensures var verdict := SuppressedBy(RelationOf(g, Contradicts), ids, j);
            && (verdict.None? <==> forall i :: 0 <= i < j ==> !Contradicted(g, ids[i], ids[j]))
            && (forall x :: verdict == Some(x) <==> exists i: nat :: FirstContradictor(g, ids, i, j) && x == ids[i])
  {
    hide Conflict, Contradicted, SuppressedBy;
    var r := RelationOf(g, Contradicts);
    SuppressedByIff(r, ids, j);
    forall i | 0 <= i < j ensures Conflict(r, ids[i], ids[j]) <==> Contradicted(g, ids[i], ids[j]) {
      ConflictIff(g, ids[i], ids[j]);
    }
    forall i: nat ensures IsFirstConflict(r, ids, i, j) <==> FirstContradictor(g, ids, i, j) {
    }
  }

  /** The entries joined to `id` by a Contradicts edge, in either direction. */
  method ContradictsNeighbours(g: TypedGraph, id: nat) returns (neighbours: set<nat>)
    ensures forall x :: x in neighbours <==> Conflict(RelationOf(g, Contradicts), id, x)
  {
    var outgoing := g.EdgesOfType(id, Contradicts, Outgoing);
    var incoming := g.EdgesOfType(id, Contradicts, Incoming);
    neighbours := (set e | e in outgoing :: e.target) + (set e | e in incoming :: e.source);
    EdgesOfTypeMember(g, id, Contradicts, Outgoing);
    EdgesOfTypeMember(g, id, Contradicts, Incoming);
    ghost var r := RelationOf(g, Contradicts);
    forall x | (id, x) in r ensures x in neighbours {
      var e :| e in g.edges && e.relationType == Contradicts.AsStr() && e.source == id && e.target == x;
      assert e in outgoing;
    }
    forall x | (x, id) in r ensures x in neighbours {
      var e :| e in g.edges && e.relationType == Contradicts.AsStr() && e.source == x && e.target == id;
      assert e in incoming;
    }
    forall x | x in neighbours ensures Conflict(r, id, x) {
      if e :| e in outgoing && e.target == x {
        assert (id, x) in r;
      } else {
        var e :| e in incoming && e.source == x;
        assert (x, id) in r;
      }
    }
  }

  ghost predicate SuppressedSoFar(r: Relation, ids: seq<nat>, keep: bool, blame: Option<nat>, i: nat, j: nat)
    requires i <= |ids| && j < |ids|
  {
    if exists k :: 0 <= k < i && k < j && Conflict(r, ids[k], ids[j])
    then !keep && exists k: nat :: IsFirstConflict(r, ids, k, j) && blame == Some(ids[k])
    else keep && blame == None
  }

  /** The rank-ordered double loop over a mask and its explanations, both filled in place. */
  method SuppressContradicts(ids: seq<nat>, g: TypedGraph) returns (keepMask: seq<bool>, contradicting: seq<Option<nat>>)
    requires g.Valid()
    ensures |keepMask| == |contradicting| == |ids|
    ensures forall j :: 0 <= j < |ids| ==> contradicting[j] == SuppressedBy(RelationOf(g, Contradicts), ids, j)
    ensures forall j :: 0 <= j < |ids| ==> (keepMask[j] <==> contradicting[j].None?)
    ensures forall j :: 0 <= j < |ids| ==> (keepMask[j] <==> forall i :: 0 <= i < j ==> !Contradicted(g, ids[i], ids[j]))
    ensures forall j, x :: 0 <= j < |ids| ==>
              (contradicting[j] == Some(x) <==> exists i: nat :: FirstContradictor(g, ids, i, j) && x == ids[i])
  {
    hide SuppressedSoFar, Contradicted, SuppressedBy;
    ghost var r := RelationOf(g, Contradicts);
    var n := |ids|;
    var keep := new bool[n](_ => true);
    var blame := new Option<nat>[n](_ => None);
    forall j | 0 <= j < n ensures SuppressedSoFar(r, ids, keep[j], blame[j], 0, j) {
      NothingYet(r, ids, j);
    }
    for i := 0 to n
      invariant forall j :: 0 <= j < n ==> SuppressedSoFar(r, ids, keep[j], blame[j], i, j)
    {
      var id := ids[i];
      if id !in g.nodes {
        NoConflictOutside(g, ids, i);
        NoConflictHere(r, ids, keep[..], blame[..], i);
        continue;
      }
      var neighbours := ContradictsNeighbours(g, id);
      if neighbours == {} {
        NoConflictHere(r, ids, keep[..], blame[..], i);
        continue;
      }
      SuppressBelow(ids, i, neighbours, keep, blame, r);
    }
    keepMask, contradicting := keep[..], blame[..];
    forall j | 0 <= j < n
      ensures contradicting[j] == SuppressedBy(r, ids, j) && (keepMask[j] <==> contradicting[j].None?)
    {
      assert SuppressedSoFar(r, ids, keep[j], blame[j], n, j);
      AllSeen(r, ids, keep[j], blame[j], n, j);
      VerdictIff(g, ids, j);
    }
    forall j | 0 <= j < n
      ensures keepMask[j] <==> forall i :: 0 <= i < j ==> !Contradicted(g, ids[i], ids[j])
      ensures forall x :: contradicting[j] == Some(x) <==> exists i: nat :: FirstContradictor(g, ids, i, j) && x == ids[i]
    {
      VerdictIff(g, ids, j);
    }
  }

  lemma NothingYet(r: Relation, ids: seq<nat>, j: nat)
    requires j < |ids|
    ensures SuppressedSoFar(r, ids, true, None, 0, j)
  {
  }

  lemma NoConflictHere(r: Relation, ids: seq<nat>, keep: seq<bool>, blame: seq<Option<nat>>, i: nat)
    requires |keep| == |blame| == |ids| && i < |ids|
    requires forall j :: 0 <= j < |ids| ==> !Conflict(r, ids[i], ids[j])
    requires forall j :: 0 <= j < |ids| ==> SuppressedSoFar(r, ids, keep[j], blame[j], i, j)
    ensures forall j :: 0 <= j < |ids| ==> SuppressedSoFar(r, ids, keep[j], blame[j], i + 1, j)
  {
    hide Conflict, IsFirstConflict;
    forall j | 0 <= j < |ids| ensures SuppressedSoFar(r, ids, keep[j], blame[j], i + 1, j) {
      assert SuppressedSoFar(r, ids, keep[j], blame[j], i, j);
    }
  }

  lemma AllSeen(r: Relation, ids: seq<nat>, keep: bool, blame: Option<nat>, i: nat, j: nat)
    requires j < |ids| && j <= i <= |ids| && SuppressedSoFar(r, ids, keep, blame, i, j)
    ensures blame == SuppressedBy(r, ids, j) && (keep <==> blame.None?)
  {
    hide Conflict, SuppressedBy;
    SuppressedByIff(r, ids, j);
  }

  lemma NoConflictOutside(g: TypedGraph, ids: seq<nat>, i: nat)
    requires g.Valid() && i < |ids| && ids[i] !in g.nodes
    ensures forall j :: 0 <= j < |ids| ==> !Conflict(RelationOf(g, Contradicts), ids[i], ids[j])
  {
  }

  /** The inner loop: drops the lower-ranked entries that conflict with entry `i` and are still kept. */
  method SuppressBelow(
    ids: seq<nat>, i: nat, neighbours: set<nat>, keep: array<bool>, blame: array<Option<nat>>, ghost r: Relation)
    requires keep.Length == blame.Length == |ids| && i < |ids|
    requires forall x :: x in neighbours <==> Conflict(r, ids[i], x)
    requires forall j :: 0 <= j < |ids| ==> SuppressedSoFar(r, ids, keep[j], blame[j], i, j)
    modifies keep, blame
    ensures forall j :: 0 <= j < |ids| ==> SuppressedSoFar(r, ids, keep[j], blame[j], i + 1, j)
  {
    for j := i + 1 to |ids|
      invariant forall k :: 0 <= k < |ids| ==> SuppressedSoFar(r, ids, keep[k], blame[k], if k < j then i + 1 else i, k)
    {
      assert SuppressedSoFar(r, ids, keep[j], blame[j], i, j);
      if keep[j] && ids[j] in neighbours {
        keep[j] := false;
        blame[j] := Some(ids[i]);
        assert IsFirstConflict(r, ids, i, j);
      }
      assert SuppressedSoFar(r, ids, keep[j], blame[j], i + 1, j);
    }
  }

  // ----- consequences -----

  /** Whatever is kept is free of conflicts. */
  lemma KeptAreConflictFree(r: Relation, ids: seq<nat>, i: nat, j: nat)
    requires i < |ids| && j < |ids| && i != j
    requires SuppressedBy(r, ids, i).None? && SuppressedBy(r, ids, j).None?
    ensures !Conflict(r, ids[i], ids[j])
  {
    FirstConflictIsLeast(r, ids, i, 0);
    FirstConflictIsLeast(r, ids, j, 0);
  }

  /** Lower-ranked results never change the verdict on higher-ranked ones. */
  lemma PrefixVerdict(r: Relation, ids: seq<nat>, n: nat, j: nat)
    requires j < n <= |ids|
    ensures SuppressedBy(r, ids[..n], j) == SuppressedBy(r, ids, j)
  {
    FirstConflictIsLeast(r, ids[..n], j, 0);
    FirstConflictIsLeast(r, ids, j, 0);
    var c := FirstConflict(r, ids, j, 0);
    if c.Some? {
      assert FirstConflict(r, ids[..n], j, 0) == Some(c.value);
    }
  }

  /** Only which pairs conflict matters. */
  lemma SameConflicts(r: Relation, r': Relation, ids: seq<nat>, j: nat)
    requires j < |ids| && forall a, b :: Conflict(r, a, b) <==> Conflict(r', a, b)
    ensures SuppressedBy(r', ids, j) == SuppressedBy(r, ids, j)
  {
    hide Conflict;
    FirstConflictIsLeast(r', ids, j, 0);
    FirstConflictIsLeast(r, ids, j, 0);
    var c := FirstConflict(r, ids, j, 0);
    if c.Some? {
      assert FirstConflict(r', ids, j, 0) == Some(c.value);
    }
  }

  /** The same edge, or the same contradiction recorded the other way round. */
  predicate SameOrTurned(e: Edge, e': Edge) {
    e' == e || (e.relationType == Contradicts.AsStr() && e' == e.(source := e.target, target := e.source))
  }

  /** The direction in which a contradiction was recorded does not matter, edge by edge. */
  lemma DirectionIrrelevant(g: TypedGraph, g': TypedGraph, ids: seq<nat>, j: nat)
    requires |g.edges| == |g'.edges| && forall i :: 0 <= i < |g.edges| ==> SameOrTurned(g.edges[i], g'.edges[i])
    requires j < |ids|
    ensures SuppressedBy(RelationOf(g', Contradicts), ids, j) == SuppressedBy(RelationOf(g, Contradicts), ids, j)
  {
    var r, r' := RelationOf(g, Contradicts), RelationOf(g', Contradicts);
    forall a, b ensures Conflict(r, a, b) <==> Conflict(r', a, b) {
      TurnedConflict(g, g', a, b);
      TurnedConflict(g, g', b, a);
      TurnedConflict(g', g, a, b);
      TurnedConflict(g', g, b, a);
    }
    SameConflicts(r, r', ids, j);
  }

  lemma TurnedConflict(g: TypedGraph, g': TypedGraph, a: nat, b: nat)
    requires |g.edges| == |g'.edges| && forall i :: 0 <= i < |g.edges| ==> SameOrTurned(g.edges[i], g'.edges[i])
    ensures (a, b) in RelationOf(g, Contradicts) ==> Conflict(RelationOf(g', Contradicts), a, b)
  {
    if (a, b) in RelationOf(g, Contradicts) {
      var i :| 0 <= i < |g.edges| && g.edges[i].relationType == Contradicts.AsStr() && (g.edges[i].source, g.edges[i].target) == (a, b);
      assert g'.edges[i] in g'.edges;
    }
  }
}
