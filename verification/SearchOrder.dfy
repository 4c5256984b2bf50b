/**
 The order in which a breadth-first search finds nodes, described without the search:
 by the position of the first listed predecessor, and by id among the successors of one
 predecessor. There is only one such order.
 */
module SearchOrder {
  import opened Prelude
  import opened Hops

  /** `l[p]` is the first node of `l` with an edge to `v`. */
  ghost predicate FirstFrom(r: Relation, l: seq<nat>, v: nat, p: nat) {
    p < |l| && (l[p], v) in r && forall q :: 0 <= q < p ==> (l[q], v) !in r
  }

  /** Among the first `n` nodes of `l`, from `low` on, lies the first one with an edge to `v`. */
  ghost predicate ParentBefore(r: Relation, l: seq<nat>, v: nat, low: nat, n: nat) {
    exists p: nat :: low <= p < n && FirstFrom(r, l, v, p)
  }

  /** A node is listed earlier if its first predecessor is, or if it has the same one and a smaller id. */
  ghost predicate Earlier(r: Relation, l: seq<nat>, x: nat, y: nat) {
    forall p: nat, q: nat :: FirstFrom(r, l, x, p) && FirstFrom(r, l, y, q) ==> p < q || (p == q && x < y)
  }

  /** Behind `l`, the nodes of `order` are listed by first predecessor and id, predecessors from position `low` on. */
  ghost predicate OrderedAfter(r: Relation, l: seq<nat>, low: nat, order: seq<nat>) {
    && (forall i :: 0 <= i < |order| ==> ParentBefore(r, l + order, order[i], low, |l| + i))
    && (forall i, j :: 0 <= i < j < |order| ==> Earlier(r, l + order, order[i], order[j]))
  }

  /** The nodes of `order` are listed behind `starts` by first predecessor and id. */
  ghost predicate ByFirstParent(r: Relation, starts: seq<nat>, order: seq<nat>) {
    OrderedAfter(r, starts, 0, order)
  }

  lemma FirstFromUnique(r: Relation, l: seq<nat>, v: nat, p: nat, q: nat)
    requires FirstFrom(r, l, v, p) && FirstFrom(r, l, v, q)
    ensures p == q
  {
  }

  lemma FirstFromPrefix(r: Relation, l: seq<nat>, l': seq<nat>, n: nat, v: nat, p: nat)
    requires n <= |l| && n <= |l'| && l[..n] == l'[..n] && p < n
    ensures FirstFrom(r, l, v, p) <==> FirstFrom(r, l', v, p)
  {
    assert forall q :: 0 <= q < n ==> l[q] == l[..n][q] == l'[q];
  }

  // ----- one step of the search -----

  /** Listing the unseen successors of `l[h]` by id, and then everything found behind them. */
  lemma OrderStep(r: Relation, l: seq<nat>, h: nat, found: seq<nat>, rest: seq<nat>)
    requires h < |l| && StrictlyAscending(found)
    requires forall v :: v in found ==> FirstFrom(r, l, v, h)
    requires OrderedAfter(r, l + found, h + 1, rest)
    ensures OrderedAfter(r, l, h, found + rest)
  {
    hide FirstFrom, Earlier, ParentBefore;
    var order := found + rest;
    var m := l + order;
    AppendAssociative(l, found, rest);
    forall v | v in found ensures FirstFrom(r, m, v, h) {
      assert m[..|l|] == l[..|l|];
      FirstFromPrefix(r, l, m, |l|, v, h);
    }
    forall i | 0 <= i < |order| ensures ParentBefore(r, m, order[i], h, |l| + i) {
      if i < |found| {
        ParentIs(r, m, order[i], h, |l| + i, h);
      } else {
        assert order[i] == rest[i - |found|];
        ParentBeforeWider(r, m, order[i], h, |l| + i);
      }
    }
    forall i, j | 0 <= i < j < |order| ensures Earlier(r, m, order[i], order[j]) {
      if j < |found| {
        SameParent(r, m, found[i], found[j], h);
      } else if i < |found| {
        assert order[j] == rest[j - |found|];
        LaterParent(r, m, found[i], order[j], h, |l| + j);
      } else {
        assert order[i] == rest[i - |found|] && order[j] == rest[j - |found|];
      }
    }
  }

  lemma ParentIs(r: Relation, l: seq<nat>, v: nat, low: nat, n: nat, p: nat)
    requires low <= p < n && FirstFrom(r, l, v, p)
    ensures ParentBefore(r, l, v, low, n)
  {
  }

  lemma ParentBeforeWider(r: Relation, l: seq<nat>, v: nat, low: nat, n: nat)
    requires ParentBefore(r, l, v, low + 1, n)
    ensures ParentBefore(r, l, v, low, n)
  {
  }

  lemma SameParent(r: Relation, l: seq<nat>, x: nat, y: nat, h: nat)
    requires FirstFrom(r, l, x, h) && FirstFrom(r, l, y, h) && x < y
    ensures Earlier(r, l, x, y)
  {
    forall p: nat, q: nat | FirstFrom(r, l, x, p) && FirstFrom(r, l, y, q) ensures p == q {
      FirstFromUnique(r, l, x, p, h);
      FirstFromUnique(r, l, y, q, h);
    }
  }

  lemma LaterParent(r: Relation, l: seq<nat>, x: nat, y: nat, h: nat, n: nat)
    requires FirstFrom(r, l, x, h) && ParentBefore(r, l, y, h + 1, n)
    ensures Earlier(r, l, x, y)
  {
    var k: nat :| h + 1 <= k < n && FirstFrom(r, l, y, k);
    forall p: nat, q: nat | FirstFrom(r, l, x, p) && FirstFrom(r, l, y, q) ensures p < q {
      FirstFromUnique(r, l, x, p, h);
      FirstFromUnique(r, l, y, q, k);
    }
  }

  /** Of two listed nodes with one first predecessor, the smaller id stands first. */
  lemma SmallerPlacedFirst(r: Relation, starts: seq<nat>, order: seq<nat>, i: nat, j: nat, p: nat)
    requires ByFirstParent(r, starts, order) && i < |order| && j < |order| && order[i] < order[j]
    requires FirstFrom(r, starts + order, order[i], p) && FirstFrom(r, starts + order, order[j], p)
    ensures i < j
  {
    hide FirstFrom;
    assert forall a, b :: 0 <= a < b < |order| ==> Earlier(r, starts + order, order[a], order[b]);
  }

  lemma NothingOrdered(r: Relation, l: seq<nat>, low: nat)
    ensures OrderedAfter(r, l, low, [])
  {
  }

  // ----- there is only one such order -----

  lemma SamePlace(r: Relation, starts: seq<nat>, a: seq<nat>, b: seq<nat>, i: nat)
    requires ByFirstParent(r, starts, a) && ByFirstParent(r, starts, b)
    requires Distinct(a) && Distinct(b) && Elements(a) == Elements(b)
    requires i < |a| && i < |b| && a[..i] == b[..i]
    ensures a[i] == b[i]
  {
    hide FirstFrom;
    var x, y, la, lb, n := a[i], b[i], starts + a, starts + b, |starts| + i;
    assert la[..n] == starts + a[..i] == lb[..n];
    assert ParentBefore(r, la, x, 0, n) && ParentBefore(r, lb, y, 0, n);
    var p: nat :| p < n && FirstFrom(r, la, x, p);
    var q: nat :| q < n && FirstFrom(r, lb, y, q);
    FirstFromPrefix(r, la, lb, n, x, p);
    FirstFromPrefix(r, la, lb, n, y, q);
    var j := FoundLater(a, b, i);
    var k := FoundLater(b, a, i);
    assert i < j ==> Earlier(r, la, a[i], a[j]);
    assert i < k ==> Earlier(r, lb, b[i], b[k]);
  }

  /** Where the next element of `b` stands in `a`. */
  lemma FoundLater(a: seq<nat>, b: seq<nat>, i: nat) returns (j: nat)
    requires Distinct(b) && Elements(a) == Elements(b) && i < |a| && i < |b| && a[..i] == b[..i]
    ensures i <= j < |a| && a[j] == b[i]
  {
    forall m | 0 <= m < i ensures a[m] == b[m] {
      assert a[..i][m] == b[..i][m];
    }
    assert b[i] in Elements(b);
    j :| j < |a| && a[j] == b[i];
  }

  lemma {:induction false} OrderAgrees(r: Relation, starts: seq<nat>, a: seq<nat>, b: seq<nat>, i: nat)
    requires ByFirstParent(r, starts, a) && ByFirstParent(r, starts, b)
    requires Distinct(a) && Distinct(b) && Elements(a) == Elements(b) && |a| == |b| && i <= |a|
    ensures a[..i] == b[..i]
  {
    hide ByFirstParent, Elements, Distinct;
    if i > 0 {
      OrderAgrees(r, starts, a, b, i - 1);
      SamePlace(r, starts, a, b, i - 1);
      assert a[..i] == a[..i - 1] + [a[i - 1]] && b[..i] == b[..i - 1] + [b[i - 1]];
    }
  }

  /** Two such orders of the same nodes are the same order. */
  lemma OrderUnique(r: Relation, starts: seq<nat>, a: seq<nat>, b: seq<nat>)
    requires ByFirstParent(r, starts, a) && ByFirstParent(r, starts, b)
    requires Distinct(a) && Distinct(b) && Elements(a) == Elements(b)
    ensures a == b
  {
    hide ByFirstParent, Elements, Distinct;
    DistinctCardinality(a);
    DistinctCardinality(b);
    OrderAgrees(r, starts, a, b, |a|);
    assert a[..|a|] == a && b[..|b|] == b;
  }
}
