/** Small datatypes and the one sorting routine shared by the graph readers. */
module Prelude {

  datatype Option<+T> = None | Some(value: T)

  datatype Result<+T, +E> = Ok(value: T) | Err(error: E)

  function Min(a: nat, b: nat): nat {
    if a <= b then a else b
  }

  /** The elements of a sequence, as a set. */
  function Elements<T>(s: seq<T>): set<T> {
    set x | x in s
  }

  ghost predicate Distinct<T>(s: seq<T>) {
    forall i, j :: 0 <= i < j < |s| ==> s[i] != s[j]
  }

  ghost predicate StrictlyAscending(s: seq<nat>) {
    forall i, j :: 0 <= i < j < |s| ==> s[i] < s[j]
  }

  /** A sequence without repetition has as many positions as elements. */
  lemma {:induction false} DistinctCardinality<T>(s: seq<T>)
    requires Distinct(s)
    ensures |Elements(s)| == |s|
  {
    if s == [] {
    } else {
      var rest := s[1..];
      DistinctCardinality(rest);
      assert Elements(s) == {s[0]} + Elements(rest);
      assert s[0] !in rest;
    }
  }

  /** Two strictly ascending sequences over the same elements are the same sequence. */
  lemma {:induction false} AscendingUnique(a: seq<nat>, b: seq<nat>)
    requires StrictlyAscending(a) && StrictlyAscending(b)
    requires Elements(a) == Elements(b)
    ensures a == b
  {
    assert b != [] ==> b[0] in Elements(b);
    if a == [] {
    } else {
      assert a[0] in Elements(b);
      assert b[0] in Elements(a);
      assert a[0] == b[0];
      forall x ensures x in Elements(a[1..]) <==> x in Elements(a) && x != a[0] {
        assert x in Elements(a) && x != a[0] ==> x in a[1..];
      }
      forall x ensures x in Elements(b[1..]) <==> x in Elements(b) && x != b[0] {
        assert x in Elements(b) && x != b[0] ==> x in b[1..];
      }
      AscendingUnique(a[1..], b[1..]);
    }
  }

  /** `sort_unstable` followed by `dedup`: the ascending enumeration of the elements. */
  method SortDedup(xs: seq<nat>) returns (sorted: seq<nat>)
    ensures StrictlyAscending(sorted)
    ensures Elements(sorted) == Elements(xs)
  {
    sorted := [];
    for i := 0 to |xs|
      invariant StrictlyAscending(sorted)
      invariant Elements(sorted) == Elements(xs[..i])
    {
      assert xs[..i + 1] == xs[..i] + [xs[i]];
      ElementsSnoc(xs[..i], xs[i]);
      sorted := Insert(sorted, xs[i]);
    }
    assert xs[..|xs|] == xs;
  }

  /** Puts a number in its place in an ascending sequence, unless it is there already. */
  method Insert(sorted: seq<nat>, x: nat) returns (sorted': seq<nat>)
    requires StrictlyAscending(sorted)
    ensures StrictlyAscending(sorted') && Elements(sorted') == Elements(sorted) + {x}
  {
    var k := 0;
    while k < |sorted| && sorted[k] < x
      invariant 0 <= k <= |sorted|
      invariant forall j :: 0 <= j < k ==> sorted[j] < x
    {
      k := k + 1;
    }
    if k < |sorted| && sorted[k] == x {
      sorted' := sorted;
    } else {
      sorted' := sorted[..k] + [x] + sorted[k..];
      SplitElements(sorted, k, x);
    }
  }

  lemma SplitElements<T>(s: seq<T>, k: nat, x: T)
    requires k <= |s|
    ensures Elements(s[..k] + [x] + s[k..]) == Elements(s) + {x}
  {
  }

  /** The members that satisfy a test, in their original order. */
  function Filter<T>(s: seq<T>, keep: T -> bool): seq<T> {
    if s == [] then []
    else (if keep(s[0]) then [s[0]] else []) + Filter(s[1..], keep)
  }

  lemma {:induction false} FilterMember<T>(s: seq<T>, keep: T -> bool)
    ensures forall x :: x in Filter(s, keep) <==> x in s && keep(x)
  {
    if s == [] {
    } else {
      FilterMember(s[1..], keep);
      assert s == [s[0]] + s[1..];
    }
  }

  lemma {:induction false} FilterAppend<T>(a: seq<T>, b: seq<T>, keep: T -> bool)
    ensures Filter(a + b, keep) == Filter(a, keep) + Filter(b, keep)
  {
    if a == [] {
      assert a + b == b;
    } else {
      var head := if keep(a[0]) then [a[0]] else [];
      assert (a + b)[1..] == a[1..] + b;
      FilterAppend(a[1..], b, keep);
      assert head + (Filter(a[1..], keep) + Filter(b, keep)) == (head + Filter(a[1..], keep)) + Filter(b, keep);
    }
  }

  lemma {:induction false} FilterCount<T>(s: seq<T>, keep: T -> bool, x: T)
    ensures multiset(Filter(s, keep))[x] == if keep(x) then multiset(s)[x] else 0
  {
    if s != [] {
      FilterCount(s[1..], keep, x);
      assert s == [s[0]] + s[1..];
      CountAppend([s[0]], s[1..], x);
      CountAppend(if keep(s[0]) then [s[0]] else [], Filter(s[1..], keep), x);
    }
  }

  lemma {:induction false} FilterNone<T>(s: seq<T>, keep: T -> bool)
    requires forall x :: x in s ==> !keep(x)
    ensures Filter(s, keep) == []
  {
    if s == [] {
    } else {
      FilterNone(s[1..], keep);
    }
  }

  lemma CountAppend<T>(a: seq<T>, b: seq<T>, x: T)
    ensures multiset(a + b)[x] == multiset(a)[x] + multiset(b)[x]
  {
  }

  lemma AppendAssociative<T>(a: seq<T>, b: seq<T>, c: seq<T>)
    ensures a + (b + c) == (a + b) + c
  {
  }

  lemma ElementsSnoc<T>(s: seq<T>, x: T)
    ensures Elements(s + [x]) == Elements(s) + {x}
  {
  }

  lemma ElementsEmpty<T>(s: seq<T>)
    ensures Elements(s) == {} ==> s == []
  {
    if s != [] {
      assert s[0] in Elements(s);
    }
  }
}
