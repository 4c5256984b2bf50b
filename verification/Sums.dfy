/** Finite sums over the reals. */
module Sums {
  import opened Reals

  function Sum(n: nat, f: int -> real): real {
    if n == 0 then 0.0 else Sum(n - 1, f) + f(n - 1)
  }

  lemma {:induction false} SumSame(n: nat, f: int -> real, g: int -> real)
    requires forall i :: 0 <= i < n ==> f(i) == g(i)
    ensures Sum(n, f) == Sum(n, g)
  {
    if n > 0 {
      SumSame(n - 1, f, g);
    }
  }

  lemma {:induction false} SumAdd(n: nat, f: int -> real, g: int -> real, h: int -> real)
    requires forall i :: 0 <= i < n ==> h(i) == f(i) + g(i)
    ensures Sum(n, h) == Sum(n, f) + Sum(n, g)
  {
    if n > 0 {
      SumAdd(n - 1, f, g, h);
    }
  }

  lemma {:induction false} SumScale(n: nat, c: real, f: int -> real, h: int -> real)
    requires forall i :: 0 <= i < n ==> h(i) == Times(c, f(i))
    ensures Sum(n, h) == Times(c, Sum(n, f))
  {
    if n > 0 {
      SumScale(n - 1, c, f, h);
    }
  }

  function RowSums(m: nat, f: (int, int) -> real): int -> real {
    i => Sum(m, j => f(i, j))
  }

  function ColumnSums(n: nat, f: (int, int) -> real): int -> real {
    j => Sum(n, i => f(i, j))
  }

  lemma {:induction false} SumZero(n: nat, f: int -> real)
    requires forall i :: 0 <= i < n ==> f(i) == 0.0
    ensures Sum(n, f) == 0.0
  {
    if n > 0 {
      SumZero(n - 1, f);
    }
  }

  /** A double sum may be taken in either order. */
  lemma {:induction false} SumSwap(n: nat, m: nat, f: (int, int) -> real)
    ensures Sum(n, RowSums(m, f)) == Sum(m, ColumnSums(n, f))
    decreases n
  {
    if n == 0 {
      SumZero(m, ColumnSums(0, f));
    } else {
      SumSwap(n - 1, m, f);
      SumAdd(m, ColumnSums(n - 1, f), j => f(n - 1, j), ColumnSums(n, f));
    }
  }

  /** The sum of a function over a sequence. */
  function SeqSum<T>(s: seq<T>, f: T -> real): real {
    if s == [] then 0.0 else SeqSum(s[..|s| - 1], f) + f(s[|s| - 1])
  }

  lemma OneTerm<T>(x: T, f: T -> real)
    ensures SeqSum([x], f) == f(x)
  {
    assert [x][..0] == [];
  }

  lemma {:induction false} SeqSumAppend<T>(a: seq<T>, b: seq<T>, f: T -> real)
    ensures SeqSum(a + b, f) == SeqSum(a, f) + SeqSum(b, f)
  {
    if b == [] {
      assert a + b == a;
    } else {
      assert (a + b)[..|a + b| - 1] == a + b[..|b| - 1];
      SeqSumAppend(a, b[..|b| - 1], f);
    }
  }

  /** Taking one occurrence of an element out of a sequence. */
  lemma Extract<T>(s: seq<T>, x: T) returns (before: seq<T>, after: seq<T>)
    requires x in multiset(s)
    ensures s == before + [x] + after && multiset(before + after) == multiset(s) - multiset{x}
  {
    var i :| 0 <= i < |s| && s[i] == x;
    before, after := s[..i], s[i + 1..];
    assert s == before + [x] + after;
  }

  lemma SumAround<T>(before: seq<T>, x: T, after: seq<T>, f: T -> real)
    ensures SeqSum(before + [x] + after, f) == SeqSum(before + after, f) + f(x)
  {
    SeqSumAppend(before + [x], after, f);
    SeqSumAppend(before, [x], f);
    SeqSumAppend(before, after, f);
    assert [x][..0] == [];
  }

  /** A sum does not depend on the order of its terms. */
  lemma {:induction false} SumPermutation<T>(a: seq<T>, b: seq<T>, f: T -> real)
    requires multiset(a) == multiset(b)
    ensures SeqSum(a, f) == SeqSum(b, f)
  {
    if a == [] {
      assert |multiset(b)| == 0;
    } else {
      var n := |a| - 1;
      assert a == a[..n] + [a[n]];
      assert a[n] in multiset(a);
      var before, after := Extract(b, a[n]);
      SumPermutation(a[..n], before + after, f);
      SumAround(before, a[n], after, f);
    }
  }
}
