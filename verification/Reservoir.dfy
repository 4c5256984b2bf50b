/**
 Reservoir sampling (crates/unimatrix-learn/src/reservoir.rs). The random number
 generator is represented by the draws it makes: one index per item that meets a
 full reservoir, anywhere below the number of items seen so far.
 */
module Reservoir {
  import opened Prelude

  /** The draws the generator may make while `n` items arrive at a reservoir holding `held` of `seen`. */
  predicate LegalDraws(capacity: nat, held: nat, seen: nat, n: nat, draws: seq<nat>)
    decreases n
  {
    if n == 0 then draws == []
    else if held < capacity then LegalDraws(capacity, held + 1, seen + 1, n - 1, draws)
    else |draws| > 0 && draws[0] < seen + 1 && LegalDraws(capacity, held, seen + 1, n - 1, draws[1..])
  }

  /** The reservoir after the items of `xs` have been offered in turn. */
  function Sampled<T>(items: seq<T>, capacity: nat, seen: nat, xs: seq<T>, draws: seq<nat>): (r: seq<T>)
    requires |items| == Min(capacity, seen) && LegalDraws(capacity, |items|, seen, |xs|, draws)
    ensures |r| == Min(capacity, seen + |xs|)
    decreases |xs|
  {
    if xs == [] then items
    else if |items| < capacity then Sampled(items + [xs[0]], capacity, seen + 1, xs[1..], draws)
    else
      Sampled(if draws[0] < capacity then items[draws[0] := xs[0]] else items, capacity, seen + 1, xs[1..], draws[1..])
  }

  class TrainingReservoir<T(0)> {
    var items: seq<T>
    const capacity: nat
    var totalSeen: nat

    ghost predicate Valid()
      reads this
    {
      |items| == Min(capacity, totalSeen)
    }

    constructor (capacity: nat)
      ensures Valid() && this.capacity == capacity && totalSeen == 0 && items == []
    {
      this.capacity := capacity;
      items := [];
      totalSeen := 0;
    }

    method Add(xs: seq<T>, draws: seq<nat>)
      requires Valid() && LegalDraws(capacity, |items|, totalSeen, |xs|, draws)
      modifies this
      ensures Valid() && totalSeen == old(totalSeen) + |xs|
      ensures items == Sampled(old(items), capacity, old(totalSeen), xs, draws)
    {
      var next := 0;
      for i := 0 to |xs|
        invariant Valid() && totalSeen == old(totalSeen) + i
        invariant next <= |draws| && LegalDraws(capacity, |items|, totalSeen, |xs| - i, draws[next..])
        invariant Sampled(items, capacity, totalSeen, xs[i..], draws[next..])
               == Sampled(old(items), capacity, old(totalSeen), xs, draws)
      {
        assert xs[i..][1..] == xs[i + 1..];
        totalSeen := totalSeen + 1;
        if |items| < capacity {
          items := items + [xs[i]];
        } else {
          var j := draws[next];
          assert draws[next..][1..] == draws[next + 1..];
          next := next + 1;
          if j < capacity {
            items := items[j := xs[i]];
          }
        }
      }
    }

    /** A batch drawn with replacement, no larger than the reservoir. */
    method SampleBatch(batchSize: nat, draws: seq<nat>) returns (batch: seq<T>)
      requires |draws| == Min(batchSize, |items|) && forall i :: 0 <= i < |draws| ==> draws[i] < |items|
      ensures |batch| == Min(batchSize, |items|)
      ensures forall i :: 0 <= i < |batch| ==> batch[i] == items[draws[i]]
    {
      var actual := Min(batchSize, |items|);
      batch := [];
      for i := 0 to actual
        invariant |batch| == i && forall k :: 0 <= k < i ==> batch[k] == items[draws[k]]
      {
        batch := batch + [items[draws[i]]];
      }
    }
  }

  // ----- batching does not matter -----

  lemma {:induction false} DrawsAppend(capacity: nat, held: nat, seen: nat, m: nat, n: nat, a: seq<nat>, b: seq<nat>)
    requires held == Min(capacity, seen)
    requires LegalDraws(capacity, held, seen, m, a) && LegalDraws(capacity, Min(capacity, seen + m), seen + m, n, b)
    ensures LegalDraws(capacity, held, seen, m + n, a + b)
    decreases m
  {
    if m == 0 {
      assert a + b == b;
    } else if held < capacity {
      DrawsAppend(capacity, held + 1, seen + 1, m - 1, n, a, b);
    } else {
      DrawsAppend(capacity, held, seen + 1, m - 1, n, a[1..], b);
      assert (a + b)[1..] == a[1..] + b;
    }
  }

  /** Adding two batches in turn is adding their concatenation. */
  lemma {:induction false} AddAppend<T>(
    items: seq<T>, capacity: nat, seen: nat, xs: seq<T>, ys: seq<T>, a: seq<nat>, b: seq<nat>)
    requires |items| == Min(capacity, seen)
    requires LegalDraws(capacity, |items|, seen, |xs|, a)
    requires LegalDraws(capacity, Min(capacity, seen + |xs|), seen + |xs|, |ys|, b)
    ensures LegalDraws(capacity, |items|, seen, |xs + ys|, a + b)
    ensures Sampled(Sampled(items, capacity, seen, xs, a), capacity, seen + |xs|, ys, b)
         == Sampled(items, capacity, seen, xs + ys, a + b)
    decreases |xs|
  {
    DrawsAppend(capacity, |items|, seen, |xs|, |ys|, a, b);
    if xs == [] {
      assert xs + ys == ys && a + b == b;
    } else {
      assert (xs + ys)[1..] == xs[1..] + ys;
      if |items| < capacity {
        AddAppend(items + [xs[0]], capacity, seen + 1, xs[1..], ys, a, b);
      } else {
        assert (a + b)[1..] == a[1..] + b;
        var items' := if a[0] < capacity then items[a[0] := xs[0]] else items;
        AddAppend(items', capacity, seen + 1, xs[1..], ys, a[1..], b);
      }
    }
  }

  // ----- which stream positions are held -----

  function Positions(n: nat): seq<nat> {
    seq(n, i => i)
  }

  /** All draw sequences the generator may make while `n` items arrive at an empty reservoir of size `k`. */
  ghost function AllDraws(k: nat, n: nat): set<seq<nat>> {
    if n <= k then {[]} else Extend(AllDraws(k, n - 1), Any(n))
  }

  /** The numbers below `n`. */
  ghost function Below(n: nat): (b: set<nat>)
    ensures forall j: nat :: j in b <==> j < n
    ensures |b| == n
  {
    if n == 0 then {} else Below(n - 1) + {n - 1}
  }

  /** Every index below `n`, whatever came before. */
  ghost function Any(n: nat): seq<nat> -> set<nat> {
    _ => Below(n)
  }

  /** Every member of `a` followed by every continuation `next` allows it. */
  ghost function Extend(a: set<seq<nat>>, next: seq<nat> -> set<nat>): set<seq<nat>> {
    set ds, j | ds in a && j in next(ds) :: ds + [j]
  }

  lemma ExtendMember(a: set<seq<nat>>, next: seq<nat> -> set<nat>, x: seq<nat>)
    ensures x in Extend(a, next) <==> |x| > 0 && x[..|x| - 1] in a && x[|x| - 1] in next(x[..|x| - 1])
  {
    if x in Extend(a, next) {
      var ds, j :| ds in a && j in next(ds) && x == ds + [j];
      assert x[..|x| - 1] == ds;
    }
    if |x| > 0 {
      assert x == x[..|x| - 1] + [x[|x| - 1]];
    }
  }

  lemma Snoc(ds: seq<nat>, j: nat)
    ensures (ds + [j])[..|ds + [j]| - 1] == ds && (ds + [j])[|ds + [j]| - 1] == j
  {
  }

  /** The stream positions held after `n` items. */
  ghost function Held(k: nat, n: nat, draws: seq<nat>): seq<nat> {
    if n <= k then Positions(n)
    else if draws == [] then []
    else
      var before, j := Held(k, n - 1, draws[..|draws| - 1]), draws[|draws| - 1];
      if j < |before| then before[j := n - 1] else before
  }

  lemma LastDraw(k: nat, n: nat, draws: seq<nat>)
    requires n > k && draws in AllDraws(k, n)
    ensures |draws| > 0 && draws[|draws| - 1] < n && draws[..|draws| - 1] in AllDraws(k, n - 1)
  {
  }

  lemma MoreDraws(k: nat, n: nat, ds: seq<nat>, j: nat)
    requires n > k && ds in AllDraws(k, n - 1) && j < n
    ensures ds + [j] in AllDraws(k, n)
  {
  }

  ghost predicate AllBelow(s: seq<nat>, x: nat) {
    forall p :: p in s ==> p < x
  }

  /** As many positions as fit are held, all distinct and all from the stream. */
  lemma {:induction false} HeldDistinct(k: nat, n: nat, draws: seq<nat>)
    requires draws in AllDraws(k, n)
    ensures |Held(k, n, draws)| == Min(k, n)
    ensures Distinct(Held(k, n, draws)) && AllBelow(Held(k, n, draws), n)
  {
    hide AllDraws;
    if n > k {
      LastDraw(k, n, draws);
      var before := Held(k, n - 1, draws[..|draws| - 1]);
      HeldDistinct(k, n - 1, draws[..|draws| - 1]);
      ReplaceKeepsDistinct(before, draws[|draws| - 1], n - 1);
    }
  }

  lemma ReplaceKeepsDistinct(s: seq<nat>, j: nat, x: nat)
    requires Distinct(s) && AllBelow(s, x)
    ensures j < |s| ==> Distinct(s[j := x]) && AllBelow(s[j := x], x + 1)
  {
    assert forall i :: 0 <= i < |s| ==> s[i] in s;
  }

  /** The generator's legal draws are exactly the counted ones. */
  lemma {:induction false} AllDrawsAreLegal(k: nat, n: nat, draws: seq<nat>)
    ensures draws in AllDraws(k, n) <==> LegalDraws(k, 0, 0, n, draws)
  {
    hide AllDraws, LegalDraws;
    if n <= k {
      FillingDraws(k, 0, n, draws);
      NoDrawsYet(k, n);
    } else {
      if draws in AllDraws(k, n) {
        LastDraw(k, n, draws);
        var m := |draws| - 1;
        AllDrawsAreLegal(k, n - 1, draws[..m]);
        OneMoreLegal(k, n - 1, draws[..m], draws[m]);
        assert draws == draws[..m] + [draws[m]];
      }
      if LegalDraws(k, 0, 0, n, draws) {
        LegalSnoc(k, 0, 0, n, draws);
        var m := |draws| - 1;
        AllDrawsAreLegal(k, n - 1, draws[..m]);
        MoreDraws(k, n, draws[..m], draws[m]);
        assert draws == draws[..m] + [draws[m]];
      }
    }
  }

  lemma NoDrawsYet(k: nat, n: nat)
    requires n <= k
    ensures AllDraws(k, n) == {[]}
  {
  }

  lemma OneMoreLegal(k: nat, n: nat, ds: seq<nat>, j: nat)
    requires k <= n && LegalDraws(k, 0, 0, n, ds) && j < n + 1
    ensures LegalDraws(k, Min(k, n), n, 1, [j]) && LegalDraws(k, 0, 0, n + 1, ds + [j])
  {
    assert [j][1..] == [];
    DrawsAppend(k, 0, 0, n, 1, ds, [j]);
  }

  lemma {:induction false} FillingDraws(k: nat, held: nat, n: nat, draws: seq<nat>)
    requires held + n <= k
    ensures LegalDraws(k, held, held, n, draws) <==> draws == []
    decreases n
  {
    if n > 0 {
      FillingDraws(k, held + 1, n - 1, draws);
    }
  }

  lemma {:induction false} LegalSnoc(k: nat, held: nat, seen: nat, n: nat, draws: seq<nat>)
    requires held == Min(k, seen) && seen + n > k && n > 0 && LegalDraws(k, held, seen, n, draws)
    ensures |draws| > 0 && draws[|draws| - 1] < seen + n && LegalDraws(k, held, seen, n - 1, draws[..|draws| - 1])
    decreases n
  {
    if n == 1 {
    } else if held < k {
      LegalSnoc(k, held + 1, seen + 1, n - 1, draws);
    } else {
      LegalSnoc(k, held, seen + 1, n - 1, draws[1..]);
      var m := |draws| - 1;
      assert draws[1..][..m - 1] == draws[..m][1..];
      assert draws[1..][m - 1] == draws[m];
    }
  }

  /** What a reservoir of items holds: the stream read at the held positions. */
  lemma {:induction false} SampledIsHeld<T>(k: nat, xs: seq<T>, draws: seq<nat>)
    requires draws in AllDraws(k, |xs|) && LegalDraws(k, 0, 0, |xs|, draws)
    ensures var (items, held) := (Sampled([], k, 0, xs, draws), Held(k, |xs|, draws));
            && |items| == |held| && (forall i :: 0 <= i < |held| ==> held[i] < |xs| && items[i] == xs[held[i]])
    decreases |xs|
  {
    hide Sampled, AllDraws, LegalDraws, Held;
    var n := |xs|;
    HeldStep(k, n, draws);
    if n <= k {
      FillingDraws(k, 0, n, draws);
      Filled([], k, xs);
    } else {
      LastDraw(k, n, draws);
      var m := |draws| - 1;
      AllDrawsAreLegal(k, n - 1, draws[..m]);
      SampledIsHeld(k, xs[..n - 1], draws[..m]);
      SampledSnoc(k, xs[..n - 1], xs[n - 1], draws[..m], draws[m]);
      assert xs == xs[..n - 1] + [xs[n - 1]] && draws == draws[..m] + [draws[m]];
    }
  }

  lemma HeldStep(k: nat, n: nat, draws: seq<nat>)
    ensures n <= k ==> Held(k, n, draws) == Positions(n)
    ensures n > k && draws != [] ==>
              var (before, j) := (Held(k, n - 1, draws[..|draws| - 1]), draws[|draws| - 1]);
              Held(k, n, draws) == if j < |before| then before[j := n - 1] else before
  {
  }

  /** One more item at a full reservoir. */
  lemma SampledSnoc<T>(k: nat, xs: seq<T>, x: T, ds: seq<nat>, j: nat)
    requires k <= |xs| && j < |xs| + 1 && LegalDraws(k, 0, 0, |xs|, ds)
    ensures LegalDraws(k, 0, 0, |xs + [x]|, ds + [j])
    ensures Sampled([], k, 0, xs + [x], ds + [j]) ==
            var items := Sampled([], k, 0, xs, ds); if j < k then items[j := x] else items
  {
    OneMoreLegal(k, |xs|, ds, j);
    AddAppend([], k, 0, xs, [x], ds, [j]);
    var items := Sampled([], k, 0, xs, ds);
    assert [x][1..] == [] && [j][1..] == [];
    assert Sampled(items, k, |xs|, [x], [j]) == if j < k then items[j := x] else items;
  }

  lemma {:induction false} Filled<T>(items: seq<T>, k: nat, xs: seq<T>)
    requires |items| + |xs| <= k && LegalDraws(k, |items|, |items|, |xs|, [])
    ensures Sampled(items, k, |items|, xs, []) == items + xs
    decreases |xs|
  {
    if xs == [] {
      assert items + xs == items;
    } else {
      Filled(items + [xs[0]], k, xs[1..]);
      assert items + [xs[0]] + xs[1..] == items + xs;
    }
  }

  // ----- counting -----

  /** Each sequence with `m` continuations: `m` times as many sequences. */
  lemma {:induction false} ExtendSize(a: set<seq<nat>>, next: seq<nat> -> set<nat>, m: nat)
    requires forall ds :: ds in a ==> |next(ds)| == m
    ensures |Extend(a, next)| == m * |a|
    decreases |a|
  {
    hide Extend, ExtendOne;
    if a == {} {
      ExtendNothing(a, next);
    } else {
      var ds :| ds in a;
      var rest := a - {ds};
      ExtendSize(rest, next, m);
      ExtendOneSize(ds, next(ds));
      ExtendSplit(a, next, ds);
      assert |a| == |rest| + 1;
      OneMoreFactor(m, |rest|);
    }
  }

  lemma ExtendNothing(a: set<seq<nat>>, next: seq<nat> -> set<nat>)
    requires a == {}
    ensures Extend(a, next) == {}
  {
  }

  lemma OneMoreFactor(m: nat, n: nat)
    ensures m * n + m == m * (n + 1)
  {
  }

  lemma ExtendSplit(a: set<seq<nat>>, next: seq<nat> -> set<nat>, ds: seq<nat>)
    requires ds in a
    ensures Extend(a, next) == Extend(a - {ds}, next) + ExtendOne(ds, next(ds))
    ensures Extend(a - {ds}, next) !! ExtendOne(ds, next(ds))
  {
    hide Extend, ExtendOne;
    forall x ensures x in Extend(a, next) <==> x in Extend(a - {ds}, next) || x in ExtendOne(ds, next(ds)) {
      ExtendMember(a, next, x);
      ExtendMember(a - {ds}, next, x);
      ExtendOneMember(ds, next(ds), x);
    }
    forall x | x in Extend(a - {ds}, next) ensures x !in ExtendOne(ds, next(ds)) {
      ExtendMember(a - {ds}, next, x);
      ExtendOneMember(ds, next(ds), x);
    }
  }

  lemma ExtendOneMember(ds: seq<nat>, js: set<nat>, x: seq<nat>)
    ensures x in ExtendOne(ds, js) <==> |x| > 0 && x[..|x| - 1] == ds && x[|x| - 1] in js
  {
    if |x| > 0 && x[..|x| - 1] == ds {
      assert x == ds + [x[|x| - 1]];
    }
    if x in ExtendOne(ds, js) {
      var j :| j in js && x == ds + [j];
      Snoc(ds, j);
    }
  }

  ghost function ExtendOne(ds: seq<nat>, js: set<nat>): set<seq<nat>> {
    set j | j in js :: ds + [j]
  }

  lemma {:induction false} ExtendOneSize(ds: seq<nat>, js: set<nat>)
    ensures |ExtendOne(ds, js)| == |js|
    decreases |js|
  {
    if js == {} {
      assert ExtendOne(ds, js) == {};
    } else {
      var j :| j in js;
      ExtendOneSize(ds, js - {j});
      assert ExtendOne(ds, js) == ExtendOne(ds, js - {j}) + {ds + [j]};
      forall i | i in js - {j} ensures ds + [i] != ds + [j] {
        assert (ds + [i])[|ds|] == i && (ds + [j])[|ds|] == j;
      }
    }
  }

  /** The draw sequences after which position `p` is held. */
  ghost function Hits(k: nat, n: nat, p: nat): set<seq<nat>> {
    set ds | ds in AllDraws(k, n) && p in Held(k, n, ds)
  }

  /** Where position `p` sits in the reservoir. */
  ghost function Slot(k: nat, n: nat, draws: seq<nat>, p: nat): nat {
    if draws in AllDraws(k, n) && p in Held(k, n, draws)
    then var i :| 0 <= i < |Held(k, n, draws)| && Held(k, n, draws)[i] == p; i
    else 0
  }

  /** The draws that leave position `p` in place. */
  ghost function Spare(k: nat, n: nat, p: nat): seq<nat> -> set<nat> {
    ds => Below(n + 1) - {Slot(k, n, ds, p)}
  }

  /** An earlier position survives a draw exactly when the draw misses its slot. */
  lemma SurvivesStep(k: nat, n: nat, ds: seq<nat>, j: nat, p: nat)
    requires k <= n && p < n && j < n + 1 && ds in AllDraws(k, n)
    ensures p in Held(k, n + 1, ds + [j]) <==> p in Held(k, n, ds) && j != Slot(k, n, ds, p)
  {
    hide AllDraws;
    var before, after := Held(k, n, ds), Held(k, n + 1, ds + [j]);
    HeldDistinct(k, n, ds);
    Snoc(ds, j);
    assert after == if j < k then before[j := n] else before;
    if p in before {
      var s := Slot(k, n, ds, p);
      assert before[s] == p;
      if j != s {
        assert after[s] == p;
      }
    }
    if p in after {
      var i :| 0 <= i < |after| && after[i] == p;
      assert before[i] == p;
    }
  }

  lemma HitsSurvive(k: nat, n: nat, p: nat)
    requires 1 <= k <= n && p < n
    ensures Hits(k, n + 1, p) == Extend(Hits(k, n, p), Spare(k, n, p))
  {
    hide AllDraws, Held, Extend, Slot;
    forall x ensures x in Hits(k, n + 1, p) <==> x in Extend(Hits(k, n, p), Spare(k, n, p)) {
      ExtendMember(Hits(k, n, p), Spare(k, n, p), x);
      if x in Hits(k, n + 1, p) {
        LastDraw(k, n + 1, x);
        assert x == x[..|x| - 1] + [x[|x| - 1]];
        SurvivesStep(k, n, x[..|x| - 1], x[|x| - 1], p);
      }
      if x in Extend(Hits(k, n, p), Spare(k, n, p)) {
        assert x == x[..|x| - 1] + [x[|x| - 1]];
        MoreDraws(k, n + 1, x[..|x| - 1], x[|x| - 1]);
        SurvivesStep(k, n, x[..|x| - 1], x[|x| - 1], p);
      }
    }
  }

  /** The newest position is held exactly when its draw falls inside the reservoir. */
  lemma ArrivesStep(k: nat, n: nat, ds: seq<nat>, j: nat)
    requires k <= n && j < n + 1 && ds in AllDraws(k, n)
    ensures n in Held(k, n + 1, ds + [j]) <==> j < k
  {
    hide AllDraws;
    var before, after := Held(k, n, ds), Held(k, n + 1, ds + [j]);
    HeldDistinct(k, n, ds);
    Snoc(ds, j);
    assert after == if j < k then before[j := n] else before;
    if j < k {
      assert after[j] == n;
    }
  }

  lemma HitsArrive(k: nat, n: nat)
    requires 1 <= k <= n
    ensures Hits(k, n + 1, n) == Extend(AllDraws(k, n), Any(k))
  {
    hide AllDraws, Held, Extend;
    forall x ensures x in Hits(k, n + 1, n) <==> x in Extend(AllDraws(k, n), Any(k)) {
      ExtendMember(AllDraws(k, n), Any(k), x);
      if x in Hits(k, n + 1, n) {
        LastDraw(k, n + 1, x);
        assert x == x[..|x| - 1] + [x[|x| - 1]];
        ArrivesStep(k, n, x[..|x| - 1], x[|x| - 1]);
      }
      if x in Extend(AllDraws(k, n), Any(k)) {
        assert x == x[..|x| - 1] + [x[|x| - 1]];
        MoreDraws(k, n + 1, x[..|x| - 1], x[|x| - 1]);
        ArrivesStep(k, n, x[..|x| - 1], x[|x| - 1]);
      }
    }
  }

  /**
   Sampling is uniform: over all equally likely draw sequences, every stream
   position is held in the same fraction `k / n` of them.
   */
  lemma {:induction false} Uniform(k: nat, n: nat, p: nat)
    requires 1 <= k <= n && p < n
    ensures |Hits(k, n, p)| * n == k * |AllDraws(k, n)|
    decreases n
  {
    hide Extend, Hits, AllDraws, Spare;
    if n == k {
      UniformFull(k, p);
    } else {
      var m := n - 1;
      var total := |AllDraws(k, m)|;
      DrawCount(k, m);
      if p == m {
        HitsArrive(k, m);
        ExtendSize(AllDraws(k, m), Any(k), k);
        UniformArrive(k, n, total);
      } else {
        HitsSurvive(k, m, p);
        SpareSize(k, m, p);
        ExtendSize(Hits(k, m, p), Spare(k, m, p), m);
        Uniform(k, m, p);
        UniformSurvive(k, m, total, |Hits(k, m, p)|);
      }
    }
  }

  lemma UniformFull(k: nat, p: nat)
    requires p < k
    ensures |Hits(k, k, p)| == 1 == |AllDraws(k, k)|
  {
    assert Held(k, k, [])[p] == p;
    assert Hits(k, k, p) == {[]};
  }

  lemma DrawCount(k: nat, m: nat)
    requires k <= m
    ensures |AllDraws(k, m + 1)| == (m + 1) * |AllDraws(k, m)|
  {
    ExtendSize(AllDraws(k, m), Any(m + 1), m + 1);
  }

  lemma SpareSize(k: nat, m: nat, p: nat)
    requires 1 <= k <= m && p < m
    ensures forall ds :: ds in Hits(k, m, p) ==> |Spare(k, m, p)(ds)| == m
  {
    forall ds | ds in Hits(k, m, p) ensures |Spare(k, m, p)(ds)| == m {
      HeldDistinct(k, m, ds);
      assert Slot(k, m, ds, p) in Below(m + 1);
    }
  }

  lemma UniformArrive(k: nat, n: nat, total: nat)
    ensures (k * total) * n == k * (n * total)
  {
  }

  lemma UniformSurvive(k: nat, m: nat, total: nat, hits: nat)
    requires hits * m == k * total
    ensures (m * hits) * (m + 1) == k * ((m + 1) * total)
  {
  }

  // ----- which sets of positions are held -----

  function Factorial(n: nat): nat {
    if n == 0 then 1 else n * Factorial(n - 1)
  }

  /** The draw sequences after which exactly the positions in `kept` are held. */
  ghost function SetHits(k: nat, n: nat, kept: set<nat>): set<seq<nat>> {
    set ds | ds in AllDraws(k, n) && Elements(Held(k, n, ds)) == kept
  }

  /** The draws that leave a full reservoir as it is. */
  ghost function Misses(k: nat, n: nat): seq<nat> -> set<nat> {
    _ => Below(n + 1) - Below(k)
  }

  /** The draw sequences after which the positions in `rest` and one from `others` are held. */
  ghost function HoldsOneOf(k: nat, n: nat, rest: set<nat>, others: set<nat>): set<seq<nat>> {
    set ds | ds in AllDraws(k, n) && OneOf(Held(k, n, ds), rest, others)
  }

  /** The slots that hold none of `rest`. */
  ghost function OtherSlots(k: nat, n: nat, rest: set<nat>): seq<nat> -> set<nat> {
    ds => SlotsWithout(Held(k, n, ds), rest)
  }

  ghost function SlotsWithout(s: seq<nat>, rest: set<nat>): set<nat> {
    set j: nat | j < |s| && s[j] !in rest
  }

  ghost predicate OneOf(s: seq<nat>, rest: set<nat>, others: set<nat>) {
    exists p :: p in others && Elements(s) == rest + {p}
  }

  lemma HeldSnoc(k: nat, n: nat, ds: seq<nat>, j: nat)
    requires k <= n && j < n + 1 && ds in AllDraws(k, n)
    ensures |Held(k, n, ds)| == k && Distinct(Held(k, n, ds)) && AllBelow(Held(k, n, ds), n)
    ensures Held(k, n + 1, ds + [j]) == if j < k then Held(k, n, ds)[j := n] else Held(k, n, ds)
  {
    hide AllDraws;
    HeldDistinct(k, n, ds);
    Snoc(ds, j);
  }

  lemma ReplacedElements(s: seq<nat>, j: nat, x: nat)
    requires j < |s| && Distinct(s) && AllBelow(s, x)
    ensures Elements(s[j := x]) == Elements(s) - {s[j]} + {x}
    ensures x !in Elements(s) && s[j] in Elements(s)
  {
    var t := s[j := x];
    assert t[j] == x;
    forall y | y in Elements(s) && y != s[j] ensures y in Elements(t) {
      var i :| 0 <= i < |s| && s[i] == y;
      assert t[i] == y;
    }
    forall y | y in Elements(t) && y != x ensures y in Elements(s) - {s[j]} {
      var i :| 0 <= i < |t| && t[i] == y;
      assert s[i] == y && i != j;
    }
  }

  /** Without the newest position, the reservoir must hold the set already and the draw must miss it. */
  lemma SetSurvivesStep(k: nat, n: nat, ds: seq<nat>, j: nat, kept: set<nat>)
    requires k <= n && j < n + 1 && ds in AllDraws(k, n) && n !in kept
    ensures Elements(Held(k, n + 1, ds + [j])) == kept <==> Elements(Held(k, n, ds)) == kept && j >= k
  {
    hide AllDraws, Held, Elements, Distinct, AllBelow;
    HeldSnoc(k, n, ds, j);
    if j < k {
      ReplacedElements(Held(k, n, ds), j, n);
    }
  }

  lemma ReplacedIsKept(s: seq<nat>, j: nat, n: nat, kept: set<nat>)
    requires j < |s| && Distinct(s) && AllBelow(s, n) && n in kept && kept <= Below(n + 1)
    ensures Elements(s[j := n]) == kept <==> OneOf(s, kept - {n}, Below(n) - kept) && s[j] !in kept - {n}
  {
    hide Elements, Distinct;
    var rest := kept - {n};
    ReplacedElements(s, j, n);
    assert s[j] in s;
    if Elements(s[j := n]) == kept {
      assert Elements(s) == rest + {s[j]};
      assert s[j] in Below(n) - kept;
    }
    if OneOf(s, rest, Below(n) - kept) && s[j] !in rest {
      var p :| p in Below(n) - kept && Elements(s) == rest + {p};
      assert s[j] == p;
    }
  }

  /** With the newest position, the draw must hit the one slot whose position is not wanted. */
  lemma SetArrivesStep(k: nat, n: nat, ds: seq<nat>, j: nat, kept: set<nat>)
    requires k <= n && j < n + 1 && ds in AllDraws(k, n) && n in kept && kept <= Below(n + 1)
    ensures Elements(Held(k, n + 1, ds + [j])) == kept
            <==> ds in HoldsOneOf(k, n, kept - {n}, Below(n) - kept) && j in OtherSlots(k, n, kept - {n})(ds)
  {
    hide AllDraws, Held, Elements, Distinct, AllBelow, OneOf;
    HeldSnoc(k, n, ds, j);
    if j < k {
      ReplacedIsKept(Held(k, n, ds), j, n, kept);
    } else {
      NewestAbsent(Held(k, n, ds), n);
    }
  }

  lemma NewestAbsent(s: seq<nat>, n: nat)
    requires AllBelow(s, n)
    ensures n !in Elements(s)
  {
  }

  lemma SetHitsSurvive(k: nat, n: nat, kept: set<nat>)
    requires k <= n && n !in kept
    ensures SetHits(k, n + 1, kept) == Extend(SetHits(k, n, kept), Misses(k, n))
  {
    hide AllDraws, Held, Extend, Elements;
    forall x ensures x in SetHits(k, n + 1, kept) <==> x in Extend(SetHits(k, n, kept), Misses(k, n)) {
      ExtendMember(SetHits(k, n, kept), Misses(k, n), x);
      if x in SetHits(k, n + 1, kept) {
        LastDraw(k, n + 1, x);
        assert x == x[..|x| - 1] + [x[|x| - 1]];
        SetSurvivesStep(k, n, x[..|x| - 1], x[|x| - 1], kept);
      }
      if x in Extend(SetHits(k, n, kept), Misses(k, n)) {
        assert x == x[..|x| - 1] + [x[|x| - 1]];
        MoreDraws(k, n + 1, x[..|x| - 1], x[|x| - 1]);
        SetSurvivesStep(k, n, x[..|x| - 1], x[|x| - 1], kept);
      }
    }
  }

  lemma SetHitsArrive(k: nat, n: nat, kept: set<nat>)
    requires k <= n && n in kept && kept <= Below(n + 1)
    ensures SetHits(k, n + 1, kept) == Extend(HoldsOneOf(k, n, kept - {n}, Below(n) - kept), OtherSlots(k, n, kept - {n}))
  {
    hide AllDraws, Held, Extend, Elements, HoldsOneOf, OtherSlots;
    var (a, next) := (HoldsOneOf(k, n, kept - {n}, Below(n) - kept), OtherSlots(k, n, kept - {n}));
    forall x ensures x in SetHits(k, n + 1, kept) <==> x in Extend(a, next) {
      ExtendMember(a, next, x);
      if x in SetHits(k, n + 1, kept) {
        LastDraw(k, n + 1, x);
        assert x == x[..|x| - 1] + [x[|x| - 1]];
        SetArrivesStep(k, n, x[..|x| - 1], x[|x| - 1], kept);
      }
      if x in Extend(a, next) {
        assert x == x[..|x| - 1] + [x[|x| - 1]];
        OtherSlotBelow(k, n, kept - {n}, Below(n) - kept, x[..|x| - 1], x[|x| - 1]);
        MoreDraws(k, n + 1, x[..|x| - 1], x[|x| - 1]);
        SetArrivesStep(k, n, x[..|x| - 1], x[|x| - 1], kept);
      }
    }
  }

  lemma OtherSlotBelow(k: nat, n: nat, rest: set<nat>, others: set<nat>, ds: seq<nat>, j: nat)
    requires k <= n && ds in HoldsOneOf(k, n, rest, others) && j in OtherSlots(k, n, rest)(ds)
    ensures ds in AllDraws(k, n) && j < n + 1
  {
    hide AllDraws, Held, Elements;
    HeldSnoc(k, n, ds, 0);
  }

  /** One slot holds the position that is to be replaced. */
  lemma OneOtherSlot(k: nat, n: nat, rest: set<nat>, others: set<nat>)
    requires k <= n && rest !! others
    ensures forall ds :: ds in HoldsOneOf(k, n, rest, others) ==> |OtherSlots(k, n, rest)(ds)| == 1
  {
    hide AllDraws, Held, SlotsWithout, Distinct, OneOf;
    forall ds | ds in HoldsOneOf(k, n, rest, others) ensures |OtherSlots(k, n, rest)(ds)| == 1 {
      HeldSnoc(k, n, ds, 0);
      OneSlotWithout(Held(k, n, ds), rest, others);
    }
  }

  lemma OneSlotWithout(s: seq<nat>, rest: set<nat>, others: set<nat>)
    requires Distinct(s) && rest !! others && OneOf(s, rest, others)
    ensures |SlotsWithout(s, rest)| == 1
  {
    var p :| p in others && Elements(s) == rest + {p};
    assert p in Elements(s);
    var i: nat :| i < |s| && s[i] == p;
    forall j | 0 <= j < |s| && s[j] !in rest ensures j == i {
      assert s[j] in Elements(s);
    }
    assert SlotsWithout(s, rest) == {i};
  }

  /** Each choice of the odd position accounts for equally many sequences. */
  lemma {:induction false} HoldsOneOfSize(k: nat, n: nat, rest: set<nat>, others: set<nat>, c: nat)
    requires rest !! others && forall p :: p in others ==> |SetHits(k, n, rest + {p})| == c
    ensures |HoldsOneOf(k, n, rest, others)| == c * |others|
    decreases others
  {
    hide HoldsOneOf, SetHits;
    if others == {} {
      HoldsOneOfNone(k, n, rest);
    } else {
      var p :| p in others;
      var fewer := others - {p};
      HoldsOneOfSize(k, n, rest, fewer, c);
      HoldsOneOfSplit(k, n, rest, others, p);
      OneMoreFactor(c, |fewer|);
      assert |others| == |fewer| + 1;
    }
  }

  lemma HoldsOneOfNone(k: nat, n: nat, rest: set<nat>)
    ensures HoldsOneOf(k, n, rest, {}) == {}
  {
  }

  lemma HoldsOneOfSplit(k: nat, n: nat, rest: set<nat>, others: set<nat>, p: nat)
    requires rest !! others && p in others
    ensures HoldsOneOf(k, n, rest, others) == HoldsOneOf(k, n, rest, others - {p}) + SetHits(k, n, rest + {p})
    ensures HoldsOneOf(k, n, rest, others - {p}) !! SetHits(k, n, rest + {p})
  {
    hide AllDraws, Held;
    forall q | q in others - {p} ensures rest + {q} != rest + {p} {
      assert q !in rest + {p} && q in rest + {q};
    }
  }

  lemma SubsetOfAll(kept: set<nat>, k: nat)
    requires kept <= Below(k) && |kept| == k
    ensures kept == Below(k)
  {
    if kept != Below(k) {
      var x :| x in Below(k) && x !in kept;
      SubsetSize(kept + {x}, Below(k));
    }
  }

  lemma {:induction false} SubsetSize(a: set<nat>, b: set<nat>)
    requires a <= b
    ensures |a| <= |b| && |b - a| == |b| - |a|
  {
    assert b == a + (b - a);
  }

  lemma FullReservoir(k: nat, kept: set<nat>)
    requires kept <= Below(k) && |kept| == k
    ensures |SetHits(k, k, kept)| == 1
  {
    SubsetOfAll(kept, k);
    var held := Held(k, k, []);
    forall i | i in Below(k) ensures i in held {
      assert held[i] == i;
    }
    assert Elements(held) == Below(k);
    assert SetHits(k, k, kept) == {[]};
  }

  /**
   The sample is uniform as a whole: every set of `k` positions is the set held in the
   same number of draw sequences, `(n - k)!` of them.
   */
  lemma {:induction false} UniformSample(k: nat, n: nat, kept: set<nat>)
    requires k <= n && kept <= Below(n) && |kept| == k
    ensures |SetHits(k, n, kept)| == Factorial(n - k)
    decreases n
  {
    hide Extend, SetHits, AllDraws, Misses, HoldsOneOf, OtherSlots, Factorial;
    if n == k {
      FullReservoir(k, kept);
      FactorialStep(0);
    } else {
      var m := n - 1;
      FactorialStep(m - k);
      if m !in kept {
        SetHitsSurvive(k, m, kept);
        MissesSize(k, m);
        ExtendSize(SetHits(k, m, kept), Misses(k, m), n - k);
        UniformSample(k, m, kept);
      } else {
        var rest, others := kept - {m}, Below(m) - kept;
        OthersSize(kept, m);
        forall p | p in others ensures |SetHits(k, m, rest + {p})| == Factorial(m - k) {
          UniformSample(k, m, rest + {p});
        }
        SetHitsArrive(k, m, kept);
        OneOtherSlot(k, m, rest, others);
        ExtendSize(HoldsOneOf(k, m, rest, others), OtherSlots(k, m, rest), 1);
        HoldsOneOfSize(k, m, rest, others, Factorial(m - k));
      }
    }
  }

  lemma FactorialStep(n: nat)
    ensures Factorial(0) == 1 && Factorial(n + 1) == (n + 1) * Factorial(n) == Factorial(n) * (n + 1)
  {
  }

  lemma MissesSize(k: nat, n: nat)
    requires k <= n
    ensures forall ds :: |Misses(k, n)(ds)| == n + 1 - k
  {
    SubsetSize(Below(k), Below(n + 1));
  }

  lemma OthersSize(kept: set<nat>, m: nat)
    requires m in kept && kept <= Below(m + 1)
    ensures |Below(m) - kept| == m + 1 - |kept|
  {
    SubsetSize(kept, Below(m + 1));
    assert Below(m) - kept == Below(m + 1) - kept;
  }

  /** There are `n! / k!` draw sequences in all. */
  lemma {:induction false} DrawTotal(k: nat, n: nat)
    requires k <= n
    ensures |AllDraws(k, n)| * Factorial(k) == Factorial(n)
    decreases n
  {
    hide AllDraws, Factorial;
    if n == k {
      NoDrawsYet(k, n);
    } else {
      DrawTotal(k, n - 1);
      DrawCount(k, n - 1);
      FactorialStep(n - 1);
      Reassociate(n, |AllDraws(k, n - 1)|, Factorial(k));
    }
  }

  lemma Reassociate(a: nat, b: nat, c: nat)
    ensures (a * b) * c == a * (b * c)
  {
  }
}
