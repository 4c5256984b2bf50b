/**
 EWC++ regularisation (crates/unimatrix-learn/src/ewc.rs): a quadratic penalty
 around reference parameters, weighted by a running diagonal Fisher estimate.
 */
module Ewc {
  import opened Reals
  import opened Sums
  import opened Lora

  datatype State = State(fisher: Vector, reference: Vector, alpha: real, lambda: real, initialized: bool) {
    ghost predicate Valid() {
      |fisher| == |reference|
    }
  }

  function Zeros(n: nat): Vector {
    seq(n, _ => 0.0)
  }

  function Fresh(n: nat, alpha: real, lambda: real): State {
    State(Zeros(n), Zeros(n), alpha, lambda, false)
  }

  // ----- penalty and gradient -----

  function Weighted(s: State, theta: Vector, i: int): real {
    Times(Entry(s.fisher, i), Entry(theta, i) - Entry(s.reference, i))
  }

  function PenaltyTerm(s: State, theta: Vector): int -> real {
    i => Times(Weighted(s, theta, i), Entry(theta, i) - Entry(s.reference, i))
  }

  /** `(lambda / 2) · Σ F_i · (theta_i - theta*_i)²`, or 0 before the first update. */
  function Penalty(s: State, theta: Vector): real {
    if !s.initialized then 0.0 else Times(s.lambda / 2.0, Sum(|s.fisher|, PenaltyTerm(s, theta)))
  }

  /** `lambda · F_i · (theta_i - theta*_i)`, or zeros before the first update. */
  function GradientContribution(s: State, theta: Vector): Vector {
    if !s.initialized then Zeros(|theta|)
    else seq(|s.fisher|, i => Times(s.lambda, Weighted(s, theta, i)))
  }

  // ----- updates -----

  function Blend(alpha: real, old_: Vector, new_: Vector): Vector {
    seq(|old_|, i => Times(alpha, Entry(old_, i)) + Times(1.0 - alpha, Entry(new_, i)))
  }

  function Updated(s: State, params: Vector, batchFisher: Vector): State {
    if !s.initialized then s.(fisher := batchFisher, reference := params, initialized := true)
    else s.(fisher := Blend(s.alpha, s.fisher, batchFisher), reference := Blend(s.alpha, s.reference, params))
  }

  function Squares(v: Vector): Vector {
    seq(|v|, i requires 0 <= i < |v| => Times(v[i], v[i]))
  }

  class EwcState {
    var fisher: Vector
    var reference: Vector
    var alpha: real
    var lambda: real
    var initialized: bool

    function Value(): State
      reads this
    {
      State(fisher, reference, alpha, lambda, initialized)
    }

    constructor (n: nat, alpha: real, lambda: real)
      ensures Value() == Fresh(n, alpha, lambda)
    {
      fisher, reference := Zeros(n), Zeros(n);
      this.alpha, this.lambda, initialized := alpha, lambda, false;
    }

    /** Update from gradient matrices: the batch Fisher is the squared gradient, flattened. */
    method Update(params: Vector, gradA: Matrix, gradB: Matrix)
      requires initialized ==> |params| == |reference| && |FlatParameters(gradA, gradB)| == |fisher|
      modifies this
      ensures Value() == Updated(old(Value()), params, Squares(FlatParameters(gradA, gradB)))
      ensures initialized && alpha == old(alpha) && lambda == old(lambda)
      ensures var flat := FlatParameters(gradA, gradB);
              if !old(initialized)
              then |fisher| == |flat| && (forall i :: 0 <= i < |flat| ==> fisher[i] == Times(flat[i], flat[i])) && reference == params
              else
                && |fisher| == |old(fisher)| && |reference| == |old(reference)|
                && (forall i :: 0 <= i < |fisher| ==>
                      fisher[i] == Times(alpha, old(fisher)[i]) + Times(1.0 - alpha, Times(flat[i], flat[i])))
                && (forall i :: 0 <= i < |reference| ==>
                      reference[i] == Times(alpha, old(reference)[i]) + Times(1.0 - alpha, params[i]))
    {
      var flat := FlatParameters(gradA, gradB);
      var batch: Vector := [];
      for i := 0 to |flat|
        invariant |batch| == i && forall k :: 0 <= k < i ==> batch[k] == Times(flat[k], flat[k])
      {
        batch := batch + [Times(flat[i], flat[i])];
      }
      assert batch == Squares(flat);
      if !initialized {
        fisher, reference, initialized := batch, params, true;
      } else {
        fisher := Blend(alpha, fisher, batch);
        reference := Blend(alpha, reference, params);
      }
    }

    /** Update from flat vectors. */
    method UpdateFromFlat(params: Vector, gradSquared: Vector)
      requires initialized ==> |params| == |reference| && |gradSquared| == |fisher|
      modifies this
      ensures Value() == Updated(old(Value()), params, gradSquared)
      ensures initialized && alpha == old(alpha) && lambda == old(lambda)
      ensures if !old(initialized) then fisher == gradSquared && reference == params
              else
                && |fisher| == |old(fisher)| && |reference| == |old(reference)|
                && (forall i :: 0 <= i < |fisher| ==>
                      fisher[i] == Times(alpha, old(fisher)[i]) + Times(1.0 - alpha, gradSquared[i]))
                && (forall i :: 0 <= i < |reference| ==>
                      reference[i] == Times(alpha, old(reference)[i]) + Times(1.0 - alpha, params[i]))
    {
      if !initialized {
        fisher, reference, initialized := gradSquared, params, true;
      } else {
        fisher := Blend(alpha, fisher, gradSquared);
        reference := Blend(alpha, reference, params);
      }
    }
  }

  // ----- the penalty is the quadratic its gradient says it is -----

  function Dot(u: Vector, v: Vector): int -> real {
    i => Times(Entry(u, i), Entry(v, i))
  }

  /** `Σ F_i · h_i²`. */
  function Curvature(s: State, h: Vector): real {
    Sum(|s.fisher|, CurvatureTerm(s, h))
  }

  lemma SquareTerm(f: real, x: real, h: real)
    ensures Times(Times(f, x + h), x + h) == Times(Times(f, x), x) + Times(2.0, Times(Times(f, x), h)) + Times(Times(f, h), h)
  {
  }

  /** `penalty(theta + h) = penalty(theta) + gradient(theta)·h + (lambda / 2) · Σ F_i h_i²`, exactly. */
  lemma PenaltyExpansion(s: State, theta: Vector, h: Vector, moved: Vector)
    requires s.Valid() && |theta| == |h| == |moved| == |s.fisher|
    requires forall i :: 0 <= i < |theta| ==> moved[i] == theta[i] + h[i]
    ensures Penalty(s, moved) == Penalty(s, theta)
            + Sum(|theta|, Dot(GradientContribution(s, theta), h))
            + if s.initialized then Times(s.lambda / 2.0, Curvature(s, h)) else 0.0
  {
    hide *;
    var n := |s.fisher|;
    if !s.initialized {
      UninitializedFlat(s, theta, h);
      UninitializedFlat(s, moved, h);
    } else {
      var linear := Linear(s, theta, h);
      var terms := Sum(n, PenaltyTerm(s, theta));
      PenaltySums(s, theta, h, moved);
      GradientDot(s, theta, h);
      TwoParts(s.lambda / 2.0, terms, Sum(n, linear), Curvature(s, h));
      PenaltyInitialized(s, theta);
      PenaltyInitialized(s, moved);
    }
  }

  /** Fisher-weighted squares of a displacement. */
  function WeightedSquares(fisher: Vector, h: Vector): int -> real {
    i => if 0 <= i < |fisher| && i < |h| then fisher[i] * (h[i] * h[i]) else 0.0
  }

  /** A displacement by `h` from the reference costs `(lambda / 2) · Σ F_i h_i²` and pulls back by `lambda · F_i h_i`. */
  lemma PenaltyAroundReference(s: State, theta: Vector, h: Vector)
    requires s.Valid() && s.initialized && |theta| == |h| == |s.fisher|
    requires forall i :: 0 <= i < |h| ==> theta[i] == s.reference[i] + h[i]
    ensures Penalty(s, theta) == Times(s.lambda / 2.0, Sum(|h|, WeightedSquares(s.fisher, h)))
    ensures |GradientContribution(s, theta)| == |h|
    ensures forall i :: 0 <= i < |h| ==> GradientContribution(s, theta)[i] == Times(s.lambda, Times(s.fisher[i], h[i]))
  {
    hide Times;
    forall i | 0 <= i < |h| ensures PenaltyTerm(s, theta)(i) == WeightedSquares(s.fisher, h)(i) {
      assert Entry(theta, i) - Entry(s.reference, i) == h[i];
      SquareOf(s.fisher[i], h[i]);
    }
    SumSame(|h|, PenaltyTerm(s, theta), WeightedSquares(s.fisher, h));
    forall i | 0 <= i < |h| ensures GradientContribution(s, theta)[i] == Times(s.lambda, Times(s.fisher[i], h[i])) {
      assert Entry(theta, i) - Entry(s.reference, i) == h[i];
    }
  }

  lemma SquareOf(f: real, h: real)
    ensures Times(Times(f, h), h) == f * (h * h)
  {
  }

  /** At the reference the penalty and its gradient vanish. */
  lemma NoPenaltyAtReference(s: State)
    requires s.Valid()
    ensures Penalty(s, s.reference) == 0.0 && GradientContribution(s, s.reference) == Zeros(|s.reference|)
  {
    hide Times, Penalty, GradientContribution;
    var n := |s.reference|;
    if s.initialized {
      PenaltyAroundReference(s, s.reference, Zeros(n));
      forall i | 0 <= i < n ensures WeightedSquares(s.fisher, Zeros(n))(i) == 0.0 {
        assert Zeros(n)[i] == 0.0;
      }
      SumZero(n, WeightedSquares(s.fisher, Zeros(n)));
      TimesZero(s.lambda / 2.0);
      TimesZero(s.lambda);
      forall i | 0 <= i < n ensures Times(s.fisher[i], 0.0) == 0.0 {
        TimesZero(s.fisher[i]);
      }
    } else {
      NoPenaltyBeforeUpdate(s, s.reference);
    }
  }

  /** Before the first update there is no penalty, and one zero of gradient per parameter. */
  lemma NoPenaltyBeforeUpdate(s: State, theta: Vector)
    requires !s.initialized
    ensures Penalty(s, theta) == 0.0
    ensures |GradientContribution(s, theta)| == |theta| && forall i :: 0 <= i < |theta| ==> GradientContribution(s, theta)[i] == 0.0
  {
  }

  lemma UninitializedFlat(s: State, theta: Vector, h: Vector)
    requires !s.initialized && |theta| == |s.fisher|
    ensures Penalty(s, theta) == 0.0 && Sum(|theta|, Dot(GradientContribution(s, theta), h)) == 0.0
  {
    SumZero(|theta|, Dot(Zeros(|theta|), h));
  }

  lemma PenaltyInitialized(s: State, theta: Vector)
    requires s.initialized
    ensures Penalty(s, theta) == Times(s.lambda / 2.0, Sum(|s.fisher|, PenaltyTerm(s, theta)))
  {
  }

  /** Twice the first-order part of the sum. */
  ghost function Linear(s: State, theta: Vector, h: Vector): int -> real {
    i => Times(2.0, Times(Weighted(s, theta, i), Entry(h, i)))
  }

  function CurvatureTerm(s: State, h: Vector): int -> real {
    i => Times(Times(Entry(s.fisher, i), Entry(h, i)), Entry(h, i))
  }

  ghost function HigherTerms(s: State, theta: Vector, h: Vector): int -> real {
    i => Linear(s, theta, h)(i) + CurvatureTerm(s, h)(i)
  }

  lemma PenaltySums(s: State, theta: Vector, h: Vector, moved: Vector)
    requires s.Valid() && |theta| == |h| == |moved| == |s.fisher|
    requires forall i :: 0 <= i < |theta| ==> moved[i] == theta[i] + h[i]
    ensures Sum(|s.fisher|, PenaltyTerm(s, moved))
            == Sum(|s.fisher|, PenaltyTerm(s, theta)) + (Sum(|s.fisher|, Linear(s, theta, h)) + Curvature(s, h))
  {
    hide Times;
    var n := |s.fisher|;
    forall i | 0 <= i < n ensures PenaltyTerm(s, moved)(i) == PenaltyTerm(s, theta)(i) + HigherTerms(s, theta, h)(i) {
      var f, x := s.fisher[i], theta[i] - s.reference[i];
      SquareTerm(f, x, h[i]);
      assert moved[i] - s.reference[i] == x + h[i];
      assert PenaltyTerm(s, moved)(i) == Times(Times(f, x + h[i]), x + h[i]);
      assert PenaltyTerm(s, theta)(i) == Times(Times(f, x), x);
      assert Linear(s, theta, h)(i) == Times(2.0, Times(Times(f, x), h[i]));
    }
    SumAdd(n, PenaltyTerm(s, theta), HigherTerms(s, theta, h), PenaltyTerm(s, moved));
    SumAdd(n, Linear(s, theta, h), CurvatureTerm(s, h), HigherTerms(s, theta, h));
  }

  lemma TwoParts(c: real, x: real, y: real, z: real)
    ensures Times(c, x + (y + z)) == Times(c, x) + Times(c, y) + Times(c, z)
  {
  }

  lemma GradientDot(s: State, theta: Vector, h: Vector)
    requires s.Valid() && s.initialized && |theta| == |h| == |s.fisher|
    ensures Times(s.lambda / 2.0, Sum(|theta|, Linear(s, theta, h))) == Sum(|theta|, Dot(GradientContribution(s, theta), h))
  {
    hide Times, Weighted;
    var n, g, linear := |theta|, GradientContribution(s, theta), Linear(s, theta, h);
    forall i | 0 <= i < n ensures Dot(g, h)(i) == Times(s.lambda / 2.0, linear(i)) {
      assert Entry(g, i) == Times(s.lambda, Weighted(s, theta, i));
      HalfTwice(s.lambda, Weighted(s, theta, i), Entry(h, i));
    }
    SumScale(n, s.lambda / 2.0, linear, Dot(g, h));
  }

  lemma HalfTwice(lambda: real, w: real, h: real)
    ensures Times(Times(lambda, w), h) == Times(lambda / 2.0, Times(2.0, Times(w, h)))
  {
  }

  // ----- runs -----

  ghost predicate NonNegative(v: Vector) {
    forall i :: 0 <= i < |v| ==> v[i] >= 0.0
  }

  /** One update: the parameters it saw and its batch Fisher. */
  datatype Step = Step(params: Vector, batchFisher: Vector)

  ghost predicate Fits(steps: seq<Step>, n: nat) {
    forall i :: 0 <= i < |steps| ==> |steps[i].params| == |steps[i].batchFisher| == n
  }

  ghost function After(s: State, steps: seq<Step>): State {
    if steps == [] then s
    else
      var n := |steps| - 1;
      Updated(After(s, steps[..n]), steps[n].params, steps[n].batchFisher)
  }

  /** Uninitialised states carry no Fisher information. */
  ghost predicate Sound(s: State) {
    && s.Valid()
    && NonNegative(s.fisher)
    && (!s.initialized ==> s.fisher == Zeros(|s.fisher|))
  }

  lemma BlendNonNegative(alpha: real, u: Vector, v: Vector)
    requires 0.0 <= alpha <= 1.0 && NonNegative(u) && NonNegative(v) && |u| == |v|
    ensures NonNegative(Blend(alpha, u, v))
  {
    forall i | 0 <= i < |u| ensures Blend(alpha, u, v)[i] >= 0.0 {
      ProductNonNegative(alpha, u[i]);
      ProductNonNegative(1.0 - alpha, v[i]);
    }
  }

  /** Along every run the Fisher diagonal stays non-negative, and the sizes stay put. */
  lemma {:induction false} FisherStaysNonNegative(s: State, steps: seq<Step>)
    requires Sound(s) && 0.0 <= s.alpha <= 1.0 && Fits(steps, |s.fisher|)
    requires forall i :: 0 <= i < |steps| ==> NonNegative(steps[i].batchFisher)
    ensures Sound(After(s, steps)) && |After(s, steps).fisher| == |s.fisher|
    ensures After(s, steps).alpha == s.alpha && After(s, steps).lambda == s.lambda
  {
    if steps != [] {
      var n := |steps| - 1;
      FisherStaysNonNegative(s, steps[..n]);
      var before := After(s, steps[..n]);
      if before.initialized {
        BlendNonNegative(s.alpha, before.fisher, steps[n].batchFisher);
      }
    }
  }

  /** The vectors of one kind that a run of updates brought in. */
  function Batches(steps: seq<Step>): seq<Vector> {
    seq(|steps|, j requires 0 <= j < |steps| => steps[j].batchFisher)
  }

  function Parameters(steps: seq<Step>): seq<Vector> {
    seq(|steps|, j requires 0 <= j < |steps| => steps[j].params)
  }

  /** `alpha^(n-1-j)` times entry `i` of vector `j`: what is left of it after the later ones. */
  ghost function Faded(vs: seq<Vector>, alpha: real, i: int): int -> real {
    j => if 0 <= j < |vs| then Times(Power(alpha, |vs| - 1 - j), Entry(vs[j], i)) else 0.0
  }

  /** A start that fades like `alpha^n`, and the vectors that came in since, each faded by the later ones. */
  ghost function RunningAverage(start: real, vs: seq<Vector>, alpha: real, i: int): real {
    Times(Power(alpha, |vs|), start) + Times(1.0 - alpha, Sum(|vs|, Faded(vs, alpha, i)))
  }

  /** One more vector blended in. */
  lemma RunningAverageStep(start: real, vs: seq<Vector>, v: Vector, alpha: real, i: nat)
    requires i < |v|
    ensures RunningAverage(start, vs + [v], alpha, i)
            == Times(alpha, RunningAverage(start, vs, alpha, i)) + Times(1.0 - alpha, v[i])
  {
    hide Times;
    var m, longer := |vs|, vs + [v];
    var now, before := Faded(longer, alpha, i), Faded(vs, alpha, i);
    forall j | 0 <= j < m ensures now(j) == Times(alpha, before(j)) {
      assert longer[j] == vs[j];
      Regroup(alpha, Power(alpha, m - 1 - j), Entry(vs[j], i));
    }
    SumScale(m, alpha, before, now);
    TimesOne(v[i]);
    assert now(m) == v[i];
    AverageStep(alpha, Power(alpha, m), start, Sum(m, before), v[i]);
  }

  lemma RunningAverageStart(start: real, alpha: real, i: int)
    ensures RunningAverage(start, [], alpha, i) == start
  {
    TimesOne(start);
    TimesZero(1.0 - alpha);
  }

  /** Both the Fisher diagonal and the reference are exponential running averages, the start fading like `alpha^n`. */
  lemma {:induction false} ExponentialAverage(s: State, steps: seq<Step>, i: nat)
    requires s.Valid() && s.initialized && Fits(steps, |s.fisher|) && i < |s.fisher|
    ensures var after := After(s, steps);
            && after.initialized && |after.fisher| == |after.reference| == |s.fisher| && after.alpha == s.alpha
            && after.fisher[i] == RunningAverage(s.fisher[i], Batches(steps), s.alpha, i)
            && after.reference[i] == RunningAverage(s.reference[i], Parameters(steps), s.alpha, i)
  {
    hide Times, RunningAverage;
    if steps == [] {
      RunningAverageStart(s.fisher[i], s.alpha, i);
      RunningAverageStart(s.reference[i], s.alpha, i);
    } else {
      var m := |steps| - 1;
      ExponentialAverage(s, steps[..m], i);
      assert Batches(steps) == Batches(steps[..m]) + [steps[m].batchFisher];
      assert Parameters(steps) == Parameters(steps[..m]) + [steps[m].params];
      RunningAverageStep(s.fisher[i], Batches(steps[..m]), steps[m].batchFisher, s.alpha, i);
      RunningAverageStep(s.reference[i], Parameters(steps[..m]), steps[m].params, s.alpha, i);
    }
  }

  lemma TimesOne(x: real)
    ensures Times(1.0, x) == x
  {
  }

  lemma AverageStep(alpha: real, p: real, f: real, sum: real, b: real)
    ensures Times(alpha, Times(p, f) + Times(1.0 - alpha, sum)) + Times(1.0 - alpha, b)
            == Times(Times(alpha, p), f) + Times(1.0 - alpha, Times(alpha, sum) + b)
  {
  }

  /** So the penalty is never negative. */
  lemma PenaltyNonNegative(s: State, theta: Vector)
    requires Sound(s) && s.lambda >= 0.0
    ensures Penalty(s, theta) >= 0.0
  {
    forall i ensures PenaltyTerm(s, theta)(i) >= 0.0 {
      WeightedSquare(Entry(s.fisher, i), Entry(theta, i) - Entry(s.reference, i));
    }
    SumNonNegative(|s.fisher|, PenaltyTerm(s, theta));
    ProductNonNegative(s.lambda / 2.0, Sum(|s.fisher|, PenaltyTerm(s, theta)));
  }

  lemma WeightedSquare(f: real, x: real)
    requires f >= 0.0
    ensures Times(Times(f, x), x) >= 0.0
  {
    Regroup(f, x, x);
    assert Times(x, x) >= 0.0;
    ProductNonNegative(f, Times(x, x));
  }

  lemma {:induction false} SumNonNegative(n: nat, f: int -> real)
    requires forall i :: f(i) >= 0.0
    ensures Sum(n, f) >= 0.0
  {
    if n > 0 {
      SumNonNegative(n - 1, f);
    }
  }

  // ----- persistence -----

  function ToVecs(s: State): (Vector, Vector) {
    (s.fisher, s.reference)
  }

  predicate AnyNonZero(v: Vector) {
    exists i :: 0 <= i < |v| && v[i] != 0.0
  }

  /** Restored states count as initialised only if some Fisher entry is non-zero. */
  function FromVecs(vecs: (Vector, Vector), alpha: real, lambda: real): State {
    State(vecs.0, vecs.1, alpha, lambda, AnyNonZero(vecs.0))
  }

  function Restored(s: State): State {
    FromVecs(ToVecs(s), s.alpha, s.lambda)
  }

  /** Saving and restoring never changes the penalty or the gradient. */
  lemma RestoredSamePenalty(s: State, theta: Vector)
    requires Sound(s) && |theta| == |s.fisher|
    ensures Penalty(Restored(s), theta) == Penalty(s, theta)
    ensures GradientContribution(Restored(s), theta) == GradientContribution(s, theta)
  {
    if !AnyNonZero(s.fisher) {
      forall i ensures PenaltyTerm(s, theta)(i) == 0.0 && Weighted(s, theta, i) == 0.0 {
        assert Entry(s.fisher, i) == 0.0;
      }
      SumZero(|s.fisher|, PenaltyTerm(s, theta));
      assert GradientContribution(s, theta) == Zeros(|theta|);
    } else {
      assert Restored(s) == s;
    }
  }

  /** An all-zero Fisher diagonal is the one thing a restart forgets. */
  lemma RestoredIff(s: State)
    requires Sound(s)
    ensures Restored(s) == s <==> !(s.initialized && !AnyNonZero(s.fisher))
  {
  }

  /** Two states whose vectors, and with them every penalty and gradient, agree after every sequence of updates. */
  ghost predicate SameVectorsLater(s: State, t: State) {
    forall steps :: Fits(steps, |s.fisher|) ==> ToVecs(After(s, steps)) == ToVecs(After(t, steps))
  }

  /** Two states that agree in everything, `is_initialized` included, after every sequence of updates. */
  ghost predicate SameStateLater(s: State, t: State) {
    forall steps :: Fits(steps, |s.fisher|) ==> After(s, steps) == After(t, steps)
  }

  /**
   A restart changes no later vector, except for a state that has been updated, has
   an all-zero Fisher diagonal over at least one parameter, and does not forget at
   once. Through `is_initialized` it shows at once whenever that diagonal is all zero.
   */
  lemma RestartUnnoticedIff(s: State)
    requires Sound(s)
    ensures SameVectorsLater(s, Restored(s)) <==> !(s.initialized && !AnyNonZero(s.fisher) && s.alpha != 0.0 && |s.fisher| > 0)
    ensures SameStateLater(s, Restored(s)) <==> !(s.initialized && !AnyNonZero(s.fisher))
  {
    RestoredIff(s);
    NoUpdates(s);
    NoUpdates(Restored(s));
    if s.initialized && !AnyNonZero(s.fisher) {
      if s.alpha != 0.0 && |s.fisher| > 0 {
        RestartNoticed(s);
      } else {
        forall steps | Fits(steps, |s.fisher|) ensures ToVecs(After(s, steps)) == ToVecs(After(Restored(s), steps)) {
          ForgetsAtOnce(s, steps);
        }
      }
    }
  }

  lemma NoUpdates(s: State)
    ensures After(s, []) == s && Fits([], |s.fisher|)
  {
  }

  lemma RestartNoticed(s: State)
    requires Sound(s) && s.initialized && !AnyNonZero(s.fisher) && s.alpha != 0.0 && |s.fisher| > 0
    ensures !SameVectorsLater(s, Restored(s))
  {
    var n := |s.fisher|;
    var step := Step(Zeros(n), seq(n, _ => 1.0));
    var steps := [step];
    assert steps[..0] == [];
    assert Fits(steps, n);
    var t := Restored(s);
    assert After(s, steps) == Updated(s, step.params, step.batchFisher);
    assert After(t, steps) == Updated(t, step.params, step.batchFisher);
    assert s.fisher[0] == 0.0;
    assert After(s, steps).fisher[0] == Times(s.alpha, 0.0) + Times(1.0 - s.alpha, 1.0) == 1.0 - s.alpha;
    assert After(t, steps).fisher[0] == 1.0;
  }

  lemma {:induction false} ForgetsAtOnce(s: State, steps: seq<Step>)
    requires Sound(s) && s.initialized && Fits(steps, |s.fisher|) && (s.alpha == 0.0 || |s.fisher| == 0)
    ensures ToVecs(After(s, steps)) == ToVecs(After(Restored(s), steps))
    ensures steps != [] ==> After(s, steps) == After(Restored(s), steps)
    ensures |After(s, steps).fisher| == |After(s, steps).reference| == |s.fisher|
  {
    if steps != [] {
      var n := |steps| - 1;
      ForgetsAtOnce(s, steps[..n]);
      if n == 0 {
        assert steps[..0] == [];
        BlendForgets(s.alpha, s.fisher, steps[0].batchFisher);
        BlendForgets(s.alpha, s.reference, steps[0].params);
      }
    }
  }

  lemma BlendForgets(alpha: real, u: Vector, v: Vector)
    requires |u| == |v| && (alpha == 0.0 || |u| == 0)
    ensures Blend(alpha, u, v) == v
  {
    hide Times;
    forall i | 0 <= i < |v| ensures Blend(alpha, u, v)[i] == v[i] {
      TimesZero(u[i]);
      TimesOne(v[i]);
    }
  }
}
