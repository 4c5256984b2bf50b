/**
 MicroLoRA (crates/unimatrix-adapt/src/lora.rs): a rank-r residual adapter with a
 hand-written backward pass, over the reals. `A` is d×r, `B` is r×d.
 */
module Lora {
  import opened Reals
  import opened Sums

  type Vector = seq<real>
  type Matrix = seq<seq<real>>

  ghost predicate Shape(m: Matrix, rows: nat, columns: nat) {
    |m| == rows && forall i :: 0 <= i < rows ==> |m[i]| == columns
  }

  /** An entry, reading positions outside the shape as 0. */
  function At(m: Matrix, i: int, j: int): real {
    if 0 <= i < |m| && 0 <= j < |m[i]| then m[i][j] else 0.0
  }

  function Entry(v: Vector, i: int): real {
    if 0 <= i < |v| then v[i] else 0.0
  }

  // ----- the forward pass -----

  /** `A^T · x`, component `k`. */
  function Down(a: Matrix, x: Vector, d: nat, k: int): real {
    Sum(d, DownTerm(a, x, k))
  }

  function DownTerm(a: Matrix, x: Vector, k: int): int -> real {
    j => Times(At(a, j, k), Entry(x, j))
  }

  function DownVector(a: Matrix, x: Vector, d: nat): int -> real {
    k => Down(a, x, d, k)
  }

  /** `B^T · v`, component `i`. */
  function Up(b: Matrix, v: int -> real, r: nat, i: int): real {
    Sum(r, UpTerm(b, v, i))
  }

  function UpTerm(b: Matrix, v: int -> real, i: int): int -> real {
    k => Times(At(b, k, i), v(k))
  }

  /** Component `i` of `x + scale · (x · A · B)`. */
  function ForwardAt(a: Matrix, b: Matrix, scale: real, x: Vector, d: nat, r: nat, i: int): real {
    Entry(x, i) + Times(scale, Up(b, DownVector(a, x, d), r, i))
  }

  function Forward(a: Matrix, b: Matrix, scale: real, x: Vector, d: nat, r: nat): int -> real {
    i => ForwardAt(a, b, scale, x, d, r, i)
  }

  /** What reaches component `i` from input `j` through rank `k`. */
  function PathTerm(a: Matrix, b: Matrix, x: Vector, i: int): (int, int) -> real {
    (j, k) => Times(Times(Entry(x, j), At(a, j, k)), At(b, k, i))
  }

  /** The forward pass adds to each input component what reaches it along all paths, scaled. */
  lemma ForwardIsPaths(a: Matrix, b: Matrix, scale: real, x: Vector, d: nat, r: nat, i: int)
    ensures ForwardAt(a, b, scale, x, d, r, i) == Entry(x, i) + Times(scale, Sum(d, RowSums(r, PathTerm(a, b, x, i))))
  {
    hide Times;
    var paths := PathTerm(a, b, x, i);
    var up := UpTerm(b, DownVector(a, x, d), i);
    forall k ensures ColumnSums(d, paths)(k) == up(k) {
      var column := j => paths(j, k);
      forall j ensures column(j) == Times(At(b, k, i), DownTerm(a, x, k)(j)) {
        Regroup(Entry(x, j), At(a, j, k), 1.0);
        Regroup(At(b, k, i), Times(Entry(x, j), At(a, j, k)), 1.0);
      }
      SumScale(d, At(b, k, i), DownTerm(a, x, k), column);
    }
    SumSame(r, ColumnSums(d, paths), up);
    SumSwap(d, r, paths);
  }

  /** An adapter whose B is all zero passes its input through. */
  lemma ZeroAdapterIsIdentity(a: Matrix, b: Matrix, scale: real, x: Vector, d: nat, r: nat, i: nat)
    requires i < |x| && forall k, j :: At(b, k, j) == 0.0
    ensures ForwardAt(a, b, scale, x, d, r, i) == x[i]
  {
    forall k ensures UpTerm(b, DownVector(a, x, d), i)(k) == 0.0 {
      TimesZero(DownVector(a, x, d)(k));
    }
    SumZero(r, UpTerm(b, DownVector(a, x, d), i));
    TimesZero(scale);
  }

  // ----- the backward pass -----

  /** `scale · B · g`, component `k`. */
  function GradDown(b: Matrix, scale: real, g: Vector, d: nat, k: int): real {
    Times(scale, Sum(d, GradDownTerm(b, g, k)))
  }

  function GradDownTerm(b: Matrix, g: Vector, k: int): int -> real {
    i => Times(At(b, k, i), Entry(g, i))
  }

  /** The gradient with respect to A: `outer(x, scale · B · g)`. */
  function GradA(b: Matrix, scale: real, x: Vector, g: Vector, d: nat): (int, int) -> real {
    (j, k) => Times(Entry(x, j), GradDown(b, scale, g, d, k))
  }

  /** The gradient with respect to B: `scale · outer(A^T x, g)`. */
  function GradB(a: Matrix, scale: real, x: Vector, g: Vector, d: nat): (int, int) -> real {
    (k, i) => Times(scale, Times(Down(a, x, d, k), Entry(g, i)))
  }

  // ----- what a gradient has to match -----

  /** How the loss gradient sees a change of the output. */
  ghost function OutputChange(g: Vector, before: int -> real, after: int -> real, d: nat): real {
    Sum(d, ChangeTerm(g, before, after))
  }

  ghost function ChangeTerm(g: Vector, before: int -> real, after: int -> real): int -> real {
    i => Times(Entry(g, i), after(i) - before(i))
  }

  /** The inner product of a gradient with a perturbation. */
  ghost function MatrixInner(grad: (int, int) -> real, e: Matrix, rows: nat, columns: nat): real {
    Sum(rows, RowSums(columns, Pairing(grad, e)))
  }

  ghost function Pairing(grad: (int, int) -> real, e: Matrix): (int, int) -> real {
    (i, j) => Times(grad(i, j), At(e, i, j))
  }

  /** `m'` is `m` perturbed by `e`. */
  ghost predicate Perturbed(m': Matrix, m: Matrix, e: Matrix) {
    forall i, j :: At(m', i, j) == At(m, i, j) + At(e, i, j)
  }

  // ----- products -----

  lemma ThreeFactors(x: real, c: real, e: real)
    ensures Times(Times(x, c), e) == Times(c, Times(e, x))
  {
  }

  // ----- the derivative with respect to A -----

  lemma DownPerturbed(a': Matrix, a: Matrix, e: Matrix, x: Vector, d: nat, k: int)
    requires Perturbed(a', a, e)
    ensures Down(a', x, d, k) == Down(a, x, d, k) + Down(e, x, d, k)
  {
    forall j ensures DownTerm(a', x, k)(j) == DownTerm(a, x, k)(j) + DownTerm(e, x, k)(j) {
      Distribute(At(a, j, k), At(e, j, k), Entry(x, j));
    }
    SumAdd(d, DownTerm(a, x, k), DownTerm(e, x, k), DownTerm(a', x, k));
  }

  /** Perturbing A moves output `i` by `scale · Σ_k B[k,i] · (E^T x)[k]`. */
  lemma ForwardMovesA(a': Matrix, a: Matrix, e: Matrix, b: Matrix, scale: real, x: Vector, d: nat, r: nat, i: int)
    requires Perturbed(a', a, e)
    ensures ForwardAt(a', b, scale, x, d, r, i) - ForwardAt(a, b, scale, x, d, r, i)
            == Times(scale, Up(b, DownVector(e, x, d), r, i))
  {
    var u', u, v := DownVector(a', x, d), DownVector(a, x, d), DownVector(e, x, d);
    forall k ensures UpTerm(b, u', i)(k) == UpTerm(b, u, i)(k) + UpTerm(b, v, i)(k) {
      DownPerturbed(a', a, e, x, d, k);
      hide Down, Times;
      Distribute(u(k), v(k), At(b, k, i));
    }
    SumAdd(r, UpTerm(b, u, i), UpTerm(b, v, i), UpTerm(b, u', i));
    hide Times;
    Distribute(Up(b, u, r, i), Up(b, v, r, i), scale);
  }

  /** `g[i] · scale · B[k,i] · v[k]`, the term both sides are sums of. */
  ghost function Mixed(b: Matrix, scale: real, g: Vector, v: int -> real): (int, int) -> real {
    (i, k) => Times(Times(v(k), scale), Times(At(b, k, i), Entry(g, i)))
  }

  lemma MixedRow(b: Matrix, scale: real, g: Vector, v: int -> real, r: nat, i: int)
    ensures RowSums(r, Mixed(b, scale, g, v))(i) == Times(Entry(g, i), Times(scale, Up(b, v, r, i)))
  {
    hide Times;
    var c := Times(Entry(g, i), scale);
    forall k ensures Mixed(b, scale, g, v)(i, k) == Times(c, UpTerm(b, v, i)(k)) {
      FourFactors(v(k), scale, At(b, k, i), Entry(g, i));
    }
    SumScale(r, c, UpTerm(b, v, i), k => Mixed(b, scale, g, v)(i, k));
    Regroup(Entry(g, i), scale, Up(b, v, r, i));
  }

  lemma FourFactors(v: real, s: real, b: real, g: real)
    ensures Times(Times(v, s), Times(b, g)) == Times(Times(g, s), Times(b, v))
  {
  }

  lemma MixedColumn(b: Matrix, scale: real, g: Vector, v: int -> real, d: nat, k: int)
    ensures ColumnSums(d, Mixed(b, scale, g, v))(k) == Times(v(k), GradDown(b, scale, g, d, k))
  {
    hide Times;
    var c := Times(v(k), scale);
    var column := (i: int) => Mixed(b, scale, g, v)(i, k);
    forall i ensures column(i) == Times(c, GradDownTerm(b, g, k)(i)) {
      assert Mixed(b, scale, g, v)(i, k) == Times(c, Times(At(b, k, i), Entry(g, i)));
    }
    SumScale(d, c, GradDownTerm(b, g, k), column);
    SumSame(d, column, i => Mixed(b, scale, g, v)(i, k));
    Regroup(v(k), scale, Sum(d, GradDownTerm(b, g, k)));
  }

  lemma PairingColumn(b: Matrix, scale: real, x: Vector, g: Vector, e: Matrix, d: nat, k: int)
    ensures ColumnSums(d, Pairing(GradA(b, scale, x, g, d), e))(k) == Times(DownVector(e, x, d)(k), GradDown(b, scale, g, d, k))
  {
    hide Times, GradDown;
    var c := GradDown(b, scale, g, d, k);
    var f := Pairing(GradA(b, scale, x, g, d), e);
    forall j ensures f(j, k) == Times(c, DownTerm(e, x, k)(j)) {
      ThreeFactors(Entry(x, j), c, At(e, j, k));
    }
    SumScale(d, c, DownTerm(e, x, k), j => f(j, k));
    Regroup(c, Down(e, x, d, k), 0.0);
  }

  /** `backward` returns the exact derivative in A: its inner product with any perturbation is the change of the output. */
  lemma GradAIsDerivative(
    a': Matrix, a: Matrix, e: Matrix, b: Matrix, scale: real, x: Vector, g: Vector, d: nat, r: nat)
    requires Perturbed(a', a, e)
    ensures OutputChange(g, Forward(a, b, scale, x, d, r), Forward(a', b, scale, x, d, r), d)
            == MatrixInner(GradA(b, scale, x, g, d), e, d, r)
  {
    hide Times, ForwardAt, Up, Down, GradDown;
    var v := DownVector(e, x, d);
    var mixed := Mixed(b, scale, g, v);
    var pairing := Pairing(GradA(b, scale, x, g, d), e);
    var before, after := Forward(a, b, scale, x, d, r), Forward(a', b, scale, x, d, r);
    forall i ensures ChangeTerm(g, before, after)(i) == RowSums(r, mixed)(i) {
      ForwardMovesA(a', a, e, b, scale, x, d, r, i);
      MixedRow(b, scale, g, v, r, i);
    }
    SumSame(d, ChangeTerm(g, before, after), RowSums(r, mixed));
    SumSwap(d, r, mixed);
    forall k ensures ColumnSums(d, mixed)(k) == ColumnSums(d, pairing)(k) {
      MixedColumn(b, scale, g, v, d, k);
      PairingColumn(b, scale, x, g, e, d, k);
    }
    SumSame(r, ColumnSums(d, mixed), ColumnSums(d, pairing));
    SumSwap(d, r, pairing);
  }

  // ----- the derivative with respect to B -----

  lemma ForwardMovesB(b': Matrix, b: Matrix, e: Matrix, a: Matrix, scale: real, x: Vector, d: nat, r: nat, i: int)
    requires Perturbed(b', b, e)
    ensures ForwardAt(a, b', scale, x, d, r, i) - ForwardAt(a, b, scale, x, d, r, i)
            == Times(scale, Up(e, DownVector(a, x, d), r, i))
  {
    hide Times, Down;
    var u := DownVector(a, x, d);
    forall k ensures UpTerm(b', u, i)(k) == UpTerm(b, u, i)(k) + UpTerm(e, u, i)(k) {
      Distribute(At(b, k, i), At(e, k, i), u(k));
    }
    SumAdd(r, UpTerm(b, u, i), UpTerm(e, u, i), UpTerm(b', u, i));
    Distribute(Up(b, u, r, i), Up(e, u, r, i), scale);
  }

  lemma PairingColumnB(a: Matrix, scale: real, x: Vector, g: Vector, e: Matrix, d: nat, r: nat, i: int)
    ensures ColumnSums(r, Pairing(GradB(a, scale, x, g, d), e))(i)
            == Times(Entry(g, i), Times(scale, Up(e, DownVector(a, x, d), r, i)))
  {
    hide Times, Down;
    var u := DownVector(a, x, d);
    var c := Times(Entry(g, i), scale);
    var f := Pairing(GradB(a, scale, x, g, d), e);
    forall k ensures f(k, i) == Times(c, UpTerm(e, u, i)(k)) {
      FourFactorsB(scale, u(k), Entry(g, i), At(e, k, i));
    }
    SumScale(r, c, UpTerm(e, u, i), k => f(k, i));
    Regroup(Entry(g, i), scale, Up(e, u, r, i));
  }

  lemma FourFactorsB(s: real, u: real, g: real, e: real)
    ensures Times(Times(s, Times(u, g)), e) == Times(Times(g, s), Times(e, u))
  {
  }

  /** The same for B. */
  lemma GradBIsDerivative(
    b': Matrix, b: Matrix, e: Matrix, a: Matrix, scale: real, x: Vector, g: Vector, d: nat, r: nat)
    requires Perturbed(b', b, e)
    ensures OutputChange(g, Forward(a, b, scale, x, d, r), Forward(a, b', scale, x, d, r), d)
            == MatrixInner(GradB(a, scale, x, g, d), e, r, d)
  {
    hide Times, ForwardAt, Up, Down;
    var pairing := Pairing(GradB(a, scale, x, g, d), e);
    var before, after := Forward(a, b, scale, x, d, r), Forward(a, b', scale, x, d, r);
    forall i ensures ChangeTerm(g, before, after)(i) == ColumnSums(r, pairing)(i) {
      ForwardMovesB(b', b, e, a, scale, x, d, r, i);
      PairingColumnB(a, scale, x, g, e, d, r, i);
    }
    SumSame(d, ChangeTerm(g, before, after), ColumnSums(r, pairing));
    SumSwap(r, d, pairing);
  }

  // ----- the flat parameter layout -----

  /** A matrix read row by row. */
  function Flatten(m: Matrix): seq<real> {
    if m == [] then [] else Flatten(m[..|m| - 1]) + m[|m| - 1]
  }

  /** Row-major position of a cell, and (with row = number of rows) the size of a matrix. */
  function Index(columns: nat, row: nat, column: nat): nat {
    row * columns + column
  }

  lemma IndexBelow(columns: nat, row: nat, column: nat, rows: nat)
    ensures Index(columns, 0, 0) == 0 && Index(columns, rows + 1, 0) == Index(columns, rows, 0) + columns
    ensures row < rows && column < columns ==> Index(columns, row, column) < Index(columns, rows, 0)
    ensures Index(columns, row, column) == Index(columns, row, 0) + column
  {
    ScaleLess(row + 1, rows, columns);
  }

  lemma ScaleLess(x: nat, y: nat, z: nat)
    ensures x <= y ==> x * z <= y * z
  {
  }

  /** Flattening puts row `i`, column `j` at its row-major position. */
  lemma {:induction false} FlattenIndex(m: Matrix, rows: nat, columns: nat, i: nat, j: nat)
    requires Shape(m, rows, columns)
    ensures |Flatten(m)| == Index(columns, rows, 0)
    ensures i < rows && j < columns ==>
              Index(columns, i, j) < |Flatten(m)| && Flatten(m)[Index(columns, i, j)] == m[i][j]
    decreases rows
  {
    hide Index;
    IndexBelow(columns, i, j, rows);
    if rows > 0 {
      FlattenIndex(m[..rows - 1], rows - 1, columns, i, j);
      IndexBelow(columns, i, j, rows - 1);
    }
  }

  /** The layout EWC works on: A, then B. */
  function FlatParameters(a: Matrix, b: Matrix): seq<real> {
    Flatten(a) + Flatten(b)
  }

  // ----- the adapter object -----

  function Outer(u: Vector, v: Vector): Matrix {
    seq(|u|, i requires 0 <= i < |u| => seq(|v|, j requires 0 <= j < |v| => Times(u[i], v[j])))
  }

  function Scaled(c: real, v: Vector): Vector {
    seq(|v|, i requires 0 <= i < |v| => Times(c, v[i]))
  }

  class MicroLoRA {
    const d: nat
    const r: nat
    const scale: real
    var a: Matrix
    var b: Matrix

    ghost predicate Valid()
      reads this
    {
      Shape(a, d, r) && Shape(b, r, d)
    }

    constructor (d: nat, r: nat, scale: real, a: Matrix, b: Matrix)
      requires Shape(a, d, r) && Shape(b, r, d)
      ensures Valid() && this.d == d && this.r == r && this.scale == scale && this.a == a && this.b == b
    {
      this.d, this.r, this.scale, this.a, this.b := d, r, scale, a, b;
    }

    /** `output = input + scale · (input · A · B)`. */
    method ForwardPass(input: Vector) returns (output: Vector)
      requires Valid() && |input| == d
      ensures |output| == d && forall i :: 0 <= i < d ==> output[i] == ForwardAt(a, b, scale, input, d, r, i)
      ensures forall i :: 0 <= i < d ==> output[i] == input[i] + Times(scale, Sum(d, RowSums(r, PathTerm(a, b, input, i))))
    {
      hide Times, Down;
      var a, b := a, b;
      var down := seq(r, k => Down(a, input, d, k));
      var up := seq(d, i => Up(b, k => Entry(down, k), r, i));
      output := input;
      for i := 0 to d
        invariant |output| == d
        invariant forall j :: 0 <= j < i ==> output[j] == ForwardAt(a, b, scale, input, d, r, j)
        invariant forall j :: i <= j < d ==> output[j] == input[j]
      {
        ghost var u, v := UpTerm(b, k => Entry(down, k), i), UpTerm(b, DownVector(a, input, d), i);
        forall k | 0 <= k < r ensures u(k) == v(k) {
          assert Entry(down, k) == DownVector(a, input, d)(k);
        }
        SumSame(r, u, v);
        assert up[i] == Up(b, DownVector(a, input, d), r, i);
        output := output[i := output[i] + Times(scale, up[i])];
      }
      forall i | 0 <= i < d ensures output[i] == input[i] + Times(scale, Sum(d, RowSums(r, PathTerm(a, b, input, i)))) {
        ForwardIsPaths(a, b, scale, input, d, r, i);
      }
    }

    /** The gradients of the loss with respect to A and B. */
    method Backward(input: Vector, gradOutput: Vector) returns (gradA: Matrix, gradB: Matrix)
      requires Valid() && |input| == d && |gradOutput| == d
      ensures Shape(gradA, d, r) && Shape(gradB, r, d)
      ensures forall j, k :: 0 <= j < d && 0 <= k < r ==> gradA[j][k] == GradA(b, scale, input, gradOutput, d)(j, k)
      ensures forall k, i :: 0 <= k < r && 0 <= i < d ==> gradB[k][i] == GradB(a, scale, input, gradOutput, d)(k, i)
    {
      hide Times, Down, Sum;
      var a, b := a, b;
      var down := seq(r, k => Down(a, input, d, k));
      var outerB := Outer(down, gradOutput);
      gradB := seq(r, k requires 0 <= k < |outerB| => Scaled(scale, outerB[k]));
      var gradDown := seq(r, k => GradDown(b, scale, gradOutput, d, k));
      gradA := Outer(input, gradDown);
    }

    /** One gradient step with separate learning rates. */
    method UpdateWeights(gradA: Matrix, gradB: Matrix, lrA: real, lrB: real)
      requires Valid() && Shape(gradA, d, r) && Shape(gradB, r, d)
      modifies this
      ensures Valid()
      ensures forall j, k :: 0 <= j < d && 0 <= k < r ==> a[j][k] == old(a)[j][k] - Times(lrA, gradA[j][k])
      ensures forall k, i :: 0 <= k < r && 0 <= i < d ==> b[k][i] == old(b)[k][i] - Times(lrB, gradB[k][i])
    {
      hide Times;
      a := Stepped(a, gradA, lrA, d, r);
      b := Stepped(b, gradB, lrB, r, d);
    }

    method ParametersFlat() returns (flat: seq<real>)
      requires Valid()
      ensures flat == FlatParameters(a, b)
    {
      var first, second := [], [];
      for i := 0 to |a|
        invariant first == Flatten(a[..i])
      {
        assert a[..i + 1][..i] == a[..i];
        first := first + a[i];
      }
      for i := 0 to |b|
        invariant second == Flatten(b[..i])
      {
        assert b[..i + 1][..i] == b[..i];
        second := second + b[i];
      }
      assert a[..|a|] == a && b[..|b|] == b;
      flat := first + second;
    }
  }

  /** Where the flat vector keeps each weight: A row by row, then B row by row. */
  lemma FlatLayout(a: Matrix, b: Matrix, d: nat, r: nat, j: nat, k: nat)
    requires Shape(a, d, r) && Shape(b, r, d) && j < d && k < r
    ensures var flat := FlatParameters(a, b);
            && |flat| == 2 * (d * r)
            && 0 <= j * r + k < d * r && flat[j * r + k] == a[j][k]
            && 0 <= k * d + j < d * r && flat[d * r + (k * d + j)] == b[k][j]
  {
    FlattenIndex(a, d, r, j, k);
    FlattenIndex(b, r, d, k, j);
    assert Index(r, d, 0) == d * r && Index(d, r, 0) == r * d;
  }

  function Stepped(m: Matrix, grad: Matrix, rate: real, rows: nat, columns: nat): Matrix
    requires Shape(m, rows, columns) && Shape(grad, rows, columns)
  {
    seq(rows, i requires 0 <= i < rows =>
      seq(columns, j requires 0 <= j < columns => m[i][j] - Times(rate, grad[i][j])))
  }
}
