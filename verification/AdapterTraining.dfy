/**
 Adding the EWC gradient to the adapter gradients (crates/unimatrix-adapt/src/training.rs):
 a flat vector is spread over two matrices in place by division and remainder.
 */
module AdapterTraining {
  import opened Prelude
  import opened Lora

  /** The contents of a two-dimensional array. */
  ghost function Rows(m: array2<real>): Matrix
    reads m
  {
    seq(m.Length0, i requires 0 <= i < m.Length0 reads m =>
      seq(m.Length1, j requires 0 <= j < m.Length1 reads m => m[i, j]))
  }

  /** Division and remainder find the one cell at a row-major position. */
  lemma CellOf(columns: nat, i: nat, row: nat, column: nat)
    requires columns > 0 && column < columns
    ensures Index(columns, row, column) == i <==> row == i / columns && column == i % columns
  {
    var q := i / columns;
    assert i == q * columns + i % columns;
    ScaleLess(row + 1, q, columns);
    ScaleLess(q + 1, row, columns);
  }

  lemma RowExists(columns: nat, i: nat, rows: nat)
    requires columns > 0
    ensures i < Index(columns, rows, 0) <==> i / columns < rows
  {
    var q := i / columns;
    assert i == q * columns + i % columns;
    ScaleLess(rows, q, columns);
    ScaleLess(q + 1, rows, columns);
  }

  /** A cell after components `0 .. i` of `v` have been added. */
  ghost function CellValue(before: real, columns: nat, row: nat, column: nat, v: seq<real>, i: nat): real {
    before + if Index(columns, row, column) < i then Entry(v, Index(columns, row, column)) else 0.0
  }

  lemma CellStep(before: real, columns: nat, y: nat, x: nat, v: seq<real>, i: nat, row: nat, column: nat)
    requires x < columns && column < columns && i < |v| && Index(columns, row, column) == i
    ensures CellValue(before, columns, y, x, v, i + 1)
         == CellValue(before, columns, y, x, v, i) + if y == row && x == column then v[i] else 0.0
  {
    CellOf(columns, i, row, column);
    CellOf(columns, i, y, x);
  }

  method SplitIndex(columns: nat, i: nat) returns (row: nat, column: nat)
    requires columns > 0
    ensures column < columns && Index(columns, row, column) == i
  {
    row, column := i / columns, i % columns;
    CellOf(columns, i, row, column);
  }

  ghost predicate AddedUpTo(before: Matrix, m: array2<real>, v: seq<real>, i: nat)
    reads m
    requires Shape(before, m.Length0, m.Length1)
  {
    forall row, column :: 0 <= row < m.Length0 && 0 <= column < m.Length1 ==>
      m[row, column] == CellValue(before[row][column], m.Length1, row, column, v, i)
  }

  /** One of the two loops: component `i` goes to row `i / columns`, column `i % columns`, if that row exists. */
  method AddInto(m: array2<real>, v: seq<real>)
    requires |v| > 0 ==> m.Length1 > 0
    modifies m
    ensures AddedUpTo(old(Rows(m)), m, v, |v|)
  {
    ghost var before := Rows(m);
    for i := 0 to |v|
      invariant AddedUpTo(before, m, v, i)
    {
      hide CellValue, Index;
      var row, column := SplitIndex(m.Length1, i);
      forall y, x | 0 <= y < m.Length0 && 0 <= x < m.Length1
        ensures CellValue(before[y][x], m.Length1, y, x, v, i + 1)
             == m[y, x] + if y == row && x == column then v[i] else 0.0
      {
        CellStep(before[y][x], m.Length1, y, x, v, i, row, column);
      }
      if row < m.Length0 {
        m[row, column] := m[row, column] + v[i];
      }
    }
  }

  /**
   Adds the flat EWC gradient to both matrices. Read back in the flat parameter
   layout, every component has landed on the parameter it belongs to, and
   components beyond the last parameter are ignored.
   */
  method AddEwcGradient(gradA: array2<real>, gradB: array2<real>, ewc: seq<real>, d: nat, r: nat)
    requires gradA != gradB
    requires gradA.Length0 == d && gradA.Length1 == r && gradB.Length0 == r && gradB.Length1 == d
    requires |ewc| > 0 ==> d > 0
    modifies gradA, gradB
    ensures var (before, after) := (old(FlatParameters(Rows(gradA), Rows(gradB))), FlatParameters(Rows(gradA), Rows(gradB)));
            && |after| == |before| == 2 * (d * r)
            && forall i :: 0 <= i < |after| ==> after[i] == before[i] + Entry(ewc, i)
  {
    ghost var a, b := Rows(gradA), Rows(gradB);
    var size := d * r;
    var n := Min(size, |ewc|);
    assert n > 0 ==> r > 0;
    AddInto(gradA, ewc[..n]);
    AddInto(gradB, ewc[n..]);
    AddedFlat(a, gradA, ewc[..n]);
    AddedFlat(b, gradB, ewc[n..]);
    FlatHalves(a, b, Rows(gradA), Rows(gradB), ewc, d, r);
  }

  lemma FlatHalves(a: Matrix, b: Matrix, a': Matrix, b': Matrix, ewc: seq<real>, d: nat, r: nat)
    requires |Flatten(a)| == |Flatten(a')| == Index(r, d, 0) && |Flatten(b)| == |Flatten(b')| == Index(d, r, 0)
    requires var n := Min(d * r, |ewc|);
             && (forall i :: 0 <= i < |Flatten(a)| ==> Flatten(a')[i] == Flatten(a)[i] + Entry(ewc[..n], i))
             && (forall i :: 0 <= i < |Flatten(b)| ==> Flatten(b')[i] == Flatten(b)[i] + Entry(ewc[n..], i))
    ensures var (before, after) := (FlatParameters(a, b), FlatParameters(a', b'));
            && |after| == |before| == 2 * (d * r)
            && forall i :: 0 <= i < |after| ==> after[i] == before[i] + Entry(ewc, i)
  {
    hide Flatten;
    var size := d * r;
    var n := Min(size, |ewc|);
    assert Index(r, d, 0) == size == Index(d, r, 0);
    hide Index;
    forall i | 0 <= i < 2 * size
      ensures FlatParameters(a', b')[i] == FlatParameters(a, b)[i] + Entry(ewc, i)
    {
      if i < size {
        assert Entry(ewc[..n], i) == Entry(ewc, i);
      } else {
        assert Entry(ewc[n..], i - size) == Entry(ewc, i);
      }
    }
  }

  /** In row-major order the additions line up with the components. */
  lemma AddedFlat(before: Matrix, m: array2<real>, v: seq<real>)
    requires Shape(before, m.Length0, m.Length1) && AddedUpTo(before, m, v, |v|)
    requires |v| > 0 ==> m.Length1 > 0
    ensures |Flatten(before)| == |Flatten(Rows(m))| == Index(m.Length1, m.Length0, 0)
    ensures forall i :: 0 <= i < |Flatten(before)| ==> Flatten(Rows(m))[i] == Flatten(before)[i] + Entry(v, i)
  {
    hide Flatten, Index;
    var after, rows, columns := Rows(m), m.Length0, m.Length1;
    FlattenIndex(before, rows, columns, 0, 0);
    FlattenIndex(after, rows, columns, 0, 0);
    if columns == 0 {
      NoCells(rows);
    } else {
      forall i | 0 <= i < |Flatten(before)| ensures Flatten(after)[i] == Flatten(before)[i] + Entry(v, i) {
        var row, column := i / columns, i % columns;
        CellOf(columns, i, row, column);
        RowExists(columns, i, rows);
        FlattenIndex(before, rows, columns, row, column);
        FlattenIndex(after, rows, columns, row, column);
        assert after[row][column] == m[row, column];
      }
    }
  }

  lemma NoCells(rows: nat)
    ensures Index(0, rows, 0) == 0
  {
  }
}
