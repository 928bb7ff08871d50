/** Grids of cell values: the representation shared by the board and the
    piece shapes, the zero grid builder and the clockwise rotation. */
module Matrices {

  type Row = seq<int>
  type Matrix = seq<Row>

  /** A non-empty rectangular grid: every row as long as the first. */
  predicate IsGrid(m: Matrix) {
    |m| > 0 && |m[0]| > 0 && forall j :: 0 <= j < |m| ==> |m[j]| == |m[0]|
  }

  /** Every cell holds a cell value 0..7 (0 empty, 1..7 a piece type). */
  predicate InRange(m: Matrix) {
    forall j, i :: 0 <= j < |m| && 0 <= i < |m[j]| ==> 0 <= m[j][i] <= 7
  }

  /** A piece shape: a rectangular grid of cell values. */
  predicate IsShape(m: Matrix) {
    IsGrid(m) && InRange(m)
  }

  /** Cell (y, x) exists in `m` and is occupied. */
  predicate Covers(m: Matrix, y: int, x: int) {
    0 <= y < |m| && 0 <= x < |m[y]| && m[y][x] != 0
  }

  function ZeroRow(w: nat): Row {
    seq(w, _ => 0)
  }

  function EmptyMatrix(w: nat, h: nat): Matrix {
    seq(h, _ => ZeroRow(w))
  }

  /** createMatrix(w, h): pushes h rows of w zeros, counting h down. */
  method CreateMatrix(w: nat, h: nat) returns (m: Matrix)
    ensures m == EmptyMatrix(w, h)
  {
    m := [];
    var n := h;
    while n > 0
      invariant 0 <= n <= h
      invariant m == EmptyMatrix(w, h - n)
    {
      m := m + [ZeroRow(w)];
      n := n - 1;
    }
  }

  /** Array.prototype.reverse on a row. */
  function Reversed(s: Row): (r: Row)
    ensures |r| == |s|
    ensures forall k :: 0 <= k < |s| ==> r[k] == s[|s| - 1 - k]
  {
    if |s| == 0 then [] else [s[|s| - 1]] + Reversed(s[..|s| - 1])
  }

  /** matrix.map(row => row[i]): the i-th column, top to bottom. */
  function Column(m: Matrix, i: nat): Row
    requires forall j :: 0 <= j < |m| ==> i < |m[j]|
  {
    seq(|m|, j requires 0 <= j < |m| => m[j][i])
  }

  /** rotate: row i of the result is column i read bottom to top, so an
      h-by-w grid becomes a w-by-h grid. */
  function Rotate(m: Matrix): (r: Matrix)
    requires IsGrid(m)
    ensures IsGrid(r) && |r| == |m[0]| && |r[0]| == |m|
    ensures InRange(m) ==> InRange(r)
  {
    seq(|m[0]|, i requires 0 <= i < |m[0]| => Reversed(Column(m, i)))
  }

  /** The quarter turn clockwise, cell by cell: r[i][j] = m[h-1-j][i]. */
  lemma RotateCell(m: Matrix, i: nat, j: nat)
    requires IsGrid(m) && i < |m[0]| && j < |m|
    ensures Rotate(m)[i][j] == m[|m| - 1 - j][i]
  {
    var col := Column(m, i);
    assert Rotate(m)[i] == Reversed(col);
    assert Reversed(col)[j] == col[|m| - 1 - j];
  }

  /** Two quarter turns are a half turn: r[i][j] = m[h-1-i][w-1-j]. */
  lemma RotateTwiceCell(m: Matrix, i: nat, j: nat)
    requires IsGrid(m) && i < |m| && j < |m[0]|
    ensures |Rotate(Rotate(m))| == |m| && |Rotate(Rotate(m))[0]| == |m[0]|
    ensures Rotate(Rotate(m))[i][j] == m[|m| - 1 - i][|m[0]| - 1 - j]
  {
    var r1 := Rotate(m);
    RotateCell(r1, i, j);
    RotateCell(m, |m[0]| - 1 - j, i);
  }

  /** Four quarter turns give back the original grid; this is why three
      more turns undo a rejected rotation. */
  lemma RotateFour(m: Matrix)
    requires IsGrid(m)
    ensures Rotate(Rotate(Rotate(Rotate(m)))) == m
  {
    var h, w := |m|, |m[0]|;
    var r2 := Rotate(Rotate(m));
    var r4 := Rotate(Rotate(r2));
    assert |r2| == h && |r2[0]| == w;
    forall i | 0 <= i < h
      ensures r4[i] == m[i]
    {
      forall j | 0 <= j < w
        ensures r4[i][j] == m[i][j]
      {
        RotateTwiceCell(r2, i, j);
        RotateTwiceCell(m, h - 1 - i, w - 1 - j);
      }
    }
  }

  /** Every occupied cell of `m` holds `v`. */
  predicate FilledWith(m: Matrix, v: int) {
    forall y, x :: 0 <= y < |m| && 0 <= x < |m[y]| && m[y][x] != 0 ==> m[y][x] == v
  }

  /** Rotation keeps a piece a single type: same fill value. */
  lemma RotateKeepsFill(m: Matrix, v: int)
    requires IsGrid(m) && FilledWith(m, v)
    ensures FilledWith(Rotate(m), v)
  {
    var r := Rotate(m);
    forall y, x | Covers(r, y, x)
      ensures r[y][x] == v
    {
      RotateCell(m, y, x);
      assert Covers(m, |m| - 1 - x, y);
    }
  }
}
