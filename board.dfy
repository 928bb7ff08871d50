/** The board: a 20-row, 10-column grid of settled cells, with merging a
    piece into it and sweeping full rows out of it. */
module Board {
  import opened Matrices
  import opened Collision

  const Rows: nat := 20
  const Cols: nat := 10

  /** The board invariant: 20 rows of 10 cells, each cell 0..7. */
  predicate IsBoard(b: Matrix) {
    |b| == Rows && (forall r :: 0 <= r < |b| ==> |b[r]| == Cols) && InRange(b)
  }

  /** createMatrix(cols, rows). */
  function EmptyBoard(): Matrix {
    EmptyMatrix(Cols, Rows)
  }

  lemma EmptyBoardIsBoard()
    ensures IsBoard(EmptyBoard()) && NoFullRow(EmptyBoard())
    ensures forall r, c :: 0 <= r < Rows && 0 <= c < Cols ==> EmptyBoard()[r][c] == 0
  {
    var b := EmptyBoard();
    forall r | 0 <= r < |b|
      ensures !IsFull(b[r])
    {
      assert b[r][0] == 0;
    }
  }

  // ---- merge

  /** The board after writing every occupied cell (y, x) of `m` into cell
      (y + py, x + px); every other cell keeps its value. */
  function Merged(b: Matrix, m: Matrix, px: int, py: int): Matrix {
    seq(|b|, r requires 0 <= r < |b| =>
      seq(|b[r]|, c requires 0 <= c < |b[r]| =>
        if Covers(m, r - py, c - px) then m[r - py][c - px] else b[r][c]))
  }

  /** Merging a shape into a board leaves a board. */
  lemma MergedIsBoard(b: Matrix, m: Matrix, px: int, py: int)
    requires IsBoard(b) && InRange(m)
    ensures IsBoard(Merged(b, m, px, py))
  {
    var b' := Merged(b, m, px, py);
    forall r, c | 0 <= r < |b'| && 0 <= c < |b'[r]|
      ensures 0 <= b'[r][c] <= 7
    {
      if Covers(m, r - py, c - px) {
        assert b'[r][c] == m[r - py][c - px];
      } else {
        assert b'[r][c] == b[r][c];
      }
    }
  }

  /** Merging a shape at a collision-free placement that has an occupied
      cell makes that same placement collide afterwards. */
  lemma MergeThenCollides(b: Matrix, m: Matrix, px: int, py: int)
    requires !Collides(b, m, px, py)
    requires exists y, x :: Covers(m, y, x)
    ensures Collides(Merged(b, m, px, py), m, px, py)
  {
    var y, x :| Covers(m, y, x);
    assert !Blocked(b, y + py, x + px);
    var b' := Merged(b, m, px, py);
    assert Covers(m, (y + py) - py, (x + px) - px);
    assert b'[y + py][x + px] == m[y][x];
    assert Blocked(b', y + py, x + px);
  }

  // ---- sweep

  /** A row with no empty cell. */
  predicate IsFull(row: Row) {
    forall c :: 0 <= c < |row| ==> row[c] != 0
  }

  predicate NoFullRow(b: Matrix) {
    forall r :: 0 <= r < |b| ==> !IsFull(b[r])
  }

  /** The inner loop of sweep: a row is full unless some cell is 0. */
  method RowFull(row: Row) returns (full: bool)
    ensures full <==> IsFull(row)
  {
    var x := 0;
    while x < |row|
      invariant 0 <= x <= |row|
      invariant forall c :: 0 <= c < x ==> row[c] != 0
    {
      if row[x] == 0 {
        return false;
      }
      x := x + 1;
    }
    return true;
  }

  /** The rows of `b` that are not full, in their original order. */
  function Kept(b: Matrix): Matrix {
    if |b| == 0 then [] else (if IsFull(b[0]) then [] else [b[0]]) + Kept(b[1..])
  }

  /** The number of full rows of `b`. */
  function FullCount(b: Matrix): nat {
    if |b| == 0 then 0 else (if IsFull(b[0]) then 1 else 0) + FullCount(b[1..])
  }

  /** The board after a sweep: one empty row on top for every full row
      removed, then the remaining rows in their original order. */
  function Swept(b: Matrix): Matrix {
    EmptyMatrix(Cols, FullCount(b)) + Kept(b)
  }

  /** Filtering keeps exactly the non-full rows, each in place order. */
  lemma {:induction false} KeptRows(b: Matrix)
    ensures |Kept(b)| + FullCount(b) == |b|
    ensures forall i :: 0 <= i < |Kept(b)| ==> Kept(b)[i] in b && !IsFull(Kept(b)[i])
  {
    if |b| > 0 {
      KeptRows(b[1..]);
      var k := Kept(b);
      assert k == (if IsFull(b[0]) then [] else [b[0]]) + Kept(b[1..]);
      forall i | 0 <= i < |k|
        ensures k[i] in b && !IsFull(k[i])
      {
        if !IsFull(b[0]) && i > 0 {
          assert k[i] == Kept(b[1..])[i - 1];
        }
      }
    }
  }

  /** Filtering and counting distribute over concatenation. */
  lemma {:induction false} KeptAppend(a: Matrix, c: Matrix)
    ensures Kept(a + c) == Kept(a) + Kept(c)
    ensures FullCount(a + c) == FullCount(a) + FullCount(c)
  {
    if |a| == 0 {
      assert a + c == c;
    } else {
      assert (a + c)[1..] == a[1..] + c;
      KeptAppend(a[1..], c);
    }
  }

  /** A board without full rows is filtered to itself. */
  lemma {:induction false} KeptNoFull(b: Matrix)
    requires NoFullRow(b)
    ensures Kept(b) == b && FullCount(b) == 0
  {
    if |b| > 0 {
      KeptNoFull(b[1..]);
      assert [b[0]] + b[1..] == b;
    }
  }

  /** A single row is filtered out exactly when it is full. */
  lemma KeptOne(row: Row)
    ensures Kept([row]) == (if IsFull(row) then [] else [row])
    ensures FullCount([row]) == (if IsFull(row) then 1 else 0)
  {
    assert [row][1..] == [];
  }

  /** Sweeping keeps the board 20 by 10 with cell values 0..7, and leaves no
      full row behind. */
  lemma SweptIsBoard(b: Matrix)
    requires IsBoard(b)
    ensures IsBoard(Swept(b)) && NoFullRow(Swept(b))
  {
    KeptRows(b);
    var n := FullCount(b);
    var s := Swept(b);
    forall r | 0 <= r < |s|
      ensures |s[r]| == Cols && !IsFull(s[r])
      ensures forall c :: 0 <= c < Cols ==> 0 <= s[r][c] <= 7
    {
      if r < n {
        assert s[r] == ZeroRow(Cols);
        assert s[r][0] == 0;
      } else {
        assert s[r] == Kept(b)[r - n];
      }
    }
  }

  /** The board partway through the bottom-up sweep: `lines` emptied rows
      on top, then the rows b[..u] not yet looked at, then the kept rows of
      b[u..]. */
  function SweepLayout(b: Matrix, u: nat, lines: nat): (l: Matrix)
    requires u <= |b|
    ensures |l| == lines + u + |Kept(b[u..])|
  {
    if lines == 0 then b[..u] + Kept(b[u..]) else [ZeroRow(Cols)] + SweepLayout(b, u, lines - 1)
  }

  /** The layout written out: the emptied rows, then the rest. */
  lemma {:induction false} SweepLayoutForm(b: Matrix, u: nat, lines: nat)
    requires u <= |b|
    ensures SweepLayout(b, u, lines) == EmptyMatrix(Cols, lines) + b[..u] + Kept(b[u..])
  {
    if lines > 0 {
      SweepLayoutForm(b, u, lines - 1);
      assert [ZeroRow(Cols)] + EmptyMatrix(Cols, lines - 1) == EmptyMatrix(Cols, lines);
    }
  }

  /** The layout keeps the height of the board, and the row the scan looks
      at is the last row not yet looked at, or an emptied row (never full)
      once every row has been. */
  lemma SweepLayoutRow(b: Matrix, u: nat, lines: nat, y: int)
    requires u <= |b| && lines == FullCount(b[u..])
    requires if u > 0 then y == lines + u - 1 else 0 <= y < lines
    ensures |SweepLayout(b, u, lines)| == |b| && 0 <= y < |b|
    ensures u > 0 ==> SweepLayout(b, u, lines)[y] == b[u - 1]
    ensures u == 0 ==> !IsFull(SweepLayout(b, u, lines)[y])
  {
    KeptRows(b[u..]);
    SweepLayoutForm(b, u, lines);
    if u == 0 {
      assert SweepLayout(b, u, lines)[y] == ZeroRow(Cols);
      assert ZeroRow(Cols)[0] == 0;
    }
  }

  /** Filtering and counting b[i..] take b[i] first. */
  lemma KeptFrom(b: Matrix, i: nat)
    requires i < |b|
    ensures Kept(b[i..]) == (if IsFull(b[i]) then [] else [b[i]]) + Kept(b[i + 1..])
    ensures FullCount(b[i..]) == (if IsFull(b[i]) then 1 else 0) + FullCount(b[i + 1..])
  {
    assert b[i..][1..] == b[i + 1..];
  }

  /** One step of the sweep on a full row: cutting the row out and putting
      an empty row on top gives the layout with one row fewer to look at and
      one more row cleared. */
  lemma SweepStepFull(b: Matrix, u: nat, lines: nat)
    requires 0 < u <= |b| && IsFull(b[u - 1])
    ensures FullCount(b[u - 1..]) == FullCount(b[u..]) + 1
    ensures var l := SweepLayout(b, u, lines);
            var y := lines + u - 1;
            [ZeroRow(Cols)] + l[..y] + l[y + 1..] == SweepLayout(b, u - 1, lines + 1)
  {
    KeptFrom(b, u - 1);
    var front := EmptyMatrix(Cols, lines) + b[..u - 1];
    var rest := Kept(b[u..]);
    var l := SweepLayout(b, u, lines);
    assert l == front + [b[u - 1]] + rest by {
      SweepLayoutForm(b, u, lines);
      assert b[..u] == b[..u - 1] + [b[u - 1]];
    }
    assert SweepLayout(b, u - 1, lines) == front + rest by {
      SweepLayoutForm(b, u - 1, lines);
    }
    CutOut(front, b[u - 1], rest);
  }

  /** Cutting the element after p out of p + [x] + q leaves p + q. */
  lemma CutOut(p: Matrix, x: Row, q: Matrix)
    ensures (p + [x] + q)[..|p|] == p && (p + [x] + q)[|p| + 1..] == q
  {
  }

  /** One step of the sweep on a row that is not full: the row stays where
      it is and counts as looked at. */
  lemma SweepStepKeep(b: Matrix, u: nat, lines: nat)
    requires 0 < u <= |b| && !IsFull(b[u - 1])
    ensures FullCount(b[u - 1..]) == FullCount(b[u..])
    ensures SweepLayout(b, u, lines) == SweepLayout(b, u - 1, lines)
  {
    KeptFrom(b, u - 1);
    assert b[..u] == b[..u - 1] + [b[u - 1]];
    SweepLayoutForm(b, u, lines);
    SweepLayoutForm(b, u - 1, lines);
  }

  /** With every row looked at, the layout is the swept board. */
  lemma SweepLayoutDone(b: Matrix)
    ensures SweepLayout(b, 0, FullCount(b)) == Swept(b)
  {
    assert b[..0] == [] && b[0..] == b;
    SweepLayoutForm(b, 0, FullCount(b));
  }

  /** A board with no full row is left unchanged by a sweep. */
  lemma SweptNoFull(b: Matrix)
    requires NoFullRow(b)
    ensures Swept(b) == b && FullCount(b) == 0
  {
    KeptNoFull(b);
    assert EmptyMatrix(Cols, 0) == [];
  }

  /** Sweeping twice is sweeping once. */
  lemma SweptIdempotent(b: Matrix)
    requires IsBoard(b)
    ensures Swept(Swept(b)) == Swept(b)
  {
    SweptIsBoard(b);
    SweptNoFull(Swept(b));
  }

  /** Rows 5 and 7 full, no other: the two are removed, two empty rows go on
      top and the other eighteen rows keep their order. */
  lemma SweptRowsFiveAndSeven(b: Matrix)
    requires |b| == Rows
    requires IsFull(b[5]) && IsFull(b[7])
    requires forall r :: 0 <= r < Rows && r != 5 && r != 7 ==> !IsFull(b[r])
    ensures FullCount(b) == 2
    ensures Swept(b) == EmptyMatrix(Cols, 2) + b[..5] + [b[6]] + b[8..]
  {
    var top, mid, bottom := b[..5], [b[6]], b[8..];
    assert NoFullRow(top) by {
      forall r | 0 <= r < |top| ensures !IsFull(top[r]) { assert top[r] == b[r]; }
    }
    assert NoFullRow(bottom) by {
      forall r | 0 <= r < |bottom| ensures !IsFull(bottom[r]) { assert bottom[r] == b[r + 8]; }
    }
    var p1 := top + [b[5]];
    var p2 := p1 + mid;
    var p3 := p2 + [b[7]];
    assert Kept(p1) == top && FullCount(p1) == 1 by {
      KeptAppend(top, [b[5]]);
      KeptOne(b[5]);
      KeptNoFull(top);
    }
    assert Kept(p2) == top + mid && FullCount(p2) == 1 by {
      KeptAppend(p1, mid);
      KeptOne(b[6]);
    }
    assert Kept(p3) == top + mid && FullCount(p3) == 2 by {
      KeptAppend(p2, [b[7]]);
      KeptOne(b[7]);
    }
    assert Kept(b) == top + mid + bottom && FullCount(b) == 2 by {
      assert b == p3 + bottom;
      KeptAppend(p3, bottom);
      KeptNoFull(bottom);
    }
  }

  /** If every full row of `b` lies in rows lo..hi-1, at most hi - lo rows
      are full. */
  lemma {:induction false} FullCountWithin(b: Matrix, lo: nat, hi: int)
    requires forall r :: 0 <= r < |b| && IsFull(b[r]) ==> lo <= r < hi
    ensures FullCount(b) <= if lo < hi then hi - lo else 0
  {
    if |b| > 0 {
      var lo' := if lo == 0 then 0 else lo - 1;
      forall r | 0 <= r < |b[1..]| && IsFull(b[1..][r])
        ensures lo' <= r < hi - 1
      {
        assert b[1..][r] == b[r + 1];
      }
      FullCountWithin(b[1..], lo', hi - 1);
    }
  }

  /** Merging a shape of h rows into a board with no full row completes at
      most h rows. */
  lemma MergedFullRows(b: Matrix, m: Matrix, px: int, py: int)
    requires NoFullRow(b)
    ensures FullCount(Merged(b, m, px, py)) <= |m|
  {
    var b' := Merged(b, m, px, py);
    var lo: nat := if py < 0 then 0 else py;
    forall r | 0 <= r < |b'| && IsFull(b'[r])
      ensures lo <= r < py + |m|
    {
      if !(py <= r < py + |m|) {
        assert |b'[r]| == |b[r]|;
        forall c | 0 <= c < |b[r]|
          ensures b[r][c] != 0
        {
          assert !Covers(m, r - py, c - px);
          assert b'[r][c] == b[r][c];
          assert b'[r][c] != 0;
        }
        assert IsFull(b[r]);
      }
    }
    FullCountWithin(b', lo, py + |m|);
  }
}
