/** The piece catalog: the seven tetromino types and their shapes. */
module Pieces {
  import opened Matrices

  /** The string the random piece choice indexes into. */
  const Types: string := "TJLOSZI"

  /** The fixed type-to-colour-index mapping. */
  function CellValue(t: char): (v: int)
    requires t in Types
    ensures 1 <= v <= 7
  {
    if t == 'T' then 1
    else if t == 'O' then 2
    else if t == 'L' then 3
    else if t == 'J' then 4
    else if t == 'I' then 5
    else if t == 'S' then 6
    else 7
  }

  /** Number of occupied cells in a row and in a grid. */
  function RowCells(row: Row): nat {
    if |row| == 0 then 0 else (if row[0] != 0 then 1 else 0) + RowCells(row[1..])
  }

  function Cells(m: Matrix): nat {
    if |m| == 0 then 0 else RowCells(m[0]) + Cells(m[1..])
  }

  /** A shape small enough for the preview box: at most 4 by 4. */
  predicate FitsBox(m: Matrix) {
    IsShape(m) && |m| <= 4 && |m[0]| <= 4
  }

  /** createPiece: each type's bounding box is 3 by 3 except O (2 by 2)
      and I (1 by 4), and every occupied cell holds the type's colour index. */
  function CreatePiece(t: char): (m: Matrix)
    requires t in Types
    ensures FitsBox(m)
    ensures FilledWith(m, CellValue(t))
    ensures if t == 'O' then |m| == 2 && |m[0]| == 2
            else if t == 'I' then |m| == 1 && |m[0]| == 4
            else |m| == 3 && |m[0]| == 3
  {
    if t == 'T' then [[0, 1, 0], [1, 1, 1], [0, 0, 0]]
    else if t == 'O' then [[2, 2], [2, 2]]
    else if t == 'L' then [[0, 0, 3], [3, 3, 3], [0, 0, 0]]
    else if t == 'J' then [[4, 0, 0], [4, 4, 4], [0, 0, 0]]
    else if t == 'I' then [[5, 5, 5, 5]]
    else if t == 'S' then [[0, 6, 6], [6, 6, 0], [0, 0, 0]]
    else [[7, 7, 0], [0, 7, 7], [0, 0, 0]]
  }

  /** createPiece(pieces[k]) for a random index k. */
  function PieceAt(k: nat): Matrix
    requires k < |Types|
  {
    CreatePiece(Types[k])
  }

  /** A shape as handed out by the catalog, not rotated. */
  predicate IsCatalog(m: Matrix) {
    exists k :: 0 <= k < |Types| && m == PieceAt(k)
  }

  /** Occupied cells of a grid with at most three rows, row by row. */
  lemma CellsUpToThreeRows(m: Matrix)
    requires 1 <= |m| <= 3
    ensures Cells(m) == RowCells(m[0]) + (if |m| > 1 then RowCells(m[1]) else 0)
                        + (if |m| > 2 then RowCells(m[2]) else 0)
  {
    assert Cells(m) == RowCells(m[0]) + Cells(m[1..]);
    if |m| > 1 {
      assert Cells(m[1..]) == RowCells(m[1]) + Cells(m[2..]);
      if |m| > 2 {
        assert Cells(m[2..]) == RowCells(m[2]) + Cells(m[3..]);
      }
    }
  }

  /** Every catalog shape is a tetromino: four occupied cells. */
  lemma CatalogFourCells(t: char)
    requires t in Types
    ensures Cells(CreatePiece(t)) == 4
  {
    var m := CreatePiece(t);
    CellsUpToThreeRows(m);
    if t == 'T' {
      assert RowCells(m[0]) == 1 && RowCells(m[1]) == 3 && RowCells(m[2]) == 0;
    } else if t == 'O' {
      assert RowCells(m[0]) == 2 && RowCells(m[1]) == 2;
    } else if t == 'L' {
      assert RowCells(m[0]) == 1 && RowCells(m[1]) == 3 && RowCells(m[2]) == 0;
    } else if t == 'J' {
      assert RowCells(m[0]) == 1 && RowCells(m[1]) == 3 && RowCells(m[2]) == 0;
    } else if t == 'I' {
      assert RowCells(m[0]) == 4;
    } else if t == 'S' {
      assert RowCells(m[0]) == 2 && RowCells(m[1]) == 2 && RowCells(m[2]) == 0;
    } else {
      assert RowCells(m[0]) == 2 && RowCells(m[1]) == 2 && RowCells(m[2]) == 0;
    }
  }

  /** Every catalog shape has an occupied cell. */
  lemma CatalogHasCell(k: nat)
    requires k < |Types|
    ensures exists y, x :: Covers(PieceAt(k), y, x)
  {
    var m := PieceAt(k);
    if Types[k] == 'I' || Types[k] == 'O' {
      assert Covers(m, 0, 0);
    } else {
      assert Covers(m, 1, 1);
    }
  }
}
