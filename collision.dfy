/** The collision detector behind every move, rotation and spawn check. */
module Collision {
  import opened Matrices

  /** Board cell (r, c) cannot take a piece cell: there is no row r (a
      JavaScript read of board[r] is undefined), no column c in that row
      (board[r][c] is undefined, which is !== 0), or the cell is occupied. */
  predicate Blocked(b: Matrix, r: int, c: int) {
    !(0 <= r < |b|) || !(0 <= c < |b[r]|) || b[r][c] != 0
  }

  /** Placing `m` with its top-left corner at column px, row py collides:
      some occupied cell of `m` falls on a blocked board cell. */
  predicate Collides(b: Matrix, m: Matrix, px: int, py: int) {
    exists y, x :: 0 <= y < |m| && 0 <= x < |m[y]| && m[y][x] != 0 && Blocked(b, y + py, x + px)
  }

  /** collide: scans the piece row by row and returns on the first occupied
      cell that lands outside the board or on an occupied board cell. */
  method Collide(b: Matrix, m: Matrix, px: int, py: int) returns (hit: bool)
    ensures hit <==> Collides(b, m, px, py)
  {
    var y := 0;
    while y < |m|
      invariant 0 <= y <= |m|
      invariant forall yy, x :: 0 <= yy < y && 0 <= x < |m[yy]| && m[yy][x] != 0 ==> !Blocked(b, yy + py, x + px)
    {
      var x := 0;
      while x < |m[y]|
        invariant 0 <= x <= |m[y]|
        invariant forall xx :: 0 <= xx < x && m[y][xx] != 0 ==> !Blocked(b, y + py, xx + px)
      {
        if m[y][x] != 0 {
          var r, c := y + py, x + px;
          if !(0 <= r < |b|) || !(0 <= c < |b[r]|) || b[r][c] != 0 {
            return true;
          }
        }
        x := x + 1;
      }
      y := y + 1;
    }
    return false;
  }
}
