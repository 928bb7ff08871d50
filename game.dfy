/** The game session as the script keeps it: one object whose fields the
    player actions and the frame loop update in place. Every method is proved
    to leave the state a function of modules Rules, Board or Scoring computes
    from the old state, and every player action, frame and start keeps the
    engine invariant Rules.Inv (Valid). */
module Tetris {
  import opened Matrices
  import opened Pieces
  import opened Collision
  import opened Board
  import opened Scoring
  import opened Rules

  class Game {
    var board: Matrix
    var score: nat
    var linesCleared: nat
    var level: int
    var running: bool
    var dropInterval: int
    var dropCounter: nat
    var piece: Matrix
    var next: Matrix
    var posX: int
    var posY: int

    /** The fields as one value. */
    function State(): GameState
      reads this
    {
      GameState(board, score, linesCleared, level, running, dropInterval, dropCounter,
                piece, next, posX, posY)
    }

    predicate Valid()
      reads this
    {
      Inv(State())
    }

    /** The script's top-level state before its first start: the board
        from createMatrix, zero stats, level 1, not running, no active
        piece, a random next piece, the counter at 0 and the interval 700. */
    constructor (k: nat)
      requires k < |Types|
      ensures State() == Initial(k)
      ensures Valid()
    {
      var empty := CreateMatrix(Cols, Rows);
      board := empty;
      score := 0;
      linesCleared := 0;
      level := 1;
      running := false;
      piece := [];
      next := CreatePiece(Types[k]);
      posX, posY := 0, 0;
      dropCounter := 0;
      dropInterval := StartInterval;
    }

    /** merge: writes each occupied piece cell into the board. */
    method Merge()
      requires IsBoard(board) && !Collides(board, piece, posX, posY)
      modifies this
      ensures State() == old(State()).(board := Merged(old(board), piece, posX, posY))
    {
      var b := board;
      var m, px, py := piece, posX, posY;
      var y := 0;
      while y < |m|
        invariant 0 <= y <= |m|
        invariant |b| == |board| && forall r :: 0 <= r < |b| ==> |b[r]| == |board[r]|
        invariant forall r, c :: 0 <= r < |b| && 0 <= c < |b[r]| ==>
          b[r][c] == if Covers(m, r - py, c - px) && r - py < y
                     then m[r - py][c - px] else board[r][c]
      {
        var x := 0;
        while x < |m[y]|
          invariant 0 <= x <= |m[y]|
          invariant |b| == |board| && forall r :: 0 <= r < |b| ==> |b[r]| == |board[r]|
          invariant forall r, c :: 0 <= r < |b| && 0 <= c < |b[r]| ==>
            b[r][c] == if Covers(m, r - py, c - px) &&
                          (r - py < y || (r - py == y && c - px < x))
                       then m[r - py][c - px] else board[r][c]
        {
          if m[y][x] != 0 {
            assert !Blocked(board, y + py, x + px);
            b := b[y + py := b[y + py][x + px := m[y][x]]];
          }
          x := x + 1;
        }
        y := y + 1;
      }
      ghost var want := Merged(board, m, px, py);
      forall r | 0 <= r < |b|
        ensures b[r] == want[r]
      {
      }
      board := b;
    }

    /** updateLevel: the level from the cleared rows, then the interval from
        the level. */
    method UpdateLevel()
      modifies this
      ensures State() == old(State()).(level := LevelFor(old(linesCleared)),
                                       dropInterval := IntervalFor(LevelFor(old(linesCleared))))
    {
      var newLevel := linesCleared / 10 + 1;
      if newLevel != level {
        level := newLevel;
      }
      var slowed := 700 - (level - 1) * 70;
      dropInterval := if 100 > slowed then 100 else slowed;
    }

    /** sweep: removes the full rows (SweepRows), then scores the clear and
        updates the level when any row went. */
    method Sweep()
      requires IsBoard(board)
      modifies this
      ensures State() == AfterSweep(old(State()))
    {
      var b, lines := SweepRows(board);
      board := b;
      if lines > 0 {
        score := score + Points(lines);
        linesCleared := linesCleared + lines;
        UpdateLevel();
      }
    }

    /** playerReset: the next piece becomes active at the spawn point, a new
        next piece is made from type k, and a spawn that collides resets the
        board and the stats. */
    method PlayerReset(k: nat)
      requires k < |Types| && |next| > 0
      modifies this
      ensures State() == Reset(old(State()), k)
      ensures old(Valid()) ==> Valid()
    {
      ghost var s0 := State();
      var newType := Types[k];
      piece := next;
      next := CreatePiece(newType);
      posY := 0;
      posX := Cols / 2 - |piece[0]| / 2;
      ghost var spawned := s0.(piece := s0.next, next := PieceAt(k), posY := 0, posX := SpawnX(s0.next));
      assert State() == spawned;
      var hit := Collide(board, piece, posX, posY);
      if hit {
        board := CreateMatrix(Cols, Rows);
        score := 0;
        linesCleared := 0;
        level := 1;
        dropInterval := StartInterval;
        assert board == EmptyBoard();
        assert State() == spawned.(board := EmptyBoard(), score := 0, linesCleared := 0, level := 1,
                                   dropInterval := StartInterval);
      }
      if Inv(s0) {
        ResetKeepsInv(s0, k);
      }
    }

    /** startGame with next-piece type k1 and the type k2 drawn by the
        playerReset it ends with. */
    method StartGame(k1: nat, k2: nat)
      requires k1 < |Types| && k2 < |Types|
      modifies this
      ensures State() == Started(old(State()), k1, k2)
      ensures Valid()
    {
      ghost var s0 := State();
      board := CreateMatrix(Cols, Rows);
      score := 0;
      linesCleared := 0;
      level := 1;
      running := true;
      dropInterval := StartInterval;
      next := CreatePiece(Types[k1]);
      assert State() == s0.(board := EmptyBoard(), score := 0, linesCleared := 0, level := 1,
                            running := true, dropInterval := StartInterval, next := PieceAt(k1));
      PlayerReset(k2);
      StartedKeepsInv(s0, k1, k2);
    }

    /** rotatePlayer: rotate, try the kicked columns, and when none is
        free turn three more quarter turns back to the old shape and return
        to the old column. */
    method RotatePlayer()
      requires running ==> IsGrid(piece)
      modifies this
      ensures State() == Rotated(old(State()))
      ensures old(Valid()) ==> Valid()
    {
      if !running {
        return;
      }
      ghost var s0 := State();
      var rotated := Rotate(piece);
      var oldX := posX;
      var fits, x := KickSearch(board, rotated, oldX, posY);
      if fits {
        piece, posX := rotated, x;
      } else {
        var back := Rotate(Rotate(Rotate(rotated)));
        RotateFour(piece);
        piece, posX := back, oldX;
      }
      assert State() == Rotated(s0);
      if Inv(s0) {
        RotatedKeepsInv(s0);
      }
    }

    /** move(dir): shift, and shift back if the new placement collides. */
    method Move(dir: int)
      modifies this
      ensures State() == Moved(old(State()), dir)
      ensures old(Valid()) ==> Valid()
    {
      if !running {
        return;
      }
      ghost var s0 := State();
      posX := posX + dir;
      var hit := Collide(board, piece, posX, posY);
      if hit {
        posX := posX - dir;
      }
      assert State() == Moved(s0, dir);
      if Inv(s0) {
        MovedKeepsInv(s0, dir);
      }
    }

    /** What the in-place writes of a drop rely on: a board of the right
        size, a next piece, and a running piece that is a shape resting on
        free cells. Valid() implies it. */
    predicate Placed()
      reads this
    {
      IsBoard(board) && |next| > 0 && (running ==> InRange(piece) && !Collides(board, piece, posX, posY))
    }

    /** drop: one row down, or lock the piece when the row below is taken;
        the drop counter restarts. */
    method Drop(k: nat)
      requires Placed() && k < |Types|
      modifies this
      ensures State() == Dropped(old(State()), k)
      ensures old(Valid()) ==> Valid()
    {
      if !running {
        return;
      }
      ghost var s0 := State();
      posY := posY + 1;
      var hit := Collide(board, piece, posX, posY);
      if hit {
        posY := posY - 1;
        assert State() == s0;
        Lock(k);
        assert State() == Locked(s0, k);
      }
      dropCounter := 0;
      assert State() == Dropped(s0, k);
      if Inv(s0) {
        DroppedKeepsInv(s0, k);
      }
    }

    /** The locking branch of drop: merge, sweep and playerReset in turn. */
    method Lock(k: nat)
      requires k < |Types| && |next| > 0 && IsBoard(board) && InRange(piece)
      requires !Collides(board, piece, posX, posY)
      modifies this
      ensures State() == Locked(old(State()), k)
    {
      ghost var s0 := State();
      MergedIsBoard(board, piece, posX, posY);
      Merge();
      ghost var s1 := s0.(board := Merged(s0.board, s0.piece, s0.posX, s0.posY));
      assert State() == s1;
      Sweep();
      assert State() == AfterSweep(s1);
      PlayerReset(k);
    }

    /** The running part of update: add the frame's delta (a whole number of
        milliseconds) to the counter and drop once it is above the interval. */
    method Update(delta: nat, k: nat)
      requires Placed() && k < |Types|
      modifies this
      ensures State() == Ticked(old(State()), delta, k)
      ensures old(Valid()) ==> Valid()
    {
      if running {
        ghost var s0 := State();
        TickedDropsOnlyAboveInterval(s0, delta, k);
        ghost var s1 := s0.(dropCounter := s0.dropCounter + delta);
        dropCounter := dropCounter + delta;
        assert State() == s1;
        if dropCounter > dropInterval {
          Drop(k);
          assert State() == Dropped(s1, k);
        }
        assert State() == Ticked(s0, delta, k);
        if Inv(s0) {
          TickedKeepsInv(s0, delta, k);
        }
      }
    }
  }

  /** The kick loop of rotatePlayer: starting at column x0, while the
      placement collides, shift by offset and turn offset into
      -(offset + sign(offset)), giving up once |offset| exceeds the width of
      m. It finds a column exactly when one of the first w candidates is
      free, and then the first such one. */
  method KickSearch(b: Matrix, m: Matrix, x0: int, y: int) returns (fits: bool, x: int)
    requires IsGrid(m)
    ensures fits <==> FirstFit(b, m, x0, y, 0, |m[0]|).Some?
    ensures fits ==> x == Kicked(x0, FirstFit(b, m, x0, y, 0, |m[0]|).value)
  {
    x := x0;
    var offset := 1;
    ghost var k: nat := 0;
    var hit := Collide(b, m, x, y);
    while hit
      invariant k < |m[0]|
      invariant x == Kicked(x0, k) && offset == KickStep(k + 1)
      invariant hit <==> Collides(b, m, x, y)
      invariant FirstFit(b, m, x0, y, 0, |m[0]|) == FirstFit(b, m, x0, y, k, |m[0]|)
      decreases |m[0]| - k
    {
      x := x + offset;
      offset := -(offset + (if offset > 0 then 1 else -1));
      k := k + 1;
      var magnitude := if offset < 0 then -offset else offset;
      if magnitude > |m[0]| {
        return false, x;
      }
      hit := Collide(b, m, x, y);
    }
    return true, x;
  }

  /** The row loop of sweep: scans from the bottom row up; a full row is cut
      out and an emptied row of the same width put on top, and the same
      index is looked at again. The result is the swept board and the number
      of rows removed. */
  method SweepRows(rows: Matrix) returns (b: Matrix, lines: nat)
    requires IsBoard(rows)
    ensures b == Swept(rows) && lines == FullCount(rows)
  {
    b := rows;
    lines := 0;
    var y := |b| - 1;
    // rows[..u] are not yet looked at; the rows below them are done
    ghost var u := |b|;
    while y >= 0
      invariant 0 <= u <= |rows| && -1 <= y
      invariant lines == FullCount(rows[u..])
      invariant b == SweepLayout(rows, u, lines)
      invariant if u > 0 then y == lines + u - 1 else y < lines
      decreases y + 1 + u
    {
      b, lines, y, u := SweepRow(rows, b, lines, y, u);
    }
    SweepLayoutDone(rows);
  }

  /** One pass of the row loop of sweep at row y: a full row is cut out, an
      emptied row of its width goes on top and y stays on the same index
      (the ++y of the source undoes the loop's --y); any other row is passed
      over. */
  method SweepRow(rows: Matrix, b0: Matrix, lines0: nat, y0: int, ghost u0: nat)
    returns (b: Matrix, lines: nat, y: int, ghost u: nat)
    requires forall r :: 0 <= r < |rows| ==> |rows[r]| == Cols
    requires u0 <= |rows| && 0 <= y0
    requires lines0 == FullCount(rows[u0..]) && b0 == SweepLayout(rows, u0, lines0)
    requires if u0 > 0 then y0 == lines0 + u0 - 1 else y0 < lines0
    ensures u <= |rows| && -1 <= y && y + 1 + u < y0 + 1 + u0
    ensures lines == FullCount(rows[u..]) && b == SweepLayout(rows, u, lines)
    ensures if u > 0 then y == lines + u - 1 else y < lines
  {
    b, lines, y, u := b0, lines0, y0, u0;
    SweepLayoutRow(rows, u, lines, y);
    var full := RowFull(b[y]);
    if full {
      assert |rows[u - 1]| == Cols;
      SweepStepFull(rows, u, lines);
      var row := b[y];
      b := [ZeroRow(|row|)] + b[..y] + b[y + 1..];
      lines := lines + 1;
      y := y + 1;
      u := u - 1;
    } else if u > 0 {
      SweepStepKeep(rows, u, lines);
      u := u - 1;
    }
    y := y - 1;
  }
}
