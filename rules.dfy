/** The game session as a value and every player action and timer step as a
    function on it; the class in module Tetris is proved against these. The
    random piece choice is the index `k` into Types that each step takes. */
module Rules {
  import opened Matrices
  import opened Pieces
  import opened Collision
  import opened Board
  import opened Scoring

  datatype Option<T> = None | Some(value: T)

  /** Everything the engine keeps between events. Before the first start
      there is no active piece; the empty grid [] stands for it. */
  datatype GameState = GameState(
    board: Matrix,
    score: nat,
    linesCleared: nat,
    level: int,
    running: bool,
    dropInterval: int,
    dropCounter: nat,
    piece: Matrix,
    next: Matrix,
    posX: int,
    posY: int)

  const StartInterval: int := 700

  /** The level is the one the cleared rows earn and the interval is the
      one that level sets. */
  predicate StatsInv(s: GameState) {
    s.level == LevelFor(s.linesCleared) && s.dropInterval == IntervalFor(s.level)
  }

  /** What holds of a session whatever the active piece. */
  predicate SessionInv(s: GameState) {
    IsBoard(s.board) && NoFullRow(s.board) && FitsBox(s.next) && IsCatalog(s.next) && StatsInv(s)
  }

  /** The active piece is a shape placed where it does not collide. */
  predicate PieceFits(s: GameState) {
    FitsBox(s.piece) && !Collides(s.board, s.piece, s.posX, s.posY)
  }

  /** The engine invariant: while the game runs the active piece never
      collides with the board. */
  predicate Inv(s: GameState) {
    SessionInv(s) && (s.running ==> PieceFits(s))
  }

  /** The state the script sets up before the first start: an empty board,
      zero stats, level 1, not running, a random next piece. */
  function Initial(k: nat): (s: GameState)
    requires k < |Types|
    ensures Inv(s) && !s.running && s.next == PieceAt(k)
  {
    EmptyBoardIsBoard();
    GameState(EmptyBoard(), 0, 0, 1, false, StartInterval, 0, [], PieceAt(k), 0, 0)
  }

  // ---- spawning

  /** floor(10 / 2) - floor(width / 2): the spawn column. */
  function SpawnX(m: Matrix): int
    requires |m| > 0
  {
    Cols / 2 - |m[0]| / 2
  }

  /** A shape no larger than the board fits on an empty board at the spawn
      point. */
  lemma SpawnFits(m: Matrix)
    requires IsShape(m) && |m| <= Rows && |m[0]| <= Cols
    ensures !Collides(EmptyBoard(), m, SpawnX(m), 0)
  {
    EmptyBoardIsBoard();
    var x0 := SpawnX(m);
    assert 0 <= x0 && x0 + |m[0]| <= Cols;
    forall y, x | 0 <= y < |m| && 0 <= x < |m[y]| && m[y][x] != 0
      ensures !Blocked(EmptyBoard(), y + 0, x + x0)
    {
      assert EmptyBoard()[y][x + x0] == 0;
    }
  }

  /** A fresh piece never tops out on an empty board, so starting a session
      never resets it at once. */
  lemma FreshPieceFits(k: nat)
    requires k < |Types|
    ensures !Collides(EmptyBoard(), PieceAt(k), SpawnX(PieceAt(k)), 0)
  {
    SpawnFits(PieceAt(k));
  }

  /** playerReset: the next piece becomes active at row 0 and the spawn
      column, a new next piece is drawn, and if the spawned piece collides
      the board and stats are reset while the game keeps running. */
  function Reset(s: GameState, k: nat): (r: GameState)
    requires k < |Types| && |s.next| > 0
  {
    var p := s.next;
    var spawned := s.(piece := p, next := PieceAt(k), posY := 0, posX := SpawnX(p));
    if Collides(s.board, p, SpawnX(p), 0) then
      spawned.(board := EmptyBoard(), score := 0, linesCleared := 0, level := 1,
               dropInterval := StartInterval)
    else spawned
  }

  lemma ResetKeepsInv(s: GameState, k: nat)
    requires SessionInv(s) && k < |Types|
    ensures Inv(Reset(s, k)) && PieceFits(Reset(s, k))
    ensures Reset(s, k).piece == s.next && Reset(s, k).posY == 0
  {
    var r := Reset(s, k);
    assert IsCatalog(r.next) by {
      assert r.next == PieceAt(k);
    }
    EmptyBoardIsBoard();
    if Collides(s.board, s.next, SpawnX(s.next), 0) {
      SpawnFits(s.next);
    }
  }

  /** startGame: a fresh empty board, zero stats, level 1, running, a new
      next piece, then playerReset. The drop counter is left as it was. */
  function Started(s: GameState, k1: nat, k2: nat): GameState
    requires k1 < |Types| && k2 < |Types|
  {
    Reset(s.(board := EmptyBoard(), score := 0, linesCleared := 0, level := 1, running := true,
             dropInterval := StartInterval, next := PieceAt(k1)), k2)
  }

  /** After a start the game runs on an empty board with zero stats and the
      invariant holds, from any state at all. */
  lemma StartedKeepsInv(s: GameState, k1: nat, k2: nat)
    requires k1 < |Types| && k2 < |Types|
    ensures Inv(Started(s, k1, k2)) && Started(s, k1, k2).running
    ensures Started(s, k1, k2).board == EmptyBoard() && Started(s, k1, k2).score == 0
    ensures Started(s, k1, k2).piece == PieceAt(k1)
  {
    var s1 := s.(board := EmptyBoard(), score := 0, linesCleared := 0, level := 1, running := true,
                 dropInterval := StartInterval, next := PieceAt(k1));
    EmptyBoardIsBoard();
    assert IsCatalog(s1.next) by {
      assert s1.next == PieceAt(k1);
    }
    ResetKeepsInv(s1, k2);
  }

  // ---- sweeping and scoring

  /** sweep with updateLevel: the board is swept; if n > 0 rows were full
      the score rises by Points(n), n rows are added to the count and level
      and interval are recomputed; otherwise the stats are untouched. */
  function AfterSweep(s: GameState): (r: GameState)
    ensures r.piece == s.piece && r.next == s.next && r.posX == s.posX && r.posY == s.posY
    ensures r.running == s.running && r.dropCounter == s.dropCounter
  {
    var n := FullCount(s.board);
    var b := Swept(s.board);
    if n > 0 then
      var lines := s.linesCleared + n;
      s.(board := b, score := s.score + Points(n), linesCleared := lines,
         level := LevelFor(lines), dropInterval := IntervalFor(LevelFor(lines)))
    else s.(board := b)
  }

  lemma AfterSweepKeepsSession(s: GameState)
    requires IsBoard(s.board) && FitsBox(s.next) && IsCatalog(s.next) && StatsInv(s)
    ensures SessionInv(AfterSweep(s))
  {
    SweptIsBoard(s.board);
  }

  // ---- moving

  /** move(dir): the piece shifts dir columns if the shifted placement is
      free, and otherwise stays. */
  function Moved(s: GameState, dir: int): GameState {
    if !s.running then s
    else if Collides(s.board, s.piece, s.posX + dir, s.posY) then s
    else s.(posX := s.posX + dir)
  }

  lemma MovedKeepsInv(s: GameState, dir: int)
    requires Inv(s)
    ensures Inv(Moved(s, dir))
  {
  }

  // ---- rotating with wall kicks

  /** The k-th kick (k >= 1) adds +1, -2, +3, -4, ... to the column. */
  function KickStep(k: nat): int
    requires k >= 1
  {
    if k % 2 == 1 then k else -(k as int)
  }

  /** Net column offset after k kicks. */
  function KickOffset(k: nat): int {
    if k == 0 then 0 else KickOffset(k - 1) + KickStep(k)
  }

  /** The kicks visit oldX, oldX+1, oldX-1, oldX+2, oldX-2, ... */
  lemma {:induction false} KickOffsetClosedForm(k: nat)
    ensures KickOffset(k) == if k % 2 == 1 then (k + 1) / 2 else -(k / 2)
  {
    if k > 0 {
      KickOffsetClosedForm(k - 1);
    }
  }

  /** The column of the j-th kick candidate when the rotation starts at
      column x0. */
  function Kicked(x0: int, j: nat): int {
    x0 + KickOffset(j)
  }

  /** The first candidate j in k..w-1 whose kicked placement is free, if
      there is one. */
  function FirstFit(b: Matrix, m: Matrix, x0: int, y: int, k: nat, w: nat): (r: Option<nat>)
    decreases w - k
    ensures r.Some? ==> k <= r.value < w && !Collides(b, m, Kicked(x0, r.value), y)
    ensures r.Some? ==> forall i :: k <= i < r.value ==> Collides(b, m, Kicked(x0, i), y)
    ensures r.None? ==> forall i :: k <= i < w ==> Collides(b, m, Kicked(x0, i), y)
  {
    if k >= w then None
    else if !Collides(b, m, Kicked(x0, k), y) then Some(k)
    else FirstFit(b, m, x0, y, k + 1, w)
  }

  /** rotatePlayer: the rotated shape is tried at the first w kick
      candidates, w its width; it is kept at the first free one, and if
      none is free shape and column stay as they were. */
  function Rotated(s: GameState): GameState
    requires s.running ==> IsGrid(s.piece)
  {
    if !s.running then s
    else
      var rot := Rotate(s.piece);
      match FirstFit(s.board, rot, s.posX, s.posY, 0, |rot[0]|)
      case Some(j) => s.(piece := rot, posX := Kicked(s.posX, j))
      case None => s
  }

  /** A rotation either lands the rotated shape at the first free candidate
      among the first w, or changes nothing because all w collide; the row
      and the board never change. */
  lemma RotatedOutcome(s: GameState)
    requires s.running && IsGrid(s.piece)
    ensures Rotated(s).posY == s.posY && Rotated(s).board == s.board
    ensures var rot := Rotate(s.piece);
            var w := |rot[0]|;
            (Rotated(s).piece == rot &&
             (exists j :: 0 <= j < w && Rotated(s).posX == Kicked(s.posX, j) &&
                !Collides(s.board, rot, Rotated(s).posX, s.posY) &&
                forall i :: 0 <= i < j ==> Collides(s.board, rot, Kicked(s.posX, i), s.posY)))
            ||
            (Rotated(s) == s &&
             forall j :: 0 <= j < w ==> Collides(s.board, rot, Kicked(s.posX, j), s.posY))
  {
    var rot := Rotate(s.piece);
    var w := |rot[0]|;
    var r := Rotated(s);
    var f := FirstFit(s.board, rot, s.posX, s.posY, 0, w);
    if f.Some? {
      var j := f.value;
      assert r == s.(piece := rot, posX := Kicked(s.posX, j));
      assert 0 <= j < w && r.posX == Kicked(s.posX, j);
    } else {
      assert r == s;
    }
  }

  lemma RotatedKeepsInv(s: GameState)
    requires Inv(s)
    ensures Inv(Rotated(s))
  {
    if s.running {
      var rot := Rotate(s.piece);
      assert FitsBox(rot);
    }
  }

  // ---- dropping

  /** drop: the piece falls a row if that row is free; otherwise it is
      merged where it is, the board is swept and the next piece spawned.
      Either way the drop counter restarts from 0. */
  function Dropped(s: GameState, k: nat): GameState
    requires k < |Types| && |s.next| > 0
  {
    if !s.running then s
    else if Collides(s.board, s.piece, s.posX, s.posY + 1) then Locked(s, k).(dropCounter := 0)
    else s.(posY := s.posY + 1, dropCounter := 0)
  }

  /** The locking branch of drop: the piece is merged where it rests, the
      board is swept and the next piece spawned (drawing type k). */
  function Locked(s: GameState, k: nat): GameState
    requires k < |Types| && |s.next| > 0
  {
    Reset(AfterSweep(s.(board := Merged(s.board, s.piece, s.posX, s.posY))), k)
  }

  lemma DroppedKeepsInv(s: GameState, k: nat)
    requires Inv(s) && k < |Types|
    ensures Inv(Dropped(s, k))
  {
    if s.running && Collides(s.board, s.piece, s.posX, s.posY + 1) {
      var merged := s.(board := Merged(s.board, s.piece, s.posX, s.posY));
      MergedIsBoard(s.board, s.piece, s.posX, s.posY);
      AfterSweepKeepsSession(merged);
      ResetKeepsInv(AfterSweep(merged), k);
    }
  }

  /** A locking piece completes at most four rows, so a drop adds 0, 100,
      300, 500 or 800 points, unless the next piece tops out and the score
      restarts from 0. */
  lemma DroppedScore(s: GameState, k: nat)
    requires Inv(s) && k < |Types|
    ensures Dropped(s, k).score == 0 ||
            Dropped(s, k).score - s.score in {0, 100, 300, 500, 800}
  {
    if s.running && Collides(s.board, s.piece, s.posX, s.posY + 1) {
      MergedFullRows(s.board, s.piece, s.posX, s.posY);
    }
  }

  // ---- the drop timer

  /** The running part of update: the frame's delta is added to the drop
      counter, and a counter strictly above the interval triggers a drop. */
  function Ticked(s: GameState, delta: nat, k: nat): GameState
    requires k < |Types| && |s.next| > 0
  {
    if !s.running then s
    else
      var c := s.dropCounter + delta;
      if c > s.dropInterval then Dropped(s.(dropCounter := c), k)
      else s.(dropCounter := c)
  }

  /** The invariant does not depend on the drop counter. */
  lemma CounterKeepsInv(s: GameState, c: nat)
    requires Inv(s)
    ensures Inv(s.(dropCounter := c))
  {
  }

  /** The two branches of a running frame, for use in proofs. */
  lemma TickedDropsOnlyAboveInterval(s: GameState, delta: nat, k: nat)
    requires k < |Types| && |s.next| > 0 && s.running
    ensures s.dropCounter + delta > s.dropInterval ==>
              Ticked(s, delta, k) == Dropped(s.(dropCounter := s.dropCounter + delta), k)
    ensures s.dropCounter + delta <= s.dropInterval ==>
              Ticked(s, delta, k) == s.(dropCounter := s.dropCounter + delta)
  {
  }

  lemma TickedKeepsInv(s: GameState, delta: nat, k: nat)
    requires Inv(s) && k < |Types|
    ensures Inv(Ticked(s, delta, k))
  {
    if s.running {
      var s' := s.(dropCounter := s.dropCounter + delta);
      CounterKeepsInv(s, s'.dropCounter);
      TickedDropsOnlyAboveInterval(s, delta, k);
      if s'.dropCounter > s.dropInterval {
        DroppedKeepsInv(s', k);
      }
    }
  }

  /** What a frame does to the counter: once the counter passes the
      interval the piece drops and the whole count is thrown away (the
      excess is not carried over), so after a frame the counter never
      exceeds the interval. */
  lemma TickedCounter(s: GameState, delta: nat, k: nat)
    requires Inv(s) && k < |Types| && s.running
    ensures s.dropCounter + delta > s.dropInterval ==> Ticked(s, delta, k).dropCounter == 0
    ensures s.dropCounter + delta <= s.dropInterval ==>
              Ticked(s, delta, k).dropCounter == s.dropCounter + delta
    ensures Ticked(s, delta, k).dropCounter <= Ticked(s, delta, k).dropInterval
  {
    TickedDropsOnlyAboveInterval(s, delta, k);
    if s.dropCounter + delta > s.dropInterval {
      var s' := s.(dropCounter := s.dropCounter + delta);
      DroppedKeepsInv(s', k);
    }
  }

  // ---- sessions

  /** The events the engine reacts to: the four keys, a frame and a start. */
  datatype Event =
    | MoveBy(dir: int)
    | Turn
    | SoftDrop(k: nat)
    | Frame(delta: nat, k: nat)
    | Start(k1: nat, k2: nat)

  predicate Allowed(e: Event) {
    match e
    case MoveBy(_) => true
    case Turn => true
    case SoftDrop(k) => k < |Types|
    case Frame(_, k) => k < |Types|
    case Start(k1, k2) => k1 < |Types| && k2 < |Types|
  }

  /** One event applied to a state that keeps the invariant keeps it. */
  function Step(s: GameState, e: Event): (r: GameState)
    requires Inv(s) && Allowed(e)
    ensures Inv(r)
  {
    match e
    case MoveBy(dir) => MovedKeepsInv(s, dir); Moved(s, dir)
    case Turn => RotatedKeepsInv(s); Rotated(s)
    case SoftDrop(k) => DroppedKeepsInv(s, k); Dropped(s, k)
    case Frame(delta, k) => TickedKeepsInv(s, delta, k); Ticked(s, delta, k)
    case Start(k1, k2) => StartedKeepsInv(s, k1, k2); Started(s, k1, k2)
  }

  /** A whole session: after any sequence of events from the initial state
      the board is 20 by 10 with values 0..7 and, while the game runs, the
      active piece does not collide. */
  function Run(s: GameState, events: seq<Event>): (r: GameState)
    requires Inv(s)
    requires forall i :: 0 <= i < |events| ==> Allowed(events[i])
    ensures Inv(r)
    decreases |events|
  {
    if |events| == 0 then s else Run(Step(s, events[0]), events[1..])
  }
}
