/**
  The board and rules engine (src/game.rs).

  The board is a row-major array of SIZE * SIZE cells. A cell holds 0 when it
  is empty, otherwise the number of the turn that filled it; the parity of that
  number tells which side owns the stone. Five or more stones of one side in a
  line through the stone just placed win; the move that fills the last cell
  (turn SIZE * SIZE) without winning ties.

  The queries of the source (`piece`, `can_move`, `check_victory`,
  `count_ray`, `check_tie`) only read the game, so they are functions of a
  `Position` snapshot; the class `Game` holds the mutable state and
  `MakeMove` changes it.
*/
module Game {

  const SIZE: int := 15
  const AREA: int := SIZE * SIZE

  /** Outcome of `make_move`. */
  datatype Move = Win | Tie | Normal | Fail

  /** A snapshot of a game: the turn counter and the row-major cells. */
  datatype Position = Position(turn: int, cells: seq<int>)

  predicate WellFormed(p: Position) {
    |p.cells| == AREA
  }

  predicate InBounds(x: int, y: int) {
    0 <= x < SIZE && 0 <= y < SIZE
  }

  predicate SameParity(a: int, b: int) {
    (a + b) % 2 == 0
  }

  /** Row-major index of an on-board cell. */
  function Index(x: int, y: int): (i: int)
    requires InBounds(x, y)
    ensures 0 <= i < AREA
  {
    x + y * SIZE
  }

  /** Different cells have different indices, and every index is some cell's. */
  lemma IndexBijective(x1: int, y1: int, x2: int, y2: int, i: int)
    requires InBounds(x1, y1) && InBounds(x2, y2)
    ensures Index(x1, y1) == Index(x2, y2) <==> x1 == x2 && y1 == y2
    ensures 0 <= i < AREA ==> InBounds(i % SIZE, i / SIZE) && Index(i % SIZE, i / SIZE) == i
  {
  }

  function Piece(p: Position, x: int, y: int): int
    requires WellFormed(p) && InBounds(x, y)
  {
    p.cells[Index(x, y)]
  }

  /** The 7×7 zone around the centre that is closed on turn 3. */
  predicate InCentre(x: int, y: int) {
    var center := SIZE / 2;
    center - 3 <= x <= center + 3 && center - 3 <= y <= center + 3
  }

  /**
    A move is legal when the cell is empty, except that on turn 3 the centre
    zone (columns and rows 4 to 10) is closed whatever it holds.
  */
  function CanMove(p: Position, x: int, y: int): (ok: bool)
    requires WellFormed(p) && InBounds(x, y)
    ensures p.turn == 3 && 4 <= x <= 10 && 4 <= y <= 10 ==> !ok
    ensures !(p.turn == 3 && 4 <= x <= 10 && 4 <= y <= 10) ==> (ok <==> p.cells[x + 15 * y] == 0)
  {
    if p.turn == 3 && InCentre(x, y) then false
    else Piece(p, x, y) == 0
  }

  /** The game ties when the stone of turn SIZE * SIZE is placed without a win. */
  predicate CheckTie(p: Position) {
    p.turn == SIZE * SIZE
  }

  /** An on-board cell holding a stone of the side whose turn it is. */
  predicate Owned(p: Position, x: int, y: int)
    requires WellFormed(p)
  {
    InBounds(x, y) && Piece(p, x, y) != 0 && SameParity(Piece(p, x, y), p.turn)
  }

  /** One of the eight unit steps. */
  predicate Direction(dx: int, dy: int) {
    -1 <= dx <= 1 && -1 <= dy <= 1 && (dx != 0 || dy != 0)
  }

  /** The coordinate `k` unit steps of sign `d` away from `c`. */
  function Along(c: int, d: int, k: int): int {
    if d > 0 then c + k else if d < 0 then c - k else c
  }

  /** The cell `i` steps from (x, y) along (dx, dy) holds a stone of the side to move. */
  predicate RunCell(p: Position, x: int, y: int, dx: int, dy: int, i: int)
    requires WellFormed(p)
  {
    Owned(p, Along(x, dx, i), Along(y, dy, i))
  }

  lemma RunCellShift(p: Position, x: int, y: int, dx: int, dy: int, i: int)
    requires WellFormed(p) && Direction(dx, dy)
    ensures RunCell(p, x + dx, y + dy, dx, dy, i) == RunCell(p, x, y, dx, dy, i + 1)
  {
  }

  lemma RunCellOpposite(p: Position, x: int, y: int, dx: int, dy: int, i: int)
    requires WellFormed(p) && Direction(dx, dy)
    ensures RunCell(p, x, y, -dx, -dy, i) == RunCell(p, x, y, dx, dy, -i)
  {
  }

  /** Cells from (x, y) to the edge the direction runs into: the termination measure of `CountRay`. */
  function Reach(x: int, y: int, dx: int, dy: int): int {
    if dx > 0 then SIZE - x
    else if dx < 0 then x + 1
    else if dy > 0 then SIZE - y
    else y + 1
  }

  /**
    Number of consecutive stones of the side to move starting at (x, y) and
    stepping by (dx, dy): the run stops at the edge, at an empty cell or at a
    stone of the other side. `CountRayIsRun` says which cells it counted.
  */
  function CountRay(p: Position, x: int, y: int, dx: int, dy: int): (r: int)
    requires WellFormed(p) && Direction(dx, dy)
    ensures 0 <= r <= SIZE
    ensures r <= (if InBounds(x, y) then Reach(x, y, dx, dy) else 0)
    decreases Reach(x, y, dx, dy)
  {
    if !InBounds(x, y) then 0
    else
      var n := Piece(p, x, y);
      if n == 0 then 0
      else if SameParity(n, p.turn) then 1 + CountRay(p, x + dx, y + dy, dx, dy)
      else 0
  }

  /** The first `CountRay` cells of the ray hold stones of the side to move. */
  lemma {:induction false} CountRayOwned(p: Position, x: int, y: int, dx: int, dy: int)
    requires WellFormed(p) && Direction(dx, dy)
    ensures forall i :: 0 <= i < CountRay(p, x, y, dx, dy) ==> RunCell(p, x, y, dx, dy, i)
    decreases Reach(x, y, dx, dy)
  {
    var r := CountRay(p, x, y, dx, dy);
    if r > 0 {
      var rest := CountRay(p, x + dx, y + dy, dx, dy);
      assert Owned(p, x, y) && r == 1 + rest;
      CountRayOwned(p, x + dx, y + dy, dx, dy);
      forall i | 0 <= i < r
        ensures RunCell(p, x, y, dx, dy, i)
      {
        if i == 0 {
          assert Along(x, dx, 0) == x && Along(y, dy, 0) == y;
        } else {
          assert RunCell(p, x + dx, y + dy, dx, dy, i - 1);
          RunCellShift(p, x, y, dx, dy, i - 1);
        }
      }
    }
  }

  /** The cell just past the last one `CountRay` counted does not hold a stone of the side to move. */
  lemma {:induction false} CountRayStops(p: Position, x: int, y: int, dx: int, dy: int)
    requires WellFormed(p) && Direction(dx, dy)
    ensures !RunCell(p, x, y, dx, dy, CountRay(p, x, y, dx, dy))
    decreases Reach(x, y, dx, dy)
  {
    var r := CountRay(p, x, y, dx, dy);
    if r == 0 {
      assert !Owned(p, x, y);
      assert Along(x, dx, 0) == x && Along(y, dy, 0) == y;
    } else {
      var rest := CountRay(p, x + dx, y + dy, dx, dy);
      assert r == 1 + rest;
      CountRayStops(p, x + dx, y + dy, dx, dy);
      RunCellShift(p, x, y, dx, dy, rest);
    }
  }

  /** `CountRay` is the length of the run: its first r cells are owned and the next one is not. */
  lemma CountRayIsRun(p: Position, x: int, y: int, dx: int, dy: int)
    requires WellFormed(p) && Direction(dx, dy)
    ensures forall i :: 0 <= i < CountRay(p, x, y, dx, dy) ==> RunCell(p, x, y, dx, dy, i)
    ensures !RunCell(p, x, y, dx, dy, CountRay(p, x, y, dx, dy))
  {
    CountRayOwned(p, x, y, dx, dy);
    CountRayStops(p, x, y, dx, dy);
  }

  /** True when the stone at (x, y) makes five or more in a row along one of the four axes. */
  predicate CheckVictory(p: Position, x: int, y: int)
    requires WellFormed(p)
  {
    CountRay(p, x, y, 0, 1) + CountRay(p, x, y, 0, -1) > 5
    || CountRay(p, x, y, 1, 0) + CountRay(p, x, y, -1, 0) > 5
    || CountRay(p, x, y, 1, 1) + CountRay(p, x, y, -1, -1) > 5
    || CountRay(p, x, y, -1, 1) + CountRay(p, x, y, 1, -1) > 5
  }

  /** The five cells at offsets -s .. 4 - s from (x, y) along (dx, dy) all belong to the side to move. */
  ghost predicate Window(p: Position, x: int, y: int, dx: int, dy: int, s: int)
    requires WellFormed(p)
  {
    forall t :: -s <= t <= 4 - s ==> RunCell(p, x, y, dx, dy, t)
  }

  /** Five stones of the side to move lie in a row through (x, y) along the axis (dx, dy). */
  ghost predicate FiveThrough(p: Position, x: int, y: int, dx: int, dy: int)
    requires WellFormed(p)
  {
    exists s :: 0 <= s < 5 && Window(p, x, y, dx, dy, s)
  }

  /** A ray counts at least n when its first n cells are owned. */
  lemma RayAtLeast(p: Position, x: int, y: int, dx: int, dy: int, n: int)
    requires WellFormed(p) && Direction(dx, dy) && n >= 0
    requires forall i :: 0 <= i < n ==> RunCell(p, x, y, dx, dy, i)
    ensures CountRay(p, x, y, dx, dy) >= n
  {
    CountRayIsRun(p, x, y, dx, dy);
  }

  /** Opposite rays summing to more than 5 put five in a row through (x, y). */
  lemma AxisVictorySound(p: Position, x: int, y: int, dx: int, dy: int)
    requires WellFormed(p) && Direction(dx, dy)
    requires CountRay(p, x, y, dx, dy) + CountRay(p, x, y, -dx, -dy) > 5
    ensures FiveThrough(p, x, y, dx, dy)
  {
    var ndx, ndy := -dx, -dy;
    var a := CountRay(p, x, y, dx, dy);
    var b := CountRay(p, x, y, ndx, ndy);
    CountRayIsRun(p, x, y, dx, dy);
    CountRayIsRun(p, x, y, ndx, ndy);
    RunCellOpposite(p, x, y, dx, dy, 0);
    assert a >= 1 && b >= 1;
    var s := if b - 1 < 4 then b - 1 else 4;
    forall t | -s <= t <= 4 - s
      ensures RunCell(p, x, y, dx, dy, t)
    {
      if t < 0 {
        assert 0 < -t < b;
        RunCellOpposite(p, x, y, dx, dy, -t);
        assert RunCell(p, x, y, ndx, ndy, -t);
      } else {
        assert t < a;
      }
    }
    assert Window(p, x, y, dx, dy, s);
  }

  /** Five in a row through (x, y) make the opposite rays sum to more than 5. */
  lemma AxisVictoryComplete(p: Position, x: int, y: int, dx: int, dy: int)
    requires WellFormed(p) && Direction(dx, dy)
    requires FiveThrough(p, x, y, dx, dy)
    ensures CountRay(p, x, y, dx, dy) + CountRay(p, x, y, -dx, -dy) > 5
  {
    var ndx, ndy := -dx, -dy;
    var s :| 0 <= s < 5 && Window(p, x, y, dx, dy, s);
    RayAtLeast(p, x, y, dx, dy, 5 - s);
    forall i | 0 <= i < s + 1
      ensures RunCell(p, x, y, ndx, ndy, i)
    {
      RunCellOpposite(p, x, y, dx, dy, i);
      assert RunCell(p, x, y, dx, dy, -i);
    }
    RayAtLeast(p, x, y, ndx, ndy, s + 1);
  }

  /**
    The two opposite rays from (x, y) sum to more than 5 exactly when five
    stones of the side to move lie in a row through (x, y) on that axis (the
    cell itself is counted by both rays).
  */
  lemma AxisVictory(p: Position, x: int, y: int, dx: int, dy: int)
    requires WellFormed(p) && Direction(dx, dy)
    ensures CountRay(p, x, y, dx, dy) + CountRay(p, x, y, -dx, -dy) > 5 <==> FiveThrough(p, x, y, dx, dy)
  {
    if CountRay(p, x, y, dx, dy) + CountRay(p, x, y, -dx, -dy) > 5 {
      AxisVictorySound(p, x, y, dx, dy);
    }
    if FiveThrough(p, x, y, dx, dy) {
      AxisVictoryComplete(p, x, y, dx, dy);
    }
  }

  /** `check_victory` holds exactly when five in a row pass through (x, y) on one of the four axes. */
  lemma VictoryIsFiveInRow(p: Position, x: int, y: int)
    requires WellFormed(p)
    ensures CheckVictory(p, x, y) <==>
      FiveThrough(p, x, y, 0, 1) || FiveThrough(p, x, y, 1, 0) ||
      FiveThrough(p, x, y, 1, 1) || FiveThrough(p, x, y, -1, 1)
  {
    AxisVictory(p, x, y, 0, 1);
    AxisVictory(p, x, y, 1, 0);
    AxisVictory(p, x, y, 1, 1);
    AxisVictory(p, x, y, -1, 1);
  }

  /** Number of filled cells. */
  function Occupied(cells: seq<int>): (n: nat)
    ensures n <= |cells|
  {
    if cells == [] then 0
    else (if cells[0] != 0 then 1 else 0) + Occupied(cells[1..])
  }

  /** Filling an empty cell adds one to the count of filled cells. */
  lemma {:induction false} OccupiedFill(cells: seq<int>, i: int, v: int)
    requires 0 <= i < |cells| && cells[i] == 0 && v != 0
    ensures Occupied(cells[i := v]) == Occupied(cells) + 1
  {
    if i == 0 {
      assert cells[i := v][1..] == cells[1..];
    } else {
      assert cells[i := v][1..] == cells[1..][i - 1 := v];
      OccupiedFill(cells[1..], i - 1, v);
    }
  }

  /** Every cell is filled exactly when the count of filled cells is the length. */
  lemma {:induction false} OccupiedFull(cells: seq<int>)
    ensures Occupied(cells) == |cells| <==> forall i :: 0 <= i < |cells| ==> cells[i] != 0
  {
    if cells != [] {
      OccupiedFull(cells[1..]);
      assert forall i :: 1 <= i < |cells| ==> cells[i] == cells[1..][i - 1];
    }
  }

  /** An all-empty board has no filled cell. */
  lemma {:induction false} OccupiedEmpty(cells: seq<int>)
    requires forall i :: 0 <= i < |cells| ==> cells[i] == 0
    ensures Occupied(cells) == 0
  {
    if cells != [] {
      OccupiedEmpty(cells[1..]);
    }
  }

  /** The game state of src/game.rs: the turn counter and the board array. */
  class Game {
    var turn: int
    var board: array<int>

    ghost predicate Valid()
      reads this
    {
      board.Length == AREA && turn >= 1
    }

    /**
      At least one filled cell per completed turn. `Game::new` starts with it
      and every move keeps it, since each turn's stone fills an empty cell and
      a `Win` or `Tie` fills one without advancing the turn.
    */
    ghost predicate Accounted()
      reads this, board
    {
      Occupied(board[..]) >= turn - 1
    }

    /** The current snapshot. */
    function State(): (p: Position)
      reads this, board
      ensures p.turn == turn && p.cells == board[..]
    {
      Position(turn, board[..])
    }

    /** `Game::new`: turn 1 and an empty board. */
    constructor ()
      ensures Valid() && fresh(board) && Accounted()
      ensures turn == 1 && forall i :: 0 <= i < AREA ==> board[i] == 0
    {
      turn := 1;
      board := new int[AREA](_ => 0);
      new;
      OccupiedEmpty(board[..]);
    }

    /**
      Plays (x, y) for the side to move. An illegal move fails and changes
      nothing; otherwise the cell receives the current turn number, and the
      turn advances only when the move neither wins nor ties.
    */
    method MakeMove(x: int, y: int) returns (m: Move)
      requires Valid() && InBounds(x, y)
      modifies this, board
      ensures Valid() && board == old(board)
      ensures m == Fail <==> !CanMove(old(State()), x, y)
      ensures m == Fail ==> board[..] == old(board[..])
      ensures m != Fail ==> board[..] == old(board[..])[Index(x, y) := old(turn)]
      ensures m == Win <==> m != Fail && CheckVictory(Position(old(turn), board[..]), x, y)
      ensures m == Tie <==>
        m != Fail && !CheckVictory(Position(old(turn), board[..]), x, y) && CheckTie(old(State()))
      ensures turn == if m == Normal then old(turn) + 1 else old(turn)
      ensures forall i :: 0 <= i < AREA && old(board[i]) != 0 ==> board[i] == old(board[i])
      ensures old(Accounted()) ==> Accounted()
      ensures old(Accounted()) && m == Tie ==> forall i :: 0 <= i < AREA ==> board[i] != 0
    {
      if !CanMove(State(), x, y) {
        return Fail;
      }
      ghost var before := board[..];
      board[Index(x, y)] := turn;
      assert board[..] == before[Index(x, y) := turn];
      OccupiedFill(before, Index(x, y), turn);
      if CheckVictory(State(), x, y) {
        return Win;
      }
      if CheckTie(State()) {
        OccupiedFull(board[..]);
        return Tie;
      }
      turn := turn + 1;
      return Normal;
    }

    /** `Clone::clone`: an independent copy with the same turn and cells. */
    method Clone() returns (g: Game)
      requires Valid()
      ensures fresh(g) && fresh(g.board) && g.Valid() && g.State() == State()
    {
      g := new Game();
      g.turn := turn;
      forall i | 0 <= i < AREA {
        g.board[i] := board[i];
      }
      assert g.board[..] == board[..];
    }
  }
}
