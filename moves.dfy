/** The move generator: which way the blank may slide (can_move), the swap
    itself (move_cell) and the successor state (move). */
module Moves {
  import opened Common
  import opened Board

  /** A direction name. The source passes the strings "up", "down",
      "right" and "left"; Unknown stands for any other string. */
  datatype Direction = Up | Down | Right | Left | Unknown

  /** The order in which every search tries the directions. */
  const Directions: seq<Direction> := [Up, Down, Right, Left]

  /** The cell the blank moves to from (i, j); an unknown direction leaves
      it where it is. */
  function Target(i: int, j: int, dir: Direction): (int, int) {
    match dir
    case Up => (i - 1, j)
    case Down => (i + 1, j)
    case Left => (i, j - 1)
    case Right => (i, j + 1)
    case Unknown => (i, j)
  }

  function Opposite(dir: Direction): Direction {
    match dir
    case Up => Down
    case Down => Up
    case Left => Right
    case Right => Left
    case Unknown => Unknown
  }

  predicate InGrid(p: (int, int), n: int) {
    0 <= p.0 < n && 0 <= p.1 < n
  }

  /** Moving to `target` would put the blank back on its recorded previous
      position: up and down compare the row only, left and right the column only. */
  predicate UndoesLastMove(s: State, dir: Direction, target: (int, int)) {
    if dir == Up || dir == Down then target.0 == s.prevRow else target.1 == s.prevCol
  }

  /** can_move. Fails like find_empty_cell when the board has no blank. */
  function CanMove(s: State, dir: Direction, n: nat): (r: Result<bool>)
    ensures r.Err? <==> EmptyCell(s.board).None?
    ensures r.Err? ==> r.error == NoEmptyCell
    ensures dir !in Directions ==> r != Ok(true)
    ensures r.Ok? && IsSquare(s.board, n) ==>
              var (i, j) := EmptyCell(s.board).value;
              (r.value <==> dir in Directions && InGrid(Target(i, j, dir), n) &&
                            !UndoesLastMove(s, dir, Target(i, j, dir)))
  {
    match EmptyCell(s.board)
    case None => Err(NoEmptyCell)
    case Some((i, j)) =>
      Ok(match dir
         case Up => i > 0 && i - 1 != s.prevRow
         case Down => i < n - 1 && i + 1 != s.prevRow
         case Left => j > 0 && j - 1 != s.prevCol
         case Right => j < n - 1 && j + 1 != s.prevCol
         case Unknown => false)
  }

  predicate OnBoard(b: Board, p: (int, int)) {
    0 <= p.0 < |b| && 0 <= p.1 < |b[p.0]|
  }

  /** b with the cells p and q exchanged. */
  function Swap(b: Board, p: (int, int), q: (int, int)): (c: Board)
    requires OnBoard(b, p) && OnBoard(b, q)
    ensures |c| == |b| && forall i :: 0 <= i < |b| ==> |c[i]| == |b[i]|
    ensures c[p.0][p.1] == b[q.0][q.1] && c[q.0][q.1] == b[p.0][p.1]
  {
    var x, y := b[p.0][p.1], b[q.0][q.1];
    var c1 := b[p.0 := b[p.0][p.1 := y]];
    c1[q.0 := c1[q.0][q.1 := x]]
  }

  /** Swap leaves every other cell alone. */
  lemma SwapFrame(b: Board, p: (int, int), q: (int, int))
    requires OnBoard(b, p) && OnBoard(b, q)
    ensures forall i, j :: 0 <= i < |b| && 0 <= j < |b[i]| && (i, j) != p && (i, j) != q ==>
              Swap(b, p, q)[i][j] == b[i][j]
  {
  }

  /** Boards of the same shape that agree cell by cell are equal. */
  lemma SameShapeSameCells(a: Board, b: Board)
    requires |a| == |b| && forall i :: 0 <= i < |a| ==> |a[i]| == |b[i]|
    requires forall i, j :: 0 <= i < |a| && 0 <= j < |a[i]| ==> a[i][j] == b[i][j]
    ensures a == b
  {
    assert forall i :: 0 <= i < |a| ==> a[i] == b[i];
  }

  /** move_cell: copy the rows, then exchange the blank at (i, j) with its
      neighbour in dir; for an unknown direction the copy is unchanged. */
  method MoveCell(board: Board, i: int, j: int, dir: Direction) returns (newBoard: Board)
    requires OnBoard(board, (i, j)) && OnBoard(board, Target(i, j, dir))
    ensures newBoard == Swap(board, (i, j), Target(i, j, dir))
  {
    var t := Target(i, j, dir);
    var rows := board;
    if dir in Directions {
      var mine, theirs := rows[i][j], rows[t.0][t.1];
      rows := rows[i := rows[i][j := theirs]];
      rows := rows[t.0 := rows[t.0][t.1 := mine]];
    } else {
      SwapFrame(board, (i, j), t);
      SameShapeSameCells(Swap(board, (i, j), t), board);
    }
    newBoard := rows;
  }

  /** move: the successor state, which records the blank's position before
      the move; None when can_move refuses. On a board that is not n-by-n,
      can_move may accept a target past the end of a row or of the board,
      where move_cell raises IndexError. */
  function Move(s: State, dir: Direction, n: nat): (r: Result<Option<State>>)
    ensures r == Err(NoEmptyCell) <==> EmptyCell(s.board).None?
    ensures r.Ok? ==> (r.value.Some? <==> CanMove(s, dir, n) == Ok(true))
  {
    match EmptyCell(s.board)
    case None => Err(NoEmptyCell)
    case Some((i, j)) =>
      if CanMove(s, dir, n) != Ok(true) then Ok(None)
      else if OnBoard(s.board, Target(i, j, dir)) then Ok(Some(State(Swap(s.board, (i, j), Target(i, j, dir)), i, j)))
      else Err(IndexOutOfRange)
  }

  /** move fails only for want of a blank or on a target past a short row or
      the last row; on an n-by-n board only the first can happen. */
  lemma MoveErrors(s: State, dir: Direction, n: nat)
    ensures Move(s, dir, n).Err? ==> Move(s, dir, n) == Err(NoEmptyCell) || Move(s, dir, n) == Err(IndexOutOfRange)
    ensures IsSquare(s.board, n) ==> (Move(s, dir, n).Err? <==> EmptyCell(s.board).None?)
  {
  }

  /** A successful move swaps the blank with the cell in dir, which lies on
      the board, and records the blank's old cell as the previous position;
      an n-by-n board stays n-by-n. */
  lemma MoveResult(s: State, dir: Direction, n: nat)
    requires Move(s, dir, n).Ok? && Move(s, dir, n).value.Some?
    ensures var (i, j) := EmptyCell(s.board).value;
            var t := Target(i, j, dir);
            var next := Move(s, dir, n).value.value;
            && OnBoard(s.board, t)
            && next.prevRow == i && next.prevCol == j
            && next.board == Swap(s.board, (i, j), t)
            && (IsSquare(s.board, n) ==> InGrid(t, n) && IsSquare(next.board, n))
  {
  }

  /** A successful move exchanges the blank with its neighbour in dir and
      changes no other cell. */
  lemma MoveSwapsBlank(s: State, dir: Direction, n: nat)
    requires IsSquare(s.board, n) && Move(s, dir, n).Ok? && Move(s, dir, n).value.Some?
    ensures var (i, j) := EmptyCell(s.board).value;
            var t := Target(i, j, dir);
            var next := Move(s, dir, n).value.value;
            && next.board[i][j] == s.board[t.0][t.1]
            && next.board[t.0][t.1] == s.board[i][j]
            && forall a, c :: 0 <= a < n && 0 <= c < n && (a, c) != (i, j) && (a, c) != t ==>
                 next.board[a][c] == s.board[a][c]
  {
    MoveResult(s, dir, n);
    var (i, j) := EmptyCell(s.board).value;
    SwapFrame(s.board, (i, j), Target(i, j, dir));
  }

  /** The exchange of positions a and c of a flat sequence. */
  function FlatSwap(f: seq<int>, a: int, c: int): seq<int>
    requires 0 <= a < |f| && 0 <= c < |f|
  {
    f[a := f[c]][c := f[a]]
  }

  lemma FlatSwapPermutation(f: seq<int>, a: int, c: int, m: int)
    requires 0 <= a < |f| && 0 <= c < |f| && IsPermutation(f, m)
    ensures IsPermutation(FlatSwap(f, a, c), m)
  {
    var g := FlatSwap(f, a, c);
    forall x, y | 0 <= x < y < |g| ensures g[x] != g[y] {
      var x' := if x == a then c else if x == c then a else x;
      var y' := if y == a then c else if y == c then a else y;
      assert g[x] == f[x'] && g[y] == f[y'] && x' != y';
      if x' > y' {
        assert f[y'] != f[x'];
      }
    }
  }

  /** Swapping two cells of an n-by-n board swaps their positions in the
      flattened board. */
  lemma SwapFlatten(b: Board, n: nat, p: (int, int), q: (int, int))
    requires n > 0 && IsSquare(b, n) && InGrid(p, n) && InGrid(q, n)
    ensures IsSquare(Swap(b, p, q), n)
    ensures p.0 * n + p.1 < n * n && q.0 * n + q.1 < n * n && |Flatten(b)| == n * n
    ensures Flatten(Swap(b, p, q)) == FlatSwap(Flatten(b), p.0 * n + p.1, q.0 * n + q.1)
  {
    var x, y := b[p.0][p.1], b[q.0][q.1];
    var c1 := b[p.0 := b[p.0][p.1 := y]];
    FlattenUpdate(b, n, p.0, p.1, y);
    FlattenUpdate(c1, n, q.0, q.1, x);
    FlattenAt(b, n, p.0, p.1);
    FlattenAt(b, n, q.0, q.1);
  }

  lemma SwapKeepsPermutation(b: Board, n: nat, p: (int, int), q: (int, int))
    requires n > 0 && IsSquare(b, n) && InGrid(p, n) && InGrid(q, n)
    requires IsPermutation(Flatten(b), n * n)
    ensures IsSquare(Swap(b, p, q), n) && IsPermutation(Flatten(Swap(b, p, q)), n * n)
  {
    SwapFlatten(b, n, p, q);
    FlatSwapPermutation(Flatten(b), p.0 * n + p.1, q.0 * n + q.1, n * n);
  }

  /** A successful move keeps the state valid (still a permutation with a
      single blank, previous position on the grid) and puts the blank on the
      target cell. A valid state never makes move fail. */
  lemma MoveKeepsValid(s: State, dir: Direction, n: nat)
    requires ValidState(s, n)
    ensures Move(s, dir, n).Ok?
    ensures Move(s, dir, n).value.Some? ==>
              var next := Move(s, dir, n).value.value;
              var (i, j) := EmptyCell(s.board).value;
              && ValidState(next, n)
              && EmptyCell(next.board) == Some(Target(i, j, dir))
  {
    ValidBlank(s, n);
    MoveErrors(s, dir, n);
    var r := Move(s, dir, n);
    if r.value.Some? {
      MoveResult(s, dir, n);
      var next := r.value.value;
      var (i, j) := EmptyCell(s.board).value;
      var t := Target(i, j, dir);
      assert next.board == Swap(s.board, (i, j), t);
      SwapKeepsPermutation(s.board, n, (i, j), t);
      assert ValidState(next, n);
      ValidBlank(next, n);
      assert next.board[t.0][t.1] == 0;
    }
  }

  /** The no-immediate-reversal rule: right after a move, can_move refuses
      the opposite direction. */
  lemma NoImmediateReversal(s: State, dir: Direction, n: nat)
    requires ValidState(s, n) && Move(s, dir, n).Ok? && Move(s, dir, n).value.Some?
    ensures CanMove(Move(s, dir, n).value.value, Opposite(dir), n) == Ok(false)
  {
    MoveKeepsValid(s, dir, n);
  }

  /** move_cell in the opposite direction, from the cell the blank moved to,
      restores the original board. */
  lemma MoveCellReversible(b: Board, i: int, j: int, dir: Direction)
    requires dir in Directions
    requires OnBoard(b, (i, j)) && OnBoard(b, Target(i, j, dir))
    ensures var t := Target(i, j, dir);
            Target(t.0, t.1, Opposite(dir)) == (i, j) &&
            Swap(Swap(b, (i, j), t), t, Target(t.0, t.1, Opposite(dir))) == b
  {
    var t := Target(i, j, dir);
    var c := Swap(b, (i, j), t);
    SwapFrame(b, (i, j), t);
    SwapFrame(c, t, (i, j));
    SameShapeSameCells(Swap(c, t, (i, j)), b);
  }
}
