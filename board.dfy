/** The board and state model of the n-puzzle solver: a board is a sequence of
    rows, a state is a board plus the blank's position before the last move
    ((-1, -1) when no move has been made). */
module Board {
  import opened Common

  type Board = seq<seq<int>>

  /** The source's (matrix, row, column) tuple. */
  datatype State = State(board: Board, prevRow: int, prevCol: int)

  /** Every row of b has width w. */
  predicate Rect(b: Board, w: nat) {
    forall i :: 0 <= i < |b| ==> |b[i]| == w
  }

  /** b is an n-by-n grid. */
  predicate IsSquare(b: Board, n: nat) {
    |b| == n && Rect(b, n)
  }

  /** The tiles of the board, row after row, left to right in each row. */
  function Flatten(b: Board): seq<int> {
    if |b| == 0 then [] else b[0] + Flatten(b[1..])
  }

  lemma {:induction false} FlattenLength(b: Board, w: nat)
    requires Rect(b, w)
    ensures |Flatten(b)| == |b| * w
  {
    if |b| > 0 {
      FlattenLength(b[1..], w);
      assert |b| * w == w + (|b| - 1) * w;
    }
  }

  /** Cell (i, j) sits at position i*w + j of the flattened board. */
  lemma {:induction false} FlattenAt(b: Board, w: nat, i: nat, j: nat)
    requires Rect(b, w) && i < |b| && j < w
    ensures |Flatten(b)| == |b| * w
    ensures i * w + j < |b| * w && Flatten(b)[i * w + j] == b[i][j]
  {
    FlattenLength(b, w);
    FlattenLength(b[1..], w);
    MulSign(|b| - i, w);
    assert (|b| - i) * w == |b| * w - i * w;
    if i > 0 {
      FlattenAt(b[1..], w, i - 1, j);
      assert i * w + j == w + ((i - 1) * w + j);
    }
  }

  /** Position k of the flattened board is cell (k / n, k % n). */
  lemma FlattenCell(b: Board, n: nat, k: int)
    requires n > 0 && Rect(b, n) && 0 <= k < |b| * n
    ensures 0 <= k / n < |b| && 0 <= k % n < n
    ensures |Flatten(b)| == |b| * n && Flatten(b)[k] == b[k / n][k % n]
  {
    var q, r := k / n, k % n;
    assert q * n + r == k;
    RowBound(k, |b|, n);
    FlattenAt(b, n, q, r);
  }

  /** Writing x into cell (i, j) writes x into position i*n + j of the
      flattened board and nowhere else. */
  lemma FlattenUpdate(b: Board, n: nat, i: nat, j: nat, x: int)
    requires n > 0 && Rect(b, n) && i < |b| && j < n
    ensures Rect(b[i := b[i][j := x]], n)
    ensures i * n + j < |Flatten(b)|
    ensures Flatten(b[i := b[i][j := x]]) == Flatten(b)[i * n + j := x]
  {
    var c := b[i := b[i][j := x]];
    FlattenAt(b, n, i, j);
    FlattenLength(c, n);
    DivModCell(i, j, n);
    forall k | 0 <= k < |b| * n
      ensures Flatten(c)[k] == Flatten(b)[i * n + j := x][k]
    {
      FlattenCell(b, n, k);
      FlattenCell(c, n, k);
      if k != i * n + j {
        if k / n == i && k % n == j {
          DivModInjective(k, i * n + j, n);
        }
      }
    }
  }

  /** The array cut into `count` consecutive rows of width w, in order. */
  function Chunks(arr: seq<int>, w: nat, count: nat): (b: Board)
    requires |arr| == w * count
    ensures |b| == count && Rect(b, w) && Flatten(b) == arr
    decreases count
  {
    if count == 0 then []
    else
      assert w * count == w + w * (count - 1);
      var rest := Chunks(arr[w..], w, count - 1);
      assert ([arr[..w]] + rest)[1..] == rest;
      assert arr[..w] + arr[w..] == arr;
      [arr[..w]] + rest
  }

  /** init_state: accepts exactly the permutations of 0 .. n*n-1 (for n > 0)
      and returns their rows, with no previous blank position. */
  function InitState(arr: seq<int>, n: nat): (r: Result<State>)
    ensures r.Ok? <==> n > 0 && IsPermutation(arr, n * n)
    ensures r.Ok? ==> IsSquare(r.value.board, n) && Flatten(r.value.board) == arr
    ensures r.Ok? ==> r.value.prevRow == -1 && r.value.prevCol == -1
    ensures r.Err? && n > 0 ==> r.error == BadTiles
    ensures n == 0 ==> r == Err(if arr == [] then ZeroStep else BadTiles)
  {
    TileSetIffPermutation(arr, n * n);
    if |arr| == n * n && Elements(arr) == Range(n * n) then
      if n == 0 then Err(ZeroStep)   // the row slicing is given a step of 0, which raises
      else Ok(State(Chunks(arr, n, n), -1, -1))
    else
      Err(BadTiles)
  }

  /** The tile the goal holds at row-major position k: k + 1, and the
      blank in the last cell. */
  function GoalTile(k: int, n: nat): int {
    if k + 1 < n * n then k + 1 else 0
  }

  /** On the board's positions this is the source's (k + 1) % (n * n). */
  lemma GoalTileValue(k: int, n: nat)
    requires 0 <= k < n * n
    ensures GoalTile(k, n) == (k + 1) % (n * n)
  {
    if k + 1 == n * n {
      assert (k + 1) % (n * n) == 0;
    } else {
      assert (k + 1) % (n * n) == k + 1;
    }
  }

  /** Row i of the goal: GoalTile at the positions i*n .. i*n + n - 1. */
  function GoalRow(i: int, n: nat): (row: seq<int>)
    ensures |row| == n
  {
    seq(n, j requires 0 <= j < n => GoalTile(i * n + j, n))
  }

  /** The canonical goal board of is_final_state: cell (i, j) holds
      (i*n + j + 1) % (n*n), so the tiles 1, 2, ... in row-major order and
      the blank in the bottom-right corner. */
  function GoalBoard(n: nat): (g: Board)
    ensures IsSquare(g, n)
    ensures forall i, j :: 0 <= i < n && 0 <= j < n ==> g[i][j] == (i * n + j + 1) % (n * n)
    ensures forall i, j :: 0 <= i < n && 0 <= j < n ==> g[i][j] == GoalTile(i * n + j, n)
  {
    GoalCells(n);
    seq(n, i requires 0 <= i < n => GoalRow(i, n))
  }

  /** is_final_state: the board is the goal, cell by cell. */
  function IsFinalState(board: Board, n: nat): (r: bool)
    ensures r <==> IsSquare(board, n) &&
                   forall i, j :: 0 <= i < n && 0 <= j < n ==> board[i][j] == (i * n + j + 1) % (n * n)
  {
    var g := GoalBoard(n);
    SameCellsSameBoard(board, g, n);
    board == g
  }

  /** The goal rows' cells, by the source's formula. */
  lemma GoalCells(n: nat)
    ensures forall i, j :: 0 <= i < n && 0 <= j < n ==> GoalRow(i, n)[j] == (i * n + j + 1) % (n * n)
  {
    forall i, j | 0 <= i < n && 0 <= j < n ensures GoalRow(i, n)[j] == (i * n + j + 1) % (n * n) {
      RowStartBound(i, n);
      GoalTileValue(i * n + j, n);
    }
  }

  /** Two n-by-n boards that agree cell by cell are equal. */
  lemma SameCellsSameBoard(a: Board, b: Board, n: nat)
    ensures (IsSquare(a, n) && IsSquare(b, n) &&
             (forall i, j :: 0 <= i < n && 0 <= j < n ==> a[i][j] == b[i][j])) ==> a == b
  {
    if IsSquare(a, n) && IsSquare(b, n) && (forall i, j :: 0 <= i < n && 0 <= j < n ==> a[i][j] == b[i][j]) {
      assert forall i :: 0 <= i < n ==> a[i] == b[i];
    }
  }

  /** The flattened goal board lists 1, 2, ..., n*n - 1 and then 0. */
  lemma GoalFlat(n: nat)
    requires n > 0
    ensures |Flatten(GoalBoard(n))| == n * n
    ensures forall k :: 0 <= k < n * n ==> Flatten(GoalBoard(n))[k] == GoalTile(k, n)
  {
    forall k | 0 <= k < n * n ensures |Flatten(GoalBoard(n))| == n * n && Flatten(GoalBoard(n))[k] == GoalTile(k, n) {
      GoalFlatAt(n, k);
    }
    FlattenLength(GoalBoard(n), n);
  }

  lemma GoalFlatAt(n: nat, k: int)
    requires n > 0 && 0 <= k < n * n
    ensures |Flatten(GoalBoard(n))| == n * n && Flatten(GoalBoard(n))[k] == GoalTile(k, n)
  {
    var g := GoalBoard(n);
    var q, r := k / n, k % n;
    assert q * n + r == k;
    RowBound(k, n, n);
    FlattenAt(g, n, q, r);
    assert Flatten(g)[k] == g[q][r] == GoalTile(q * n + r, n);
  }

  /** The goal holds every tile once, and its blank is the last cell. */
  lemma GoalIsPermutation(n: nat)
    requires n > 0
    ensures IsPermutation(Flatten(GoalBoard(n)), n * n)
    ensures GoalBoard(n)[n - 1][n - 1] == 0
  {
    GoalFlat(n);
    GoalCorner(n);
  }

  /** The goal's blank is its bottom-right cell. */
  lemma GoalCorner(n: nat)
    requires n > 0
    ensures GoalBoard(n)[n - 1][n - 1] == 0
  {
    assert (n - 1) * n + (n - 1) + 1 == n * n;
  }

  /** No row in lo .. hi-1 of b holds a 0. */
  predicate ZeroFreeRows(b: Board, lo: nat, hi: nat)
    requires lo <= hi <= |b|
  {
    forall i, j :: lo <= i < hi && 0 <= j < |b[i]| ==> b[i][j] != 0
  }

  /** (i, j) is the first 0 of b in row-major order. */
  predicate IsFirstBlank(b: Board, i: int, j: int) {
    && 0 <= i < |b| && 0 <= j < |b[i]| && b[i][j] == 0
    && ZeroFreeRows(b, 0, i)
    && forall j' :: 0 <= j' < j ==> b[i][j'] != 0
  }

  lemma FirstBlankUnique(b: Board, i: int, j: int, i': int, j': int)
    requires IsFirstBlank(b, i, j) && IsFirstBlank(b, i', j')
    ensures i == i' && j == j'
  {
  }

  /** The first 0 of row at or after column `from`. */
  function ZeroInRow(row: seq<int>, from: nat): (r: Option<nat>)
    requires from <= |row|
    ensures r.Some? ==> from <= r.value < |row| && row[r.value] == 0
    ensures r.Some? ==> forall j :: from <= j < r.value ==> row[j] != 0
    ensures r.None? ==> forall j :: from <= j < |row| ==> row[j] != 0
    decreases |row| - from
  {
    if from == |row| then None
    else if row[from] == 0 then Some(from)
    else ZeroInRow(row, from + 1)
  }

  /** The first 0 of b in rows `from` onwards, in row-major order. */
  function EmptyCellFrom(b: Board, from: nat): (r: Option<(nat, nat)>)
    requires from <= |b|
    ensures r.Some? ==> from <= r.value.0 < |b| && r.value.1 < |b[r.value.0]|
    ensures r.Some? ==> b[r.value.0][r.value.1] == 0 && ZeroFreeRows(b, from, r.value.0)
    ensures r.Some? ==> forall j :: 0 <= j < r.value.1 ==> b[r.value.0][j] != 0
    ensures r.None? ==> ZeroFreeRows(b, from, |b|)
    decreases |b| - from
  {
    if from == |b| then None
    else match ZeroInRow(b[from], 0)
      case Some(j) => Some((from, j))
      case None => EmptyCellFrom(b, from + 1)
  }

  /** The cell find_empty_cell reports: the first 0 in row-major order, or
      None where the source raises "No empty cell found". */
  function EmptyCell(b: Board): (r: Option<(nat, nat)>)
    ensures r.Some? ==> IsFirstBlank(b, r.value.0, r.value.1)
    ensures r.None? <==> ZeroFreeRows(b, 0, |b|)
  {
    EmptyCellFrom(b, 0)
  }

  /** find_empty_cell: the nested scan with early return. */
  method FindEmptyCell(b: Board) returns (r: Option<(nat, nat)>)
    ensures r == EmptyCell(b)
  {
    for i := 0 to |b|
      invariant ZeroFreeRows(b, 0, i)
    {
      for j := 0 to |b[i]|
        invariant forall j' :: 0 <= j' < j ==> b[i][j'] != 0
      {
        if b[i][j] == 0 {
          var e := EmptyCell(b);
          FirstBlankUnique(b, i, j, e.value.0, e.value.1);
          return Some((i, j));
        }
      }
    }
    return None;
  }

  /** check_duplicates: the flattened board has fewer distinct values than
      cells exactly when some value occurs twice. */
  function CheckDuplicates(board: Board): (r: bool)
    ensures r <==> !Distinct(Flatten(board))
  {
    var flat := Flatten(board);
    ElementsSize(flat);
    |flat| != |Elements(flat)|
  }

  /** The states the solver builds: an n-by-n permutation board, and a
      previous blank position that is unset (-1) or on the grid. */
  predicate ValidState(s: State, n: nat) {
    && n > 0
    && IsSquare(s.board, n)
    && IsPermutation(Flatten(s.board), n * n)
    && -1 <= s.prevRow < n && -1 <= s.prevCol < n
  }

  /** Every valid board holds exactly one 0; find_empty_cell finds it. */
  lemma ValidBlank(s: State, n: nat)
    requires ValidState(s, n)
    ensures EmptyCell(s.board).Some?
    ensures forall i, j :: 0 <= i < n && 0 <= j < n ==>
              (s.board[i][j] == 0 <==> (i, j) == EmptyCell(s.board).value)
  {
    var b, f := s.board, Flatten(s.board);
    TileSetIffPermutation(f, n * n);
    assert 0 in Range(n * n);
    var k :| 0 <= k < |f| && f[k] == 0;
    FlattenCell(b, n, k);
    assert b[k / n][k % n] == 0;
    var e := EmptyCell(b);
    assert e.Some?;
    forall i, j | 0 <= i < n && 0 <= j < n && b[i][j] == 0 ensures (i, j) == e.value {
      SameBlankSameCell(b, n, i, j, e.value.0, e.value.1);
    }
  }

  /** In a board whose flattening is duplicate-free, two blank cells are one. */
  lemma SameBlankSameCell(b: Board, n: nat, i: nat, j: nat, i': nat, j': nat)
    requires n > 0 && IsSquare(b, n) && Distinct(Flatten(b))
    requires i < n && j < n && i' < n && j' < n && b[i][j] == 0 && b[i'][j'] == 0
    ensures i == i' && j == j'
  {
    FlattenAt(b, n, i, j);
    FlattenAt(b, n, i', j');
    var f := Flatten(b);
    var k, k' := i * n + j, i' * n + j';
    assert f[k] == f[k'];
    DivModCell(i, j, n);
    DivModCell(i', j', n);
  }

  /** Every tile of a valid board is one of 0 .. n*n-1. */
  lemma ValidTiles(s: State, n: nat)
    requires ValidState(s, n)
    ensures forall i, j :: 0 <= i < n && 0 <= j < n ==> 0 <= s.board[i][j] < n * n
  {
    forall i, j | 0 <= i < n && 0 <= j < n ensures 0 <= s.board[i][j] < n * n {
      FlattenAt(s.board, n, i, j);
    }
  }
}
