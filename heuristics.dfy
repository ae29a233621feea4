/** The integer heuristics of the solver (Manhattan, Hamming, Chebyshev),
    each a sum over the tiles of a per-tile cost, and the goal-position map
    they consult. */
module Heuristics {
  import opened Common
  import opened Board

  /** The heuristics A* can be given. */
  datatype Heuristic = Manhattan | Hamming | Chebyshev

  /** get_goal_positions: tile v belongs in row (v - 1) / n, column (v - 1) % n. */
  function GoalPositions(n: nat): (m: map<int, (int, int)>)
    ensures forall v :: v in m <==> 1 <= v < n * n
  {
    map v | v in Range(n * n) && v >= 1 :: ((v - 1) / n, (v - 1) % n)
  }

  /** The goal holds v at (r, c) exactly when r is (v - 1) / n and c is (v - 1) % n. */
  lemma GoalTileAt(n: nat, v: int, r: int, c: int)
    requires n > 0 && 1 <= v < n * n && 0 <= r < n && 0 <= c < n
    ensures GoalTile(r * n + c, n) == v <==> ((v - 1) / n, (v - 1) % n) == (r, c)
  {
    var k := r * n + c;
    RowStartBound(r, n);
    DivModCell(r, c, n);
    var q, m := (v - 1) / n, (v - 1) % n;
    assert q * n + m == v - 1;
  }

  /** The goal map and the goal board agree, and the goal's blank is its
      bottom-right cell. */
  lemma GoalPositionsMatchGoal(n: nat, v: int, r: int, c: int)
    requires n > 0 && 1 <= v < n * n && 0 <= r < n && 0 <= c < n
    ensures GoalPositions(n)[v] == (r, c) <==> GoalBoard(n)[r][c] == v
    ensures GoalBoard(n)[n - 1][n - 1] == 0
  {
    GoalCorner(n);
    assert GoalBoard(n)[r][c] == GoalTile(r * n + c, n);
    assert GoalPositions(n)[v] == ((v - 1) / n, (v - 1) % n);
    GoalTileAt(n, v, r, c);
  }

  function Abs(x: int): nat {
    if x < 0 then -x else x
  }

  function Max(a: nat, b: nat): nat {
    if a < b then b else a
  }

  /** What tile t, sitting at row-major position k, adds to heuristic h. */
  function TileCost(h: Heuristic, t: int, k: int, goal: map<int, (int, int)>, n: nat): nat
    requires n > 0 && (t != 0 ==> t in goal)
  {
    if t == 0 then 0
    else match h
      case Manhattan => Abs(k / n - goal[t].0) + Abs(k % n - goal[t].1)
      case Chebyshev => Max(Abs(k / n - goal[t].0), Abs(k % n - goal[t].1))
      case Hamming => if t != GoalTile(k, n) then 1 else 0
  }

  /** goal_positions has an entry for every non-blank tile of f. */
  predicate TilesHaveGoals(f: seq<int>, goal: map<int, (int, int)>) {
    forall k :: 0 <= k < |f| && f[k] != 0 ==> f[k] in goal
  }

  /** The cost of the tiles at positions 0 .. k-1 of the flattened board f. */
  function Partial(h: Heuristic, f: seq<int>, goal: map<int, (int, int)>, n: nat, k: nat): nat
    requires |f| == n * n && k <= |f| && TilesHaveGoals(f, goal)
  {
    if k == 0 then 0
    else Partial(h, f, goal, n, k - 1) + TileCost(h, f[k - 1], k - 1, goal, n)
  }

  /** The value heuristic h gives state s: the cost summed over all tiles. */
  function HeuristicValue(h: Heuristic, s: State, goal: map<int, (int, int)>, n: nat): nat
    requires IsSquare(s.board, n) && TilesHaveGoals(Flatten(s.board), goal)
  {
    FlattenLength(s.board, n);
    Partial(h, Flatten(s.board), goal, n, n * n)
  }

  /** manhattan_distance: the nested loop over the cells. */
  method ManhattanDistance(s: State, goal: map<int, (int, int)>, n: nat) returns (total: nat)
    requires IsSquare(s.board, n) && TilesHaveGoals(Flatten(s.board), goal)
    ensures total == HeuristicValue(Manhattan, s, goal, n)
  {
    var board := s.board;
    FlattenLength(board, n);
    total := 0;
    for i := 0 to n
      invariant i * n <= n * n
      invariant total == Partial(Manhattan, Flatten(board), goal, n, i * n)
    {
      RowStartBound(i, n);
      for j := 0 to n
        invariant i * n + j <= n * n
        invariant total == Partial(Manhattan, Flatten(board), goal, n, i * n + j)
      {
        var tile := board[i][j];
        FlattenAt(board, n, i, j);
        DivModCell(i, j, n);
        if tile != 0 {
          var (goalRow, goalCol) := goal[tile];
          total := total + Abs(i - goalRow) + Abs(j - goalCol);
        }
      }
      assert i * n + n == (i + 1) * n;
      RowStartBound(i + 1, n);
    }
  }

  /** chebyshev_distance: the nested loop over the cells. */
  method ChebyshevDistance(s: State, goal: map<int, (int, int)>, n: nat) returns (total: nat)
    requires IsSquare(s.board, n) && TilesHaveGoals(Flatten(s.board), goal)
    ensures total == HeuristicValue(Chebyshev, s, goal, n)
  {
    var board := s.board;
    FlattenLength(board, n);
    total := 0;
    for i := 0 to n
      invariant i * n <= n * n
      invariant total == Partial(Chebyshev, Flatten(board), goal, n, i * n)
    {
      RowStartBound(i, n);
      for j := 0 to n
        invariant i * n + j <= n * n
        invariant total == Partial(Chebyshev, Flatten(board), goal, n, i * n + j)
      {
        var tile := board[i][j];
        FlattenAt(board, n, i, j);
        DivModCell(i, j, n);
        if tile != 0 {
          var (goalRow, goalCol) := goal[tile];
          total := total + Max(Abs(i - goalRow), Abs(j - goalCol));
        }
      }
      assert i * n + n == (i + 1) * n;
      RowStartBound(i + 1, n);
    }
  }

  /** The misplaced non-blank tiles among the first k pairs of zip(fb, fg). */
  function Misplaced(fb: seq<int>, fg: seq<int>, k: nat): nat
    requires k <= |fb| && k <= |fg|
  {
    if k == 0 then 0
    else Misplaced(fb, fg, k - 1) + (if fb[k - 1] != 0 && fb[k - 1] != fg[k - 1] then 1 else 0)
  }

  /** hamming_distance: zips the flattened board with the flattened goal
      (goal_positions is not consulted). */
  function HammingDistance(s: State, goal: map<int, (int, int)>, n: nat): nat {
    var fb, fg := Flatten(s.board), Flatten(GoalBoard(n));
    Misplaced(fb, fg, if |fb| < |fg| then |fb| else |fg|)
  }

  /** hamming_distance is the Hamming tile-cost sum. */
  lemma HammingIsTileSum(s: State, goal: map<int, (int, int)>, n: nat)
    requires IsSquare(s.board, n) && TilesHaveGoals(Flatten(s.board), goal)
    ensures HammingDistance(s, goal, n) == HeuristicValue(Hamming, s, goal, n)
  {
    var fb, fg := Flatten(s.board), Flatten(GoalBoard(n));
    FlattenLength(s.board, n);
    FlattenLength(GoalBoard(n), n);
    if n > 0 {
      GoalFlat(n);
      MisplacedIsPartial(fb, fg, goal, n, n * n);
    }
  }

  lemma {:induction false} MisplacedIsPartial(fb: seq<int>, fg: seq<int>, goal: map<int, (int, int)>, n: nat, k: nat)
    requires n > 0 && |fb| == n * n && |fg| == n * n && k <= n * n && TilesHaveGoals(fb, goal)
    requires forall c :: 0 <= c < n * n ==> fg[c] == GoalTile(c, n)
    ensures Misplaced(fb, fg, k) == Partial(Hamming, fb, goal, n, k)
  {
    if k > 0 {
      MisplacedIsPartial(fb, fg, goal, n, k - 1);
    }
  }

  /** heuristic(state, goal_positions, n) as A* calls it. */
  method Estimate(h: Heuristic, s: State, goal: map<int, (int, int)>, n: nat) returns (v: nat)
    requires IsSquare(s.board, n) && TilesHaveGoals(Flatten(s.board), goal)
    ensures v == HeuristicValue(h, s, goal, n)
  {
    match h
    case Manhattan =>
      v := ManhattanDistance(s, goal, n);
    case Chebyshev =>
      v := ChebyshevDistance(s, goal, n);
    case Hamming =>
      HammingIsTileSum(s, goal, n);
      v := HammingDistance(s, goal, n);
  }

  /** Every tile of a valid board has a goal position. */
  lemma ValidHasGoals(s: State, n: nat)
    requires ValidState(s, n)
    ensures TilesHaveGoals(Flatten(s.board), GoalPositions(n))
  {
  }

  /** Tile by tile, Hamming <= Chebyshev <= Manhattan: a misplaced tile
      costs 1, then max(|dr|, |dc|) >= 1, then |dr| + |dc|. */
  lemma TileCostOrder(t: int, k: int, n: nat)
    requires n > 0 && 0 <= t < n * n && 0 <= k < n * n
    ensures TileCost(Hamming, t, k, GoalPositions(n), n) <= TileCost(Chebyshev, t, k, GoalPositions(n), n)
    ensures TileCost(Chebyshev, t, k, GoalPositions(n), n) <= TileCost(Manhattan, t, k, GoalPositions(n), n)
  {
    if t != 0 && t != GoalTile(k, n) {
      assert t - 1 != k;
      if k / n == (t - 1) / n && k % n == (t - 1) % n {
        DivModInjective(k, t - 1, n);
      }
    }
  }

  lemma {:induction false} PartialOrder(f: seq<int>, n: nat, k: nat)
    requires n > 0 && |f| == n * n && k <= |f|
    requires forall c :: 0 <= c < |f| ==> 0 <= f[c] < n * n
    ensures TilesHaveGoals(f, GoalPositions(n))
    ensures Partial(Hamming, f, GoalPositions(n), n, k) <= Partial(Chebyshev, f, GoalPositions(n), n, k)
    ensures Partial(Chebyshev, f, GoalPositions(n), n, k) <= Partial(Manhattan, f, GoalPositions(n), n, k)
  {
    if k > 0 {
      PartialOrder(f, n, k - 1);
      TileCostOrder(f[k - 1], k - 1, n);
    }
  }

  /** On every valid state: Hamming <= Chebyshev <= Manhattan. */
  lemma HeuristicOrder(s: State, n: nat)
    requires ValidState(s, n)
    ensures TilesHaveGoals(Flatten(s.board), GoalPositions(n))
    ensures HeuristicValue(Hamming, s, GoalPositions(n), n) <= HeuristicValue(Chebyshev, s, GoalPositions(n), n)
    ensures HeuristicValue(Chebyshev, s, GoalPositions(n), n) <= HeuristicValue(Manhattan, s, GoalPositions(n), n)
  {
    PartialOrder(Flatten(s.board), n, n * n);
  }

  /** A tile on its goal cell costs nothing. */
  lemma TileCostAtGoal(h: Heuristic, n: nat, c: int)
    requires n > 0 && 0 <= c < n * n
    ensures GoalTile(c, n) != 0 ==> GoalTile(c, n) in GoalPositions(n)
    ensures TileCost(h, GoalTile(c, n), c, GoalPositions(n), n) == 0
  {
    if c + 1 < n * n {
      assert GoalPositions(n)[c + 1] == (c / n, c % n);
    }
  }

  lemma {:induction false} PartialAtGoal(h: Heuristic, f: seq<int>, n: nat, k: nat)
    requires n > 0 && |f| == n * n && k <= n * n
    requires forall c :: 0 <= c < n * n ==> f[c] == GoalTile(c, n)
    requires TilesHaveGoals(f, GoalPositions(n))
    ensures Partial(h, f, GoalPositions(n), n, k) == 0
  {
    if k > 0 {
      PartialAtGoal(h, f, n, k - 1);
      TileCostAtGoal(h, n, k - 1);
    }
  }

  /** Every heuristic is 0 on the goal board, whatever the previous blank. */
  lemma HeuristicsZeroAtGoal(h: Heuristic, n: nat, prevRow: int, prevCol: int)
    requires n > 0
    ensures TilesHaveGoals(Flatten(GoalBoard(n)), GoalPositions(n))
    ensures HeuristicValue(h, State(GoalBoard(n), prevRow, prevCol), GoalPositions(n), n) == 0
  {
    GoalIsPermutation(n);
    GoalFlat(n);
    PartialAtGoal(h, Flatten(GoalBoard(n)), n, n * n);
  }

  lemma {:induction false} PartialHammingBound(f: seq<int>, goal: map<int, (int, int)>, n: nat, k: nat)
    requires |f| == n * n && k <= |f| && TilesHaveGoals(f, goal)
    ensures Partial(Hamming, f, goal, n, k) + (if 0 in f[..k] then 1 else 0) <= k
  {
    if k > 0 {
      PartialHammingBound(f, goal, n, k - 1);
      assert f[..k] == f[..k - 1] + [f[k - 1]];
    }
  }

  /** Hamming counts at most the n*n - 1 non-blank tiles. */
  lemma HammingBound(s: State, n: nat)
    requires ValidState(s, n)
    ensures TilesHaveGoals(Flatten(s.board), GoalPositions(n))
    ensures HeuristicValue(Hamming, s, GoalPositions(n), n) <= n * n - 1
  {
    var f := Flatten(s.board);
    TileSetIffPermutation(f, n * n);
    assert 0 in Range(n * n);
    assert f[..n * n] == f;
    PartialHammingBound(f, GoalPositions(n), n, n * n);
  }
}
