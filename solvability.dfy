/** The inversion-parity solvability test (Johnson and Story, 1879):
    count_inversions and is_solvable, over the flattened board. */
module Solvability {
  import opened Common
  import opened Board
  import opened Moves

  /** x before y is an inversion: both non-blank and x > y. */
  predicate Beats(x: int, y: int) {
    x > y && x != 0 && y != 0
  }

  /** How many entries of t the value x beats. */
  function CountBelow(x: int, t: seq<int>): nat {
    if t == [] then 0
    else CountBelow(x, t[..|t| - 1]) + (if Beats(x, t[|t| - 1]) then 1 else 0)
  }

  /** The inversion count: each entry against every later entry. */
  function Inversions(s: seq<int>): nat {
    if s == [] then 0 else CountBelow(s[0], s[1..]) + Inversions(s[1..])
  }

  /** The inverted index pairs of s. */
  function InversionPairs(s: seq<int>): set<(int, int)> {
    set a, c | 0 <= a < c < |s| && Beats(s[a], s[c]) :: (a, c)
  }

  /** count_inversions: the nested loop over i < j. */
  method CountInversions(arr: seq<int>) returns (invCount: nat)
    ensures invCount == Inversions(arr)
  {
    invCount := 0;
    for i := 0 to |arr|
      invariant invCount + Inversions(arr[i..]) == Inversions(arr)
    {
      assert arr[i..][1..] == arr[i + 1..];
      ghost var before := invCount;
      for j := i + 1 to |arr|
        invariant invCount == before + CountBelow(arr[i], arr[i + 1..j])
      {
        assert arr[i + 1..j + 1][..j - i - 1] == arr[i + 1..j];
        if arr[i] > arr[j] && arr[i] != 0 && arr[j] != 0 {
          invCount := invCount + 1;
        }
      }
      assert arr[i + 1..|arr|] == arr[i + 1..];
    }
  }

  lemma {:induction false} CountBelowConcat(x: int, u: seq<int>, v: seq<int>)
    ensures CountBelow(x, u + v) == CountBelow(x, u) + CountBelow(x, v)
    decreases |v|
  {
    if v != [] {
      var v' := v[..|v| - 1];
      assert (u + v)[..|u + v| - 1] == u + v';
      assert (u + v)[|u + v| - 1] == v[|v| - 1];
      CountBelowConcat(x, u, v');
    } else {
      assert u + v == u;
    }
  }

  lemma {:induction false} CountBelowBound(x: int, t: seq<int>)
    ensures CountBelow(x, t) <= |t|
  {
    if t != [] {
      CountBelowBound(x, t[..|t| - 1]);
    }
  }

  /** The inverted pairs of row a (a fixed, c below j). */
  function RowPairs(s: seq<int>, a: int, j: int): set<(int, int)>
    requires 0 <= a < |s| && j <= |s|
  {
    set c | a < c < j && Beats(s[a], s[c]) :: (a, c)
  }

  /** Row a up to j is row a up to j - 1, plus (a, j - 1) when inverted. */
  lemma RowPairsStep(s: seq<int>, a: int, j: int)
    requires 0 <= a < j - 1 && j <= |s|
    ensures RowPairs(s, a, j) ==
            RowPairs(s, a, j - 1) + (if Beats(s[a], s[j - 1]) then {(a, j - 1)} else {})
    ensures (a, j - 1) !in RowPairs(s, a, j - 1)
  {
  }

  lemma {:induction false} RowPairsCount(s: seq<int>, a: int, j: int)
    requires 0 <= a < j <= |s|
    ensures |RowPairs(s, a, j)| == CountBelow(s[a], s[a + 1..j])
    decreases j
  {
    if j == a + 1 {
      assert RowPairs(s, a, j) == {};
    } else {
      RowPairsCount(s, a, j - 1);
      RowPairsStep(s, a, j);
      var t := s[a + 1..j];
      assert t[..|t| - 1] == s[a + 1..j - 1] && t[|t| - 1] == s[j - 1];
      assert CountBelow(s[a], t) ==
             CountBelow(s[a], s[a + 1..j - 1]) + (if Beats(s[a], s[j - 1]) then 1 else 0);
      if Beats(s[a], s[j - 1]) {
        assert |RowPairs(s, a, j)| == |RowPairs(s, a, j - 1)| + 1;
      }
    }
  }

  /** The inverted pairs whose first index is at least i. */
  function PairsFrom(s: seq<int>, i: int): set<(int, int)> {
    set a, c | i <= a < c < |s| && 0 <= a && Beats(s[a], s[c]) :: (a, c)
  }

  lemma {:induction false} PairsFromCount(s: seq<int>, i: nat)
    requires i <= |s|
    ensures |PairsFrom(s, i)| == Inversions(s[i..])
    decreases |s| - i
  {
    if i == |s| {
      assert PairsFrom(s, i) == {};
    } else {
      PairsFromCount(s, i + 1);
      RowPairsCount(s, i, |s|);
      assert s[i..][1..] == s[i + 1..];
      assert s[i + 1..|s|] == s[i + 1..];
      assert PairsFrom(s, i) == RowPairs(s, i, |s|) + PairsFrom(s, i + 1);
      assert RowPairs(s, i, |s|) * PairsFrom(s, i + 1) == {};
    }
  }

  /** count_inversions counts exactly the index pairs i < j whose entries
      are both non-zero with a[i] > a[j]. */
  lemma InversionsArePairs(s: seq<int>)
    ensures Inversions(s) == |InversionPairs(s)|
  {
    PairsFromCount(s, 0);
    assert s[0..] == s;
    assert PairsFrom(s, 0) == InversionPairs(s);
  }

  /** At most len*(len-1)/2 inversions. */
  lemma {:induction false} InversionsBound(s: seq<int>)
    ensures 2 * Inversions(s) <= |s| * (|s| - 1)
  {
    if s != [] {
      var t := s[1..];
      InversionsBound(t);
      CountBelowBound(s[0], t);
      assert |s| * (|s| - 1) == |t| * (|t| - 1) + 2 * |t|;
    }
  }

  /** The number of entries x beats does not depend on the order of an
      adjacent pair. */
  lemma CountBelowSwap(x: int, u: seq<int>, a: int, b: int, q: seq<int>)
    ensures CountBelow(x, u + [a, b] + q) == CountBelow(x, u + [b, a] + q)
  {
    CountBelowConcat(x, u + [a, b], q);
    CountBelowConcat(x, u + [b, a], q);
    CountBelowConcat(x, u, [a, b]);
    CountBelowConcat(x, u, [b, a]);
    assert [a, b][..1] == [a] && [b, a][..1] == [b];
    assert [a][..0] == [] && [b][..0] == [];
  }

  lemma BlankPairSwap(a: int, b: int, q: seq<int>)
    requires a == 0 || b == 0
    ensures Inversions([a, b] + q) == Inversions([b, a] + q)
  {
    assert ([a, b] + q)[1..] == [b] + q;
    assert ([b, a] + q)[1..] == [a] + q;
    assert ([b] + q)[1..] == q && ([a] + q)[1..] == q;
    CountBelowConcat(a, [b], q);
    CountBelowConcat(b, [a], q);
    assert [b][..0] == [] && [a][..0] == [];
  }

  /** Exchanging an adjacent pair one of which is the blank leaves the
      inversion count alone. */
  lemma {:induction false} AdjacentBlankSwap(p: seq<int>, a: int, b: int, q: seq<int>)
    requires a == 0 || b == 0
    ensures Inversions(p + [a, b] + q) == Inversions(p + [b, a] + q)
    decreases |p|
  {
    if p == [] {
      assert p + [a, b] + q == [a, b] + q;
      assert p + [b, a] + q == [b, a] + q;
      BlankPairSwap(a, b, q);
    } else {
      var p' := p[1..];
      var f, g := p + [a, b] + q, p + [b, a] + q;
      AdjacentBlankSwap(p', a, b, q);
      assert f[0] == p[0] && f[1..] == p' + [a, b] + q;
      assert g[0] == p[0] && g[1..] == p' + [b, a] + q;
      CountBelowSwap(p[0], p', a, b, q);
    }
  }

  lemma FlatAdjacentBlankSwap(f: seq<int>, k: int)
    requires 0 <= k && k + 1 < |f| && (f[k] == 0 || f[k + 1] == 0)
    ensures Inversions(FlatSwap(f, k, k + 1)) == Inversions(f)
  {
    var p, q := f[..k], f[k + 2..];
    assert f == p + [f[k], f[k + 1]] + q;
    assert FlatSwap(f, k, k + 1) == p + [f[k + 1], f[k]] + q;
    AdjacentBlankSwap(p, f[k], f[k + 1], q);
  }

  /** A left or right move of the blank keeps the inversion count of the
      flattened board. */
  lemma HorizontalMoveKeepsInversions(s: State, dir: Direction, n: nat)
    requires ValidState(s, n) && (dir == Left || dir == Right)
    requires Move(s, dir, n).Ok? && Move(s, dir, n).value.Some?
    ensures Inversions(Flatten(Move(s, dir, n).value.value.board)) == Inversions(Flatten(s.board))
  {
    ValidBlank(s, n);
    MoveResult(s, dir, n);
    var (i, j) := EmptyCell(s.board).value;
    var t := Target(i, j, dir);
    assert Move(s, dir, n).value.value.board == Swap(s.board, (i, j), t);
    HorizontalSwapKeepsInversions(s.board, n, i, j, t.1);
  }

  lemma HorizontalSwapKeepsInversions(b: Board, n: nat, i: int, j: int, j': int)
    requires n > 0 && IsSquare(b, n) && 0 <= i < n && 0 <= j < n && 0 <= j' < n
    requires b[i][j] == 0 && (j' == j + 1 || j' == j - 1)
    ensures Inversions(Flatten(Swap(b, (i, j), (i, j')))) == Inversions(Flatten(b))
  {
    SwapFlatten(b, n, (i, j), (i, j'));
    var f := Flatten(b);
    FlattenAt(b, n, i, j);
    var k := i * n + j;
    if j' == j + 1 {
      assert i * n + j' == k + 1;
      FlatAdjacentBlankSwap(f, k);
    } else {
      assert i * n + j' == k - 1;
      assert FlatSwap(f, k, k - 1) == FlatSwap(f, k - 1, k);
      FlatAdjacentBlankSwap(f, k - 1);
    }
  }

  /** list.index: the first position of x in s. */
  function FirstIndex(s: seq<int>, x: int): (r: Option<nat>)
    ensures r.None? <==> x !in s
    ensures r.Some? ==> r.value < |s| && s[r.value] == x && x !in s[..r.value]
  {
    if s == [] then None
    else if s[0] == x then Some(0)
    else match FirstIndex(s[1..], x)
      case None => None
      case Some(k) =>
        assert s[..k + 1] == [s[0]] + s[1..][..k];
        Some(k + 1)
  }

  /** is_solvable. An even n needs the blank's position; a list without 0
      and a zero n raise. */
  function IsSolvable(arr: seq<int>, n: nat): (r: Result<bool>)
    ensures r.Err? <==> n % 2 == 0 && (0 !in arr || n == 0)
    ensures r.Err? ==> r.error == (if 0 !in arr then ZeroNotInList else DivisionByZero)
    ensures n % 2 == 1 ==> r == Ok(Inversions(arr) % 2 == 0)
  {
    var inversions := Inversions(arr);
    if n % 2 != 0 then Ok(inversions % 2 == 0)
    else match FirstIndex(arr, 0)
      case None => Err(ZeroNotInList)
      case Some(idx) =>
        if n == 0 then Err(DivisionByZero)
        else
          var blankRowFromBottom := n - idx / n;
          if blankRowFromBottom % 2 == 0 then Ok(inversions % 2 != 0)
          else Ok(inversions % 2 == 0)
  }

  /** The even-width rule: with the blank at position k, counted as row
      n - k/n from the bottom, the puzzle is solvable exactly when the
      inversions plus that row number are odd. */
  lemma EvenWidthRule(arr: seq<int>, n: nat, k: int)
    requires n > 0 && n % 2 == 0 && Distinct(arr) && 0 <= k < |arr| && arr[k] == 0
    ensures IsSolvable(arr, n) == Ok((Inversions(arr) + (n - k / n)) % 2 == 1)
  {
    FirstIndexDistinct(arr, 0, k);
    var row, inv := n - k / n, Inversions(arr);
    assert IsSolvable(arr, n) == if row % 2 == 0 then Ok(inv % 2 != 0) else Ok(inv % 2 == 0);
    ParityOfSum(inv, row);
  }

  lemma ParityOfSum(a: int, b: int)
    ensures (a + b) % 2 == 1 <==> (a % 2 == 0) != (b % 2 == 0)
  {
  }

  /** In a duplicate-free list, list.index finds the one occurrence. */
  lemma FirstIndexDistinct(s: seq<int>, x: int, k: int)
    requires Distinct(s) && 0 <= k < |s| && s[k] == x
    ensures FirstIndex(s, x) == Some(k)
  {
    var r := FirstIndex(s, x);
    assert r.Some?;
    assert s[r.value] == s[k];
  }

  /** The last position n*n - 1 of an n-by-n board lies in row n - 1. */
  lemma LastCellRow(n: nat)
    requires n > 0
    ensures 0 <= n * n - 1 && (n * n - 1) / n == n - 1
  {
    assert n * n - 1 == (n - 1) * n + (n - 1);
    DivModCell(n - 1, n - 1, n);
  }

  lemma {:induction false} CountBelowNone(x: int, t: seq<int>)
    requires forall c :: 0 <= c < |t| ==> !Beats(x, t[c])
    ensures CountBelow(x, t) == 0
  {
    if t != [] {
      CountBelowNone(x, t[..|t| - 1]);
    }
  }

  /** Non-blank entries in increasing order: no inversions. */
  lemma {:induction false} SortedNoInversions(s: seq<int>)
    requires forall a, c :: 0 <= a < c < |s| ==> !Beats(s[a], s[c])
    ensures Inversions(s) == 0
  {
    if s != [] {
      CountBelowNone(s[0], s[1..]);
      SortedNoInversions(s[1..]);
    }
  }

  /** The flattened goal lists 1 .. n*n-1 in increasing order, then the blank. */
  lemma GoalSorted(n: nat)
    requires n > 0
    ensures forall a, c :: 0 <= a < c < |Flatten(GoalBoard(n))| ==>
              !Beats(Flatten(GoalBoard(n))[a], Flatten(GoalBoard(n))[c])
  {
    GoalFlat(n);
  }

  /** A list with no inversions and the blank last is solvable. */
  lemma SortedSolvable(f: seq<int>, n: nat)
    requires n > 0 && |f| == n * n && Distinct(f) && f[n * n - 1] == 0
    requires forall a, c :: 0 <= a < c < |f| ==> !Beats(f[a], f[c])
    ensures IsSolvable(f, n) == Ok(true)
  {
    SortedNoInversions(f);
    if n % 2 == 0 {
      var k := n * n - 1;
      LastCellRow(n);
      EvenWidthRule(f, n, k);
      assert n - k / n == 1;
    }
  }

  /** is_solvable accepts the flattened goal for every n. */
  lemma GoalIsSolvable(n: nat)
    requires n > 0
    ensures IsSolvable(Flatten(GoalBoard(n)), n) == Ok(true)
  {
    var f := Flatten(GoalBoard(n));
    GoalSorted(n);
    GoalFlat(n);
    GoalIsPermutation(n);
    assert f[n * n - 1] == GoalTile(n * n - 1, n) == 0;
    SortedSolvable(f, n);
  }
}
