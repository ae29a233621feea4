/** Shared vocabulary of the puzzle model: optional values, the exceptions the
    solver raises (as values), and small facts about sets, sequences and
    Euclidean division that the other modules rely on. */
module Common {

  datatype Option<T> = None | Some(value: T)

  /** The exceptions the solver can raise, one constructor per cause. */
  datatype Error =
    | BadTiles        // init_state: not exactly the tiles 0 .. n*n-1
    | ZeroStep        // init_state with n == 0: range() is given a zero step
    | NoEmptyCell     // find_empty_cell: the board holds no 0
    | IndexOutOfRange // move_cell: the target cell lies past a short row or the last row
    | ZeroNotInList   // is_solvable: list.index(0) finds no 0
    | DivisionByZero  // is_solvable with n == 0: integer division by zero

  datatype Result<T> = Ok(value: T) | Err(error: Error)

  /** The integers 0 .. m-1, as a set. */
  function Range(m: int): (r: set<int>)
    ensures forall k :: k in r <==> 0 <= k < m
  {
    if m <= 0 then {} else Range(m - 1) + {m - 1}
  }

  /** The values occurring in s, as a set. */
  function Elements<T>(s: seq<T>): set<T> {
    set x | x in s
  }

  /** No value occurs twice in s. */
  predicate Distinct<T(==)>(s: seq<T>) {
    forall i, j :: 0 <= i < j < |s| ==> s[i] != s[j]
  }

  /** s lists each of 0 .. m-1 exactly once. */
  predicate IsPermutation(s: seq<int>, m: int) {
    |s| == m && Distinct(s) && forall k :: 0 <= k < |s| ==> 0 <= s[k] < m
  }

  lemma ElementsCons<T>(s: seq<T>)
    requires s != []
    ensures Elements(s) == {s[0]} + Elements(s[1..])
  {
    assert s == [s[0]] + s[1..];
  }

  /** A non-empty sequence is duplicate-free exactly when its head does not
      recur and its tail is duplicate-free. */
  lemma DistinctCons<T>(s: seq<T>)
    requires s != []
    ensures Distinct(s) <==> s[0] !in s[1..] && Distinct(s[1..])
  {
    var t := s[1..];
    if s[0] in t {
      var k :| 0 <= k < |t| && t[k] == s[0];
      assert s[k + 1] == s[0];
    }
    if Distinct(s) {
      forall i, j | 0 <= i < j < |t| ensures t[i] != t[j] {
        assert t[i] == s[i + 1] && t[j] == s[j + 1];
      }
    }
    if s[0] !in t && Distinct(t) {
      forall i, j | 0 <= i < j < |s| ensures s[i] != s[j] {
        assert s[j] == t[j - 1];
        if i > 0 {
          assert s[i] == t[i - 1];
        }
      }
    }
  }

  lemma {:induction false} ElementsSize<T>(s: seq<T>)
    ensures |Elements(s)| <= |s|
    ensures |Elements(s)| == |s| <==> Distinct(s)
  {
    if s == [] {
      assert Elements(s) == {};
    } else {
      var t := s[1..];
      ElementsSize(t);
      ElementsCons(s);
      DistinctCons(s);
      if s[0] in t {
        assert s[0] in Elements(t);
        assert Elements(s) == Elements(t);
      } else {
        assert s[0] !in Elements(t);
        assert |Elements(s)| == |Elements(t)| + 1;
      }
    }
  }

  lemma RangeSize(m: nat)
    ensures |Range(m)| == m
  {
    var s := seq(m, i => i);
    assert forall x :: 0 <= x < m ==> s[x] == x;
    ElementsSize(s);
    forall x | x in Range(m) ensures x in Elements(s) {
      assert s[x] == x;
    }
    assert Elements(s) == Range(m);
  }

  lemma {:induction false} SubsetSize<T>(a: set<T>, b: set<T>)
    requires a <= b
    ensures |a| <= |b|
    decreases a
  {
    if a != {} {
      var y :| y in a;
      SubsetSize(a - {y}, b - {y});
    }
  }

  lemma SubsetOfSameSize<T>(a: set<T>, b: set<T>)
    requires a <= b && |a| == |b|
    ensures a == b
  {
    if a != b {
      var x :| x in b && x !in a;
      SubsetSize(a, b - {x});
    }
  }

  /** The tile-set test of init_state (s has length m and its values are
      exactly 0 .. m-1) holds exactly for the permutations of 0 .. m-1. */
  lemma TileSetIffPermutation(s: seq<int>, m: nat)
    ensures (|s| == m && Elements(s) == Range(m)) <==> IsPermutation(s, m)
  {
    RangeSize(m);
    ElementsSize(s);
    if |s| == m && Elements(s) == Range(m) {
      forall k | 0 <= k < |s| ensures 0 <= s[k] < m {
        assert s[k] in Elements(s);
      }
    }
    if IsPermutation(s, m) {
      assert Elements(s) <= Range(m);
      SubsetOfSameSize(Elements(s), Range(m));
    }
  }

  /** Sign facts about a multiple of a positive n. */
  lemma MulSign(d: int, n: int)
    requires n > 0
    ensures d >= 1 ==> d * n >= n
    ensures d <= 0 ==> d * n <= 0
    ensures d <= -1 ==> d * n <= -n
  {
    if d >= 1 {
      assert d * n == n + (d - 1) * n;
    } else if d <= -1 {
      assert d * n == -n + (d + 1) * n;
    }
  }

  /** Cell (i, j) of a width-n grid has row-major index i*n + j, and that
      index gives back i and j by Euclidean division. */
  lemma DivModCell(i: int, j: int, n: int)
    requires n > 0 && 0 <= i && 0 <= j < n
    ensures (i * n + j) / n == i && (i * n + j) % n == j
  {
    var k := i * n + j;
    var q, r := k / n, k % n;
    assert (q - i) * n == j - r by {
      assert q * n + r == k;
      assert (q - i) * n == q * n - i * n;
    }
    MulSign(q - i, n);
  }

  /** Distinct row-major indices of a width-n grid name distinct cells. */
  lemma DivModInjective(k1: int, k2: int, n: int)
    requires n > 0 && 0 <= k1 && 0 <= k2
    requires k1 / n == k2 / n && k1 % n == k2 % n
    ensures k1 == k2
  {
  }

  /** The first i rows of an n-by-n grid end at i*n, inside the grid. */
  lemma RowStartBound(i: int, n: int)
    requires 0 <= i <= n
    ensures 0 <= i * n <= n * n
    ensures i < n ==> i * n + n <= n * n
  {
    assert n * n - i * n == (n - i) * n;
    if n > 0 {
      MulSign(n - i, n);
      MulSign(i, n);
    }
  }

  /** An index less than rows*n lies in one of the first `rows` rows. */
  lemma RowBound(k: int, rows: int, n: int)
    requires n > 0 && 0 <= k < rows * n
    ensures 0 <= k / n < rows
  {
    var q, r := k / n, k % n;
    assert (rows - q) * n == rows * n - q * n;
    assert q * n + r == k;
    MulSign(rows - q, n);
    MulSign(q, n);
  }

  /** Appending after a non-empty sequence keeps its head and appends to its tail. */
  lemma SnocTail<T>(p: seq<T>, x: T)
    requires p != []
    ensures (p + [x])[0] == p[0] && (p + [x])[1..] == p[1..] + [x]
  {
  }

  /** Cutting a sequence at i and j. */
  lemma SliceSplit<T>(q: seq<T>, i: int, j: int)
    requires 0 <= i <= j <= |q|
    ensures q[..j] == q[..i] + q[i..j] && q == q[..j] + q[j..]
  {
  }
}
