/** Depth-limited search and iterative deepening: recursive_dls walks the
    move tree depth first with a visited set scoped to the current path
    (added on entry, removed on a failed return) and a global descent
    counter; iddfs reruns it with depth 0, 1, 2, ... */
module Iddfs {
  import opened Common
  import opened Board
  import opened Moves
  import opened Search

  /** What recursive_dls returns on success: the final state and the path to it. */
  datatype Found = Found(state: State, path: seq<Step>)

  /** Dropping the first step of a non-empty path does not change where it ends. */
  lemma PathEndCons(s: State, p: seq<Step>)
    requires p != []
    ensures PathEnd(s, p) == PathEnd(p[0].state, p[1..])
  {
    if |p| > 1 {
      assert p[1..][|p| - 2] == p[|p| - 1];
    }
  }

  /** A move from s succeeds only in one of the four search directions. */
  lemma NextInDirections(s: State, dir: Direction, n: nat)
    requires NextState(s, dir, n).Some?
    ensures dir in Directions
  {
  }

  /** A move function: the successor of a state in a direction, if any. */
  type Mover = (State, Direction) -> Option<State>

  /** move, as the move function recursive_dls calls. */
  function Successor(n: nat): Mover {
    (t, d) => NextState(t, d, n)
  }

  /** next moves only in the four search directions. */
  ghost predicate InDirections(next: Mover) {
    forall t, d :: next(t, d).Some? ==> d in Directions
  }

  lemma SuccessorInDirections(n: nat)
    ensures InDirections(Successor(n))
  {
    forall t, d | Successor(n)(t, d).Some? ensures d in Directions {
      NextInDirections(t, d, n);
    }
  }

  /** p is a path of next-moves from s whose states, s included, are
      pairwise distinct and all outside V: the paths recursive_dls can walk
      when entered with visited == V. */
  predicate FreshPath(next: Mover, s: State, p: seq<Step>, V: set<State>)
    decreases |p|
  {
    s !in V &&
    (p == [] ||
     (next(s, p[0].direction) == Some(p[0].state) && FreshPath(next, p[0].state, p[1..], V + {s})))
  }

  lemma {:induction false} FreshIsPath(s: State, p: seq<Step>, V: set<State>, n: nat)
    requires FreshPath(Successor(n), s, p, V)
    ensures IsPath(s, p, n)
    decreases |p|
  {
    if p != [] {
      FreshIsPath(p[0].state, p[1..], V + {s}, n);
    }
  }

  /** The states of a path before its last one (the start included): those
      a successful recursive_dls leaves in visited. */
  ghost function Interior(s: State, p: seq<Step>): set<State>
    decreases |p|
  {
    if p == [] then {} else {s} + Interior(p[0].state, p[1..])
  }

  /** No fresh path of at most `limit` moves from s reaches a final state. */
  ghost predicate NoGoalWithin(next: Mover, s: State, limit: int, V: set<State>, n: nat) {
    forall p :: |p| <= limit && FreshPath(next, s, p, V) ==> !IsFinalState(PathEnd(s, p).board, n)
  }

  /** As NoGoalWithin, for the paths whose first move is in direction d. */
  ghost predicate NoGoalVia(next: Mover, s: State, d: Direction, limit: int, V: set<State>, n: nat) {
    forall p: seq<Step> :: |p| <= limit && p != [] && p[0].direction == d && FreshPath(next, s, p, V) ==>
      !IsFinalState(PathEnd(s, p).board, n)
  }

  /** A direction recursive_dls skips (move fails or the neighbour is on the
      current path) or whose recursive call fails yields no goal. */
  lemma NoGoalViaStep(next: Mover, s: State, d: Direction, limit: int, V: set<State>, n: nat)
    requires limit > 0 && s !in V
    requires next(s, d).None? || next(s, d).value in V + {s} ||
             NoGoalWithin(next, next(s, d).value, limit - 1, V + {s}, n)
    ensures NoGoalVia(next, s, d, limit, V, n)
  {
    forall p: seq<Step> | |p| <= limit && p != [] && p[0].direction == d && FreshPath(next, s, p, V)
      ensures !IsFinalState(PathEnd(s, p).board, n)
    {
      PathEndCons(s, p);
      assert FreshPath(next, p[0].state, p[1..], V + {s});
    }
  }

  /** With no moves left, only the empty path is within reach. */
  lemma NoGoalAtDepthZero(next: Mover, s: State, V: set<State>, n: nat)
    requires !IsFinalState(s.board, n)
    ensures NoGoalWithin(next, s, 0, V, n)
  {
    forall p: seq<Step> | |p| <= 0 && FreshPath(next, s, p, V) ensures !IsFinalState(PathEnd(s, p).board, n) {
      assert p == [];
    }
  }

  /** When s is not final and no direction yields a goal, no path does. */
  lemma NoGoalFromSteps(next: Mover, s: State, limit: int, V: set<State>, n: nat)
    requires InDirections(next) && s !in V && !IsFinalState(s.board, n)
    requires NoGoalVias(next, s, 0, limit, V, n)
    ensures NoGoalWithin(next, s, limit, V, n)
  {
    forall p: seq<Step> | |p| <= limit && FreshPath(next, s, p, V) ensures !IsFinalState(PathEnd(s, p).board, n) {
      if p != [] {
        assert next(s, p[0].direction).Some?;
        var k :| 0 <= k < |Directions| && Directions[k] == p[0].direction;
        assert NoGoalVia(next, s, Directions[k], limit, V, n);
      }
    }
  }

  /** Directions lo .. 3 yield no goal. */
  ghost predicate NoGoalVias(next: Mover, s: State, lo: int, limit: int, V: set<State>, n: nat) {
    forall j :: 0 <= lo <= j < |Directions| ==> NoGoalVia(next, s, Directions[j], limit, V, n)
  }

  lemma NoGoalViasStep(next: Mover, s: State, k: int, limit: int, V: set<State>, n: nat)
    requires 0 <= k < |Directions| && NoGoalVias(next, s, k + 1, limit, V, n)
    requires NoGoalVia(next, s, Directions[k], limit, V, n)
    ensures NoGoalVias(next, s, k, limit, V, n)
  {
  }

  /** The states a successful recursive_dls leaves on its path grow by one
      state per level. */
  lemma InteriorCons(s: State, d: Direction, t: State, p: seq<Step>)
    ensures Interior(s, [Step(d, t)] + p) == {s} + Interior(t, p)
  {
    var path := [Step(d, t)] + p;
    assert path[0] == Step(d, t) && path[1..] == p;
  }

  /** A fresh path from a neighbour t of s, outside V + {s}, extends to a
      fresh path from s one move longer. */
  lemma FreshCons(next: Mover, s: State, d: Direction, t: State, p: seq<Step>, V: set<State>)
    requires s !in V && next(s, d) == Some(t) && FreshPath(next, t, p, V + {s})
    ensures var path := [Step(d, t)] + p;
            && FreshPath(next, s, path, V) && |path| == |p| + 1
            && PathEnd(s, path) == PathEnd(t, p)
  {
    var path := [Step(d, t)] + p;
    assert path[0] == Step(d, t) && path[1..] == p;
    PathEndCons(s, path);
  }

  /** No goal within `limit` moves from s along any move path. */
  ghost predicate NoGoalPathWithin(s: State, limit: int, n: nat) {
    forall q :: IsPath(s, q, n) && |q| <= limit ==> !IsFinalState(PathEnd(s, q).board, n)
  }

  lemma {:induction false} PathConcat(s: State, a: seq<Step>, b: seq<Step>, n: nat)
    ensures IsPath(s, a + b, n) <==> IsPath(s, a, n) && IsPath(PathEnd(s, a), b, n)
    ensures PathEnd(s, a + b) == PathEnd(PathEnd(s, a), b)
    decreases |a|
  {
    if a == [] {
      assert a + b == b;
    } else {
      assert (a + b)[0] == a[0] && (a + b)[1..] == a[1..] + b;
      PathConcat(a[0].state, a[1..], b, n);
      PathEndCons(s, a);
      PathEndCons(s, a + b);
    }
  }

  /** The states a path passes through, the start included. */
  ghost function Visits(s: State, q: seq<Step>): (v: seq<State>)
    ensures |v| == |q| + 1
  {
    seq(|q| + 1, i requires 0 <= i <= |q| => PathEnd(s, q[..i]))
  }

  lemma VisitsCons(s: State, q: seq<Step>)
    requires q != []
    ensures Visits(s, q) == [s] + Visits(q[0].state, q[1..])
  {
    var v, w := Visits(s, q), [s] + Visits(q[0].state, q[1..]);
    forall i | 0 <= i < |v| ensures v[i] == w[i] {
      if 0 < i {
        assert q[1..][..i - 1] == q[1..i];
        if i > 1 {
          assert q[1..i][i - 2] == q[i - 1];
        }
      }
    }
  }

  /** A path whose visits are distinct and outside V is fresh. */
  lemma {:induction false} DistinctIsFresh(s: State, q: seq<Step>, V: set<State>, n: nat)
    requires IsPath(s, q, n) && Distinct(Visits(s, q))
    requires forall i :: 0 <= i < |q| + 1 ==> Visits(s, q)[i] !in V
    ensures FreshPath(Successor(n), s, q, V)
    decreases |q|
  {
    assert Visits(s, q)[0] == s;
    if q != [] {
      var t := q[0].state;
      var w := Visits(t, q[1..]);
      VisitsCons(s, q);
      DistinctCons(Visits(s, q));
      assert Visits(s, q)[1..] == w;
      forall i | 0 <= i < |q[1..]| + 1 ensures w[i] !in V + {s} {
        assert w[i] == Visits(s, q)[i + 1];
      }
      DistinctIsFresh(t, q[1..], V + {s}, n);
    }
  }

  /** Cutting out the moves between two visits of the same state leaves a
      path to the same end. */
  lemma CutCycle(s: State, q: seq<Step>, i: int, j: int, n: nat)
    requires IsPath(s, q, n) && 0 <= i < j <= |q| && PathEnd(s, q[..i]) == PathEnd(s, q[..j])
    ensures IsPath(s, q[..i] + q[j..], n) && PathEnd(s, q[..i] + q[j..]) == PathEnd(s, q)
  {
    SliceSplit(q, i, j);
    PathConcat(s, q[..j], q[j..], n);
    PathConcat(s, q[..i], q[i..j], n);
    PathConcat(s, q[..i], q[j..], n);
  }

  /** Every path can be shortened to a fresh one with the same end. */
  lemma {:induction false} ShortenToFresh(s: State, q: seq<Step>, n: nat) returns (q': seq<Step>)
    requires IsPath(s, q, n)
    ensures FreshPath(Successor(n), s, q', {}) && |q'| <= |q| && PathEnd(s, q') == PathEnd(s, q)
    decreases |q|
  {
    var v := Visits(s, q);
    if Distinct(v) {
      DistinctIsFresh(s, q, {}, n);
      q' := q;
    } else {
      var i, j :| 0 <= i < j < |v| && v[i] == v[j];
      CutCycle(s, q, i, j, n);
      q' := ShortenToFresh(s, q[..i] + q[j..], n);
    }
  }

  /** A failed dls(s, limit) rules out every goal within limit moves, not
      only the fresh paths it walks. */
  lemma FreshSuffices(s: State, limit: int, n: nat)
    requires NoGoalWithin(Successor(n), s, limit, {}, n)
    ensures NoGoalPathWithin(s, limit, n)
  {
    forall q | IsPath(s, q, n) && |q| <= limit ensures !IsFinalState(PathEnd(s, q).board, n) {
      var q' := ShortenToFresh(s, q, n);
      assert |q'| <= limit && FreshPath(Successor(n), s, q', {});
    }
  }

  /** What recursive_dls(s, limit) entered with visited == V returns, and
      how many times it increments the counter (once per recursive call),
      when it moves with next. */
  datatype Outcome = Outcome(found: Option<Found>, descents: nat)

  function Explore(next: Mover, s: State, limit: nat, V: set<State>, n: nat): Outcome
    decreases limit, 1, 0
  {
    if IsFinalState(s.board, n) then Outcome(Some(Found(s, [])), 0)
    else if limit == 0 then Outcome(None, 0)
    else ExploreFrom(next, s, limit, V, n, 0)
  }

  /** The loop over the directions from the k-th on, with s on the current
      path: a neighbour that is not yet on it is searched with limit - 1,
      and the first success ends the loop. */
  function ExploreFrom(next: Mover, s: State, limit: nat, V: set<State>, n: nat, k: nat): Outcome
    requires limit > 0
    decreases limit, 0, |Directions| - k
  {
    if k >= |Directions| then Outcome(None, 0)
    else
      var neighbor := next(s, Directions[k]);
      if neighbor.Some? && neighbor.value !in V + {s} then
        var child := Explore(next, neighbor.value, limit - 1, V + {s}, n);
        if child.found.Some? then
          Outcome(Some(Found(child.found.value.state, [Step(Directions[k], neighbor.value)] + child.found.value.path)),
                  1 + child.descents)
        else
          var rest := ExploreFrom(next, s, limit, V, n, k + 1);
          Outcome(rest.found, 1 + child.descents + rest.descents)
      else
        ExploreFrom(next, s, limit, V, n, k + 1)
  }

  /** A success is a fresh path of at most `limit` moves to a final state. */
  lemma {:induction false} ExploreSound(next: Mover, s: State, limit: nat, V: set<State>, n: nat)
    requires s !in V
    ensures var o := Explore(next, s, limit, V, n);
            o.found.Some? ==>
              && FreshPath(next, s, o.found.value.path, V) && |o.found.value.path| <= limit
              && PathEnd(s, o.found.value.path) == o.found.value.state
              && IsFinalState(o.found.value.state.board, n)
    decreases limit, 1, 0
  {
    if !IsFinalState(s.board, n) && limit > 0 {
      ExploreFromSound(next, s, limit, V, n, 0);
    }
  }

  lemma {:induction false} ExploreFromSound(next: Mover, s: State, limit: nat, V: set<State>, n: nat, k: nat)
    requires limit > 0 && s !in V
    ensures var o := ExploreFrom(next, s, limit, V, n, k);
            o.found.Some? ==>
              && FreshPath(next, s, o.found.value.path, V) && |o.found.value.path| <= limit
              && PathEnd(s, o.found.value.path) == o.found.value.state
              && IsFinalState(o.found.value.state.board, n)
    decreases limit, 0, |Directions| - k
  {
    if k < |Directions| {
      var neighbor := next(s, Directions[k]);
      if neighbor.Some? && neighbor.value !in V + {s} {
        var child := Explore(next, neighbor.value, limit - 1, V + {s}, n);
        ExploreSound(next, neighbor.value, limit - 1, V + {s}, n);
        if child.found.Some? {
          FreshCons(next, s, Directions[k], neighbor.value, child.found.value.path, V);
        } else {
          ExploreFromSound(next, s, limit, V, n, k + 1);
        }
      } else {
        ExploreFromSound(next, s, limit, V, n, k + 1);
      }
    }
  }

  /** A failure rules out every fresh goal path of at most `limit` moves. */
  lemma {:induction false} ExploreComplete(next: Mover, s: State, limit: nat, V: set<State>, n: nat)
    requires InDirections(next) && s !in V
    ensures Explore(next, s, limit, V, n).found.None? ==> NoGoalWithin(next, s, limit, V, n)
    decreases limit, 1, 0
  {
    if !IsFinalState(s.board, n) {
      if limit == 0 {
        NoGoalAtDepthZero(next, s, V, n);
      } else {
        ExploreFromComplete(next, s, limit, V, n, 0);
        if ExploreFrom(next, s, limit, V, n, 0).found.None? {
          NoGoalFromSteps(next, s, limit, V, n);
        }
      }
    }
  }

  lemma {:induction false} ExploreFromComplete(next: Mover, s: State, limit: nat, V: set<State>, n: nat, k: nat)
    requires InDirections(next) && limit > 0 && s !in V
    ensures ExploreFrom(next, s, limit, V, n, k).found.None? ==> NoGoalVias(next, s, k, limit, V, n)
    decreases limit, 0, |Directions| - k
  {
    if k < |Directions| {
      var neighbor := next(s, Directions[k]);
      ExploreFromComplete(next, s, limit, V, n, k + 1);
      if neighbor.Some? && neighbor.value !in V + {s} {
        ExploreComplete(next, neighbor.value, limit - 1, V + {s}, n);
      }
      if ExploreFrom(next, s, limit, V, n, k).found.None? {
        NoGoalViaStep(next, s, Directions[k], limit, V, n);
        NoGoalViasStep(next, s, k, limit, V, n);
      }
    }
  }

  /** 4 + 4^2 + ... + 4^limit: every state has at most four moves. */
  function TreeBound(limit: nat): nat {
    if limit == 0 then 0 else 4 * (1 + TreeBound(limit - 1))
  }

  /** recursive_dls(s, limit) makes at most TreeBound(limit) descents. */
  lemma {:induction false} ExploreBound(next: Mover, s: State, limit: nat, V: set<State>, n: nat)
    ensures Explore(next, s, limit, V, n).descents <= TreeBound(limit)
    decreases limit, 1, 0
  {
    if !IsFinalState(s.board, n) && limit > 0 {
      ExploreFromBound(next, s, limit, V, n, 0);
    }
  }

  lemma {:induction false} ExploreFromBound(next: Mover, s: State, limit: nat, V: set<State>, n: nat, k: nat)
    requires limit > 0 && k <= |Directions|
    ensures ExploreFrom(next, s, limit, V, n, k).descents <= (|Directions| - k) * (1 + TreeBound(limit - 1))
    decreases limit, 0, |Directions| - k
  {
    if k < |Directions| {
      var b := 1 + TreeBound(limit - 1);
      assert (|Directions| - k) * b == (|Directions| - (k + 1)) * b + b;
      var neighbor := next(s, Directions[k]);
      ExploreFromBound(next, s, limit, V, n, k + 1);
      if neighbor.Some? && neighbor.value !in V + {s} {
        ExploreBound(next, neighbor.value, limit - 1, V + {s}, n);
      }
    }
  }

  /** What dls(s, limit) returns and how far it moves the counter: the
      search from an empty visited set, moving with move. */
  function DlsRun(s: State, limit: nat, n: nat): Outcome {
    Explore(Successor(n), s, limit, {}, n)
  }

  /** With limit 0, dls tests the start state only: it succeeds exactly when
      that state is solved, with the empty path, and does not move the counter. */
  lemma DlsZeroLimit(s: State, n: nat)
    ensures DlsRun(s, 0, n).found.Some? <==> IsFinalState(s.board, n)
    ensures DlsRun(s, 0, n).found.Some? ==> DlsRun(s, 0, n).found == Some(Found(s, []))
    ensures DlsRun(s, 0, n).descents == 0
  {
  }

  /** The counter after the passes with depth 0 .. depth of iddfs. */
  function PassDescents(init: State, depth: nat, n: nat): nat {
    DlsRun(init, depth, n).descents + (if depth == 0 then 0 else PassDescents(init, depth - 1, n))
  }

  /** The first depth at which dls succeeds: every shallower depth held no
      goal, so the path found has exactly that length and is a shortest goal
      path; a final start state is found, with the empty path, at depth 0. */
  lemma FirstSuccess(init: State, depth: nat, f: Found, n: nat)
    requires depth > 0 ==> NoGoalPathWithin(init, depth - 1, n) && !IsFinalState(init.board, n)
    requires IsPath(init, f.path, n) && |f.path| <= depth
    requires PathEnd(init, f.path) == f.state && IsFinalState(f.state.board, n)
    ensures |f.path| == depth
    ensures forall q :: IsPath(init, q, n) && IsFinalState(PathEnd(init, q).board, n) ==> depth <= |q|
  {
  }

  /** What dls promises: a final start is found at once, with the empty path
      and no descent; a success is a move path of at most limit moves to a
      final state; a failure rules out every such path. */
  lemma DlsRunCorrect(s: State, limit: nat, n: nat)
    ensures IsFinalState(s.board, n) ==> DlsRun(s, limit, n).found == Some(Found(s, [])) && DlsRun(s, limit, n).descents == 0
    ensures var f := DlsRun(s, limit, n).found;
            f.Some? ==>
              && IsPath(s, f.value.path, n) && |f.value.path| <= limit
              && PathEnd(s, f.value.path) == f.value.state && IsFinalState(f.value.state.board, n)
    ensures DlsRun(s, limit, n).found.None? ==> NoGoalPathWithin(s, limit, n)
  {
    var f := DlsRun(s, limit, n).found;
    ExploreSound(Successor(n), s, limit, {}, n);
    SuccessorInDirections(n);
    ExploreComplete(Successor(n), s, limit, {}, n);
    if f.Some? {
      FreshIsPath(s, f.value.path, {}, n);
    } else {
      FreshSuffices(s, limit, n);
    }
  }

  /** iddfs from the pass with depth `depth` on: the first pass up to
      maxDepth whose dls succeeds gives the answer, with the counter summed
      over the passes 0 .. that depth; None when every pass fails. */
  function IddfsFrom(init: State, depth: nat, maxDepth: nat, n: nat): Option<Solution>
    decreases maxDepth + 1 - depth
  {
    if depth > maxDepth then None
    else
      match DlsRun(init, depth, n).found
      case Some(f) => Some(Solution(f.state, f.path, PassDescents(init, depth, n)))
      case None => IddfsFrom(init, depth + 1, maxDepth, n)
  }

  /** One pass of iddfs: a success ends the search with that pass's path
      and the counter so far, a failure moves on to the next depth. */
  lemma IddfsFromStep(init: State, depth: nat, maxDepth: nat, n: nat)
    requires depth <= maxDepth
    ensures DlsRun(init, depth, n).found.Some? ==>
              IddfsFrom(init, depth, maxDepth, n) ==
                Some(Solution(DlsRun(init, depth, n).found.value.state, DlsRun(init, depth, n).found.value.path,
                              PassDescents(init, depth, n)))
    ensures DlsRun(init, depth, n).found.None? ==>
              IddfsFrom(init, depth, maxDepth, n) == IddfsFrom(init, depth + 1, maxDepth, n)
    ensures PassDescents(init, depth, n) ==
              DlsRun(init, depth, n).descents + (if depth == 0 then 0 else PassDescents(init, depth - 1, n))
  {
  }

  /** The answer of iddfs with the passes 0 .. maxDepth. */
  function IddfsRun(init: State, maxDepth: nat, n: nat): Option<Solution> {
    IddfsFrom(init, 0, maxDepth, n)
  }

  /** r is what iddfs may answer: a final state at the end of a move path of
      at most maxDepth moves, a shortest goal path, found by the pass whose
      depth is its length after every shallower pass failed, with the counter
      over those passes; or None when no goal lies within maxDepth moves. */
  ghost predicate IddfsAnswer(init: State, r: Option<Solution>, maxDepth: nat, n: nat) {
    && (r.Some? ==>
          && IsFinalState(r.value.state.board, n) && IsPath(init, r.value.path, n)
          && PathEnd(init, r.value.path) == r.value.state && |r.value.path| <= maxDepth)
    && (r.Some? ==> forall q :: IsPath(init, q, n) && IsFinalState(PathEnd(init, q).board, n) ==>
                      |r.value.path| <= |q|)
    && (r.Some? ==> r.value.totalMoves == PassDescents(init, |r.value.path|, n))
    && (r.Some? ==> DlsRun(init, |r.value.path|, n).found == Some(Found(r.value.state, r.value.path)))
    && (r.Some? ==> forall d :: 0 <= d < |r.value.path| ==> DlsRun(init, d, n).found.None?)
    && (r.None? ==> NoGoalPathWithin(init, maxDepth, n))
  }

  lemma {:induction false} IddfsFromCorrect(init: State, depth: nat, maxDepth: nat, n: nat)
    requires depth <= maxDepth + 1
    requires depth > 0 ==> NoGoalPathWithin(init, depth - 1, n) && !IsFinalState(init.board, n)
    requires forall d :: 0 <= d < depth ==> DlsRun(init, d, n).found.None?
    ensures IddfsAnswer(init, IddfsFrom(init, depth, maxDepth, n), maxDepth, n)
    decreases maxDepth + 1 - depth
  {
    if depth <= maxDepth {
      DlsRunCorrect(init, depth, n);
      match DlsRun(init, depth, n).found
      case Some(f) =>
        FirstSuccess(init, depth, f, n);
      case None =>
        IddfsFromCorrect(init, depth + 1, maxDepth, n);
    }
  }

  /** What iddfs promises: a final start gives the empty path and count 0;
      otherwise its answer is the first successful pass's, a shortest goal
      path, and None rules out every goal within maxDepth moves. */
  lemma IddfsCorrect(init: State, maxDepth: nat, n: nat)
    ensures IsFinalState(init.board, n) ==> IddfsRun(init, maxDepth, n) == Some(Solution(init, [], 0))
    ensures IddfsAnswer(init, IddfsRun(init, maxDepth, n), maxDepth, n)
  {
    DlsRunCorrect(init, 0, n);
    IddfsFromCorrect(init, 0, maxDepth, n);
  }

  /** The visited set recursive_dls shares along one search, and the global
      iddfs_total_moves counter. */
  class DepthLimitedSearch {
    var visited: set<State>
    var totalMoves: nat

    constructor ()
      ensures visited == {} && totalMoves == 0
    {
      visited := {};
      totalMoves := 0;
    }

    /** recursive_dls. The source enters it only on states outside visited
        (dls starts from an empty set; the loop skips visited neighbours)
        and with limit >= 0. On failure the state is taken off the path
        again; on success the states of the found path, the last one
        excepted, stay in visited. */
    method RecursiveDls(next: Mover, s: State, limit: nat, n: nat) returns (r: Option<Found>)
      requires s !in visited
      modifies this
      ensures r == Explore(next, s, limit, old(visited), n).found
      ensures totalMoves == old(totalMoves) + Explore(next, s, limit, old(visited), n).descents
      ensures r.None? ==> visited == old(visited)
      ensures r.Some? ==> visited == old(visited) + Interior(s, r.value.path)
      decreases limit
    {
      if IsFinalState(s.board, n) {
        return Some(Found(s, []));
      }
      if limit <= 0 {
        return None;
      }
      ghost var V := visited;
      ghost var o := Explore(next, s, limit, V, n);
      assert o == ExploreFrom(next, s, limit, V, n, 0);
      visited := visited + {s};
      for k := 0 to |Directions|
        invariant visited == V + {s}
        invariant ExploreFrom(next, s, limit, V, n, k).found == o.found
        invariant totalMoves - old(totalMoves) + ExploreFrom(next, s, limit, V, n, k).descents == o.descents
      {
        var direction := Directions[k];
        var neighbor := next(s, direction);
        if neighbor.Some? && neighbor.value !in visited {
          totalMoves := totalMoves + 1;
          var result := RecursiveDls(next, neighbor.value, limit - 1, n);
          if result.Some? {
            InteriorCons(s, direction, neighbor.value, result.value.path);
            return Some(Found(result.value.state, [Step(direction, neighbor.value)] + result.value.path));
          }
        }
      }
      visited := visited - {s};
      return None;
    }

    /** dls: recursive_dls from s with a fresh, empty visited set. */
    method Dls(s: State, limit: nat, n: nat) returns (r: Option<Found>)
      requires ValidState(s, n)
      modifies this
      ensures r == DlsRun(s, limit, n).found
      ensures totalMoves == old(totalMoves) + DlsRun(s, limit, n).descents
      ensures IsFinalState(s.board, n) ==> r == Some(Found(s, [])) && totalMoves == old(totalMoves)
      ensures r.Some? ==>
                && IsPath(s, r.value.path, n) && |r.value.path| <= limit
                && PathEnd(s, r.value.path) == r.value.state && IsFinalState(r.value.state.board, n)
      ensures r.None? ==> NoGoalPathWithin(s, limit, n)
    {
      visited := {};
      r := RecursiveDls(Successor(n), s, limit, n);
      DlsRunCorrect(s, limit, n);
    }

    /** iddfs, with the unbounded `while True` cut off after maxDepth: the
        counter is reset once, then dls runs with depth 0, 1, ..., and the
        first success is returned with the counter's value. */
    method Iddfs(init: State, n: nat, maxDepth: nat) returns (r: Option<Solution>)
      requires ValidState(init, n)
      modifies this
      ensures r == IddfsRun(init, maxDepth, n)
      ensures r.Some? ==> r.value.totalMoves == totalMoves
      ensures r.None? ==> totalMoves == PassDescents(init, maxDepth, n)
    {
      totalMoves := 0;
      var depth: nat := 0;
      while depth <= maxDepth
        invariant depth <= maxDepth + 1
        invariant IddfsFrom(init, depth, maxDepth, n) == IddfsRun(init, maxDepth, n)
        invariant totalMoves == if depth == 0 then 0 else PassDescents(init, depth - 1, n)
        decreases maxDepth + 1 - depth
      {
        var result := Dls(init, depth, n);
        IddfsFromStep(init, depth, maxDepth, n);
        if result.Some? {
          return Some(Solution(result.value.state, result.value.path, totalMoves));
        }
        depth := depth + 1;
      }
      return None;
    }
  }
}
