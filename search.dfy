/** The three frontier searches: breadth-first (a FIFO list), depth-first
    (a LIFO list) and A* (a priority queue ordered by (g + h, g)), each with
    a visited set of whole states and a count of popped nodes. */
module Search {
  import opened Common
  import opened Board
  import opened Moves
  import opened Heuristics

  /** One entry of a returned path: the direction taken and the state it led to. */
  datatype Step = Step(direction: Direction, state: State)

  /** A frontier element: a state and the path that reached it. */
  datatype Node = Node(state: State, path: seq<Step>)

  /** What a successful search returns: the final state, its path and the
      number of nodes popped. */
  datatype Solution = Solution(state: State, path: seq<Step>, totalMoves: nat)

  /** The state a path ends in (the start state for the empty path). */
  function PathEnd(s0: State, path: seq<Step>): State {
    if path == [] then s0 else path[|path| - 1].state
  }

  /** What move(s, dir, n) yields, None also where move would raise. */
  function NextState(s: State, dir: Direction, n: nat): Option<State> {
    if Move(s, dir, n).Ok? then Move(s, dir, n).value else None
  }

  /** A move out of a valid state leads to a valid state, in one of the
      four search directions. */
  lemma NextValid(s: State, dir: Direction, n: nat)
    requires ValidState(s, n) && NextState(s, dir, n).Some?
    ensures ValidState(NextState(s, dir, n).value, n) && dir in Directions
  {
    MoveKeepsValid(s, dir, n);
  }

  /** path is a chain of moves from s0: each step's state is
      move(previous state, step's direction). */
  predicate IsPath(s0: State, path: seq<Step>, n: nat)
    decreases |path|
  {
    path == [] ||
    (NextState(s0, path[0].direction, n) == Some(path[0].state) && IsPath(path[0].state, path[1..], n))
  }

  /** node is a valid state reached from s0 along its own path. */
  predicate Reached(s0: State, node: Node, n: nat) {
    ValidState(node.state, n) && IsPath(s0, node.path, n) && PathEnd(s0, node.path) == node.state
  }

  /** A returned solution: a final state at the end of a move path from s0,
      after at least one pop. */
  predicate Solved(s0: State, sol: Solution, n: nat) {
    && IsFinalState(sol.state.board, n)
    && IsPath(s0, sol.path, n)
    && PathEnd(s0, sol.path) == sol.state
    && sol.totalMoves >= 1
  }

  /** A non-empty path ends where its tail, taken from its first state, ends. */
  lemma PathEndTail(s0: State, path: seq<Step>)
    requires path != []
    ensures PathEnd(path[0].state, path[1..]) == PathEnd(s0, path)
  {
  }

  /** Extending a path by one move. */
  lemma {:induction false} PathSnoc(s0: State, path: seq<Step>, dir: Direction, next: State, n: nat)
    requires IsPath(s0, path, n) && NextState(PathEnd(s0, path), dir, n) == Some(next)
    ensures IsPath(s0, path + [Step(dir, next)], n)
    ensures PathEnd(s0, path + [Step(dir, next)]) == next
    decreases |path|
  {
    var path' := path + [Step(dir, next)];
    if path == [] {
      assert path'[1..] == [];
    } else {
      SnocTail(path, Step(dir, next));
      PathEndTail(s0, path);
      PathSnoc(path[0].state, path[1..], dir, next, n);
    }
  }

  /** The states one move away from s (unknown directions never move). */
  function Successors(s: State, n: nat): (r: set<State>)
    ensures forall dir, next :: NextState(s, dir, n) == Some(next) ==> next in r
  {
    set d | d in Directions && NextState(s, d, n).Some? :: NextState(s, d, n).value
  }

  /** node is one move beyond (s, path) and not yet visited. */
  predicate IsChild(s: State, path: seq<Step>, visited: set<State>, n: nat, node: Node) {
    && node.state !in visited
    && |node.path| == |path| + 1
    && node.path == path + [Step(node.path[|path|].direction, node.state)]
    && NextState(s, node.path[|path|].direction, n) == Some(node.state)
  }

  /** The nodes the expansion loop pushes, directions 0 .. k-1 in order:
      every successor that is not yet visited. */
  function Children(s: State, path: seq<Step>, visited: set<State>, n: nat, k: nat): (c: seq<Node>)
    requires k <= |Directions|
    ensures |c| <= k
    ensures forall m :: 0 <= m < |c| ==> IsChild(s, path, visited, n, c[m])
    ensures forall d :: 0 <= d < k && NextState(s, Directions[d], n).Some? ==>
              NextState(s, Directions[d], n).value in visited + StatesOf(c)
  {
    if k == 0 then []
    else
      var rest := Children(s, path, visited, n, k - 1);
      var dir := Directions[k - 1];
      match NextState(s, dir, n)
      case Some(next) =>
        if next !in visited then
          var node := Node(next, path + [Step(dir, next)]);
          assert (path + [Step(dir, next)])[|path|] == Step(dir, next);
          StatesOfConcat(rest, [node]);
          assert [node][0].state == next;
          rest + [node]
        else rest
      case None => rest
  }

  /** One more direction of the expansion loop: the child it adds, if any. */
  lemma ChildrenStep(s: State, path: seq<Step>, visited: set<State>, n: nat, k: nat)
    requires k < |Directions|
    ensures var nb := NextState(s, Directions[k], n);
            Children(s, path, visited, n, k + 1) ==
              if nb.Some? && nb.value !in visited
              then Children(s, path, visited, n, k) + [Node(nb.value, path + [Step(Directions[k], nb.value)])]
              else Children(s, path, visited, n, k)
  {
  }

  /** The expansion loop over the four directions. */
  method Expand(s: State, path: seq<Step>, visited: set<State>, n: nat) returns (children: seq<Node>)
    ensures children == Children(s, path, visited, n, |Directions|)
  {
    children := [];
    for k := 0 to |Directions|
      invariant children == Children(s, path, visited, n, k)
    {
      var direction := Directions[k];
      var neighbor := NextState(s, direction, n);
      ChildrenStep(s, path, visited, n, k);
      if neighbor.Some? && neighbor.value !in visited {
        children := children + [Node(neighbor.value, path + [Step(direction, neighbor.value)])];
      }
    }
  }

  /** The states held by a frontier. */
  ghost function StatesOf(q: seq<Node>): set<State> {
    set k | 0 <= k < |q| :: q[k].state
  }

  lemma StatesOfRemove(q: seq<Node>, i: int)
    requires 0 <= i < |q|
    ensures StatesOf(q) == StatesOf(q[..i] + q[i + 1..]) + {q[i].state}
  {
    var r := q[..i] + q[i + 1..];
    forall x | x in StatesOf(q) ensures x in StatesOf(r) + {q[i].state} {
      var k :| 0 <= k < |q| && q[k].state == x;
      if k < i {
        assert r[k] == q[k];
      } else if k > i {
        assert r[k - 1] == q[k];
      }
    }
    forall x | x in StatesOf(r) ensures x in StatesOf(q) {
      var k :| 0 <= k < |r| && r[k].state == x;
      if k < i {
        assert r[k] == q[k];
      } else {
        assert r[k] == q[k + 1];
      }
    }
  }

  lemma StatesOfConcat(p: seq<Node>, q: seq<Node>)
    ensures StatesOf(p + q) == StatesOf(p) + StatesOf(q)
  {
    forall x | x in StatesOf(p + q) ensures x in StatesOf(p) + StatesOf(q) {
      var k :| 0 <= k < |p + q| && (p + q)[k].state == x;
      if k >= |p| {
        assert q[k - |p|].state == x;
      }
    }
    forall x | x in StatesOf(q) ensures x in StatesOf(p + q) {
      var k :| 0 <= k < |q| && q[k].state == x;
      assert (p + q)[|p| + k].state == x;
    }
    forall x | x in StatesOf(p) ensures x in StatesOf(p + q) {
      var k :| 0 <= k < |p| && p[k].state == x;
      assert (p + q)[k].state == x;
    }
  }

  /** A child of a reached node is reached. */
  lemma ChildReached(s0: State, node: Node, visited: set<State>, n: nat, child: Node)
    requires Reached(s0, node, n) && IsChild(node.state, node.path, visited, n, child)
    ensures Reached(s0, child, n)
  {
    var dir := child.path[|node.path|].direction;
    PathSnoc(s0, node.path, dir, child.state, n);
    NextValid(node.state, dir, n);
  }

  /** Every successor is visited or among the children. */
  lemma ChildrenCover(s: State, path: seq<Step>, visited: set<State>, n: nat)
    ensures Successors(s, n) <= visited + StatesOf(Children(s, path, visited, n, |Directions|))
  {
    var c := Children(s, path, visited, n, |Directions|);
    forall x | x in Successors(s, n) ensures x in visited + StatesOf(c) {
      var dir :| dir in Directions && NextState(s, dir, n) == Some(x);
      var d :| 0 <= d < 4 && Directions[d] == dir;
    }
  }

  /** A visited state v is valid, not final, and each of its successors is
      visited or on the frontier. */
  ghost predicate Covered(v: State, visited: set<State>, frontier: set<State>, n: nat) {
    ValidState(v, n) && !IsFinalState(v.board, n) && Successors(v, n) <= visited + frontier
  }

  /** The loop invariant shared by the searches: every visited state is
      covered. The trigger keeps the solver from chasing successors through
      the visited set on its own. */
  ghost predicate Closed(visited: set<State>, frontier: set<State>, n: nat) {
    forall v {:trigger Covered(v, visited, frontier, n)} :: v in visited ==> Covered(v, visited, frontier, n)
  }

  /** Expanding a popped, unvisited, non-final state x keeps the invariant. */
  lemma ExpandKeepsClosed(visited: set<State>, frontier: set<State>, x: State, path: seq<Step>, n: nat)
    requires Closed(visited, frontier + {x}, n)
    requires ValidState(x, n) && !IsFinalState(x.board, n)
    ensures Closed(visited + {x}, frontier + StatesOf(Children(x, path, visited + {x}, n, |Directions|)), n)
  {
    var c := Children(x, path, visited + {x}, n, |Directions|);
    forall v | v in visited + {x} ensures Covered(v, visited + {x}, frontier + StatesOf(c), n) {
      if v == x {
        ChildrenCover(x, path, visited + {x}, n);
      } else {
        assert Covered(v, visited, frontier + {x}, n);
      }
    }
  }

  /** q without its element at index i. */
  function Remove<T>(q: seq<T>, i: int): (r: seq<T>)
    requires 0 <= i < |q|
    ensures |r| == |q| - 1
    ensures forall k :: 0 <= k < |r| ==> r[k] == q[if k < i then k else k + 1]
  {
    q[..i] + q[i + 1..]
  }

  /** Every node of q is reached from s0. */
  ghost predicate AllReached(s0: State, q: seq<Node>, n: nat) {
    forall k :: 0 <= k < |q| ==> Reached(s0, q[k], n)
  }

  lemma RemoveReached(s0: State, q: seq<Node>, i: int, n: nat)
    requires AllReached(s0, q, n) && 0 <= i < |q|
    ensures AllReached(s0, Remove(q, i), n)
  {
    var r := Remove(q, i);
    forall k | 0 <= k < |r| ensures Reached(s0, r[k], n) {
      assert r[k] == q[if k < i then k else k + 1];
    }
  }

  lemma ConcatReached(s0: State, p: seq<Node>, q: seq<Node>, n: nat)
    requires AllReached(s0, p, n) && AllReached(s0, q, n)
    ensures AllReached(s0, p + q, n)
  {
    forall k | 0 <= k < |p + q| ensures Reached(s0, (p + q)[k], n) {
      if k < |p| {
        assert (p + q)[k] == p[k];
      } else {
        assert (p + q)[k] == q[k - |p|];
      }
    }
  }

  lemma ChildrenReached(s0: State, node: Node, visited: set<State>, n: nat)
    requires Reached(s0, node, n)
    ensures AllReached(s0, Children(node.state, node.path, visited, n, |Directions|), n)
  {
    var c := Children(node.state, node.path, visited, n, |Directions|);
    forall k | 0 <= k < |c| ensures Reached(s0, c[k], n) {
      ChildReached(s0, node, visited, n, c[k]);
    }
  }

  /** The invariant of a frontier search from s0: every frontier node is
      reached along its path, the visited set is closed up to the frontier,
      and s0 itself is visited or waiting. */
  ghost predicate Frontier(s0: State, visited: set<State>, q: seq<Node>, n: nat) {
    && AllReached(s0, q, n)
    && Closed(visited, StatesOf(q), n)
    && s0 in visited + StatesOf(q)
  }

  lemma FrontierStart(s0: State, n: nat)
    requires ValidState(s0, n)
    ensures Frontier(s0, {}, [Node(s0, [])], n)
  {
    assert [Node(s0, [])][0].state == s0;
  }

  /** Dropping a popped node whose state is already visited keeps the invariant. */
  lemma PopVisited(s0: State, visited: set<State>, q: seq<Node>, i: int, n: nat)
    requires Frontier(s0, visited, q, n) && 0 <= i < |q| && q[i].state in visited
    ensures Frontier(s0, visited, Remove(q, i), n)
  {
    StatesOfRemove(q, i);
    RemoveReached(s0, q, i, n);
    forall v | v in visited ensures Covered(v, visited, StatesOf(Remove(q, i)), n) {
      assert Covered(v, visited, StatesOf(q), n);
    }
  }

  /** Visiting a popped, non-final node and pushing its children keeps the
      invariant. */
  lemma PopExpand(s0: State, visited: set<State>, q: seq<Node>, i: int, n: nat)
    requires Frontier(s0, visited, q, n) && 0 <= i < |q|
    requires q[i].state !in visited && !IsFinalState(q[i].state.board, n)
    ensures Frontier(s0, visited + {q[i].state},
                     Remove(q, i) + Children(q[i].state, q[i].path, visited + {q[i].state}, n, |Directions|), n)
  {
    var node := q[i];
    var v := visited + {node.state};
    var rest := Remove(q, i);
    var c := Children(node.state, node.path, v, n, |Directions|);
    StatesOfRemove(q, i);
    StatesOfConcat(rest, c);
    assert Reached(s0, node, n);
    RemoveReached(s0, q, i, n);
    ChildrenReached(s0, node, v, n);
    ConcatReached(s0, rest, c, n);
    ExpandKeepsClosed(visited, StatesOf(rest), node.state, node.path, n);
  }

  /** No goal is reachable from s0 by any move path. */
  ghost predicate NoGoalReachable(s0: State, n: nat) {
    forall path :: IsPath(s0, path, n) ==> !IsFinalState(PathEnd(s0, path).board, n)
  }

  lemma {:induction false} PathStaysClosed(s0: State, visited: set<State>, path: seq<Step>, n: nat)
    requires Closed(visited, {}, n) && s0 in visited && IsPath(s0, path, n)
    ensures PathEnd(s0, path) in visited
    decreases |path|
  {
    if path != [] {
      assert Covered(s0, visited, {}, n);
      assert path[0].state in Successors(s0, n);
      PathStaysClosed(path[0].state, visited, path[1..], n);
      assert PathEnd(path[0].state, path[1..]) == PathEnd(s0, path);
    }
  }

  /** A closed visited set around s0 with no final state rules out every goal. */
  lemma ClosedNoGoal(s0: State, visited: set<State>, n: nat)
    requires Closed(visited, {}, n) && s0 in visited
    ensures NoGoalReachable(s0, n)
  {
    forall path | IsPath(s0, path, n) ensures !IsFinalState(PathEnd(s0, path).board, n) {
      PathStaysClosed(s0, visited, path, n);
      assert Covered(PathEnd(s0, path), visited, {}, n);
    }
  }

  /** The finite set of valid-looking states: every search's visited set
      lies inside it, which bounds the number of expansions. */
  ghost function SeqsOf<T>(len: nat, elems: set<T>): set<seq<T>> {
    if len == 0 then {[]}
    else set x, t | x in elems && t in SeqsOf(len - 1, elems) :: [x] + t
  }

  lemma {:induction false} SeqsOfComplete<T>(len: nat, elems: set<T>, t: seq<T>)
    requires |t| == len && forall k :: 0 <= k < |t| ==> t[k] in elems
    ensures t in SeqsOf(len, elems)
  {
    if len > 0 {
      SeqsOfComplete(len - 1, elems, t[1..]);
      assert t == [t[0]] + t[1..];
    }
  }

  ghost function Coords(n: nat): set<int> {
    {-1} + Range(n)
  }

  ghost function Universe(n: nat): set<State> {
    set b, r, c | b in SeqsOf(n, SeqsOf(n, Range(n * n))) && r in Coords(n) && c in Coords(n) :: State(b, r, c)
  }

  lemma ValidInUniverse(s: State, n: nat)
    requires ValidState(s, n)
    ensures s in Universe(n)
  {
    ValidTiles(s, n);
    forall i | 0 <= i < n ensures s.board[i] in SeqsOf(n, Range(n * n)) {
      SeqsOfComplete(n, Range(n * n), s.board[i]);
    }
    SeqsOfComplete(n, SeqsOf(n, Range(n * n)), s.board);
  }

  /** Some move path from s0 ends at t. */
  ghost predicate ReachableFrom(s0: State, t: State, n: nat) {
    exists path :: IsPath(s0, path, n) && PathEnd(s0, path) == t
  }

  /** A log of expanded states: none twice, each reachable from s0 and not final. */
  ghost predicate Expansions(s0: State, expanded: seq<State>, n: nat) {
    && Distinct(expanded)
    && forall k :: 0 <= k < |expanded| ==> ReachableFrom(s0, expanded[k], n) && !IsFinalState(expanded[k].board, n)
  }

  /** expanded lists the visited states, in the order they were visited. */
  ghost predicate ExpandedOnce(s0: State, expanded: seq<State>, visited: set<State>, n: nat) {
    Expansions(s0, expanded, n) && visited == Elements(expanded)
  }

  /** Visiting the popped node's state, which is new and not final, extends the log. */
  lemma ExpandOnce(s0: State, expanded: seq<State>, visited: set<State>, node: Node, n: nat)
    requires ExpandedOnce(s0, expanded, visited, n) && node.state !in visited
    requires Reached(s0, node, n) && !IsFinalState(node.state.board, n)
    ensures ExpandedOnce(s0, expanded + [node.state], visited + {node.state}, n)
  {
    var x := node.state;
    var e := expanded + [x];
    assert ReachableFrom(s0, x, n) by {
      assert IsPath(s0, node.path, n) && PathEnd(s0, node.path) == x;
    }
    forall i, j | 0 <= i < j < |e| ensures e[i] != e[j] {
      assert e[i] == expanded[i];
      if j < |expanded| {
        assert e[j] == expanded[j];
      } else {
        assert e[i] in Elements(expanded);
      }
    }
    forall k | 0 <= k < |e| ensures ReachableFrom(s0, e[k], n) && !IsFinalState(e[k].board, n) {
      if k < |expanded| {
        assert e[k] == expanded[k];
      }
    }
    assert Elements(e) == Elements(expanded) + {x};
  }

  /** Once the visited set is closed with nothing left on the frontier,
      the log holds every state reachable from s0. */
  lemma ExpandedAll(s0: State, expanded: seq<State>, visited: set<State>, n: nat)
    requires ExpandedOnce(s0, expanded, visited, n) && Closed(visited, {}, n) && s0 in visited
    ensures forall path :: IsPath(s0, path, n) ==> PathEnd(s0, path) in expanded
  {
    forall path | IsPath(s0, path, n) ensures PathEnd(s0, path) in expanded {
      PathStaysClosed(s0, visited, path, n);
    }
  }

  ghost predicate InUniverse(v: State, n: nat) {
    v in Universe(n)
  }

  /** The visited set lies inside the universe (with a trigger that keeps
      the solver from unfolding the universe for every visited state). */
  ghost predicate WithinUniverse(visited: set<State>, n: nat) {
    forall v {:trigger InUniverse(v, n)} :: v in visited ==> InUniverse(v, n)
  }

  /** Visiting a new valid state keeps the visited set inside the universe,
      so the number of visits is bounded by the universe's size. */
  lemma VisitProgress(visited: set<State>, x: State, n: nat)
    requires WithinUniverse(visited, n) && ValidState(x, n)
    ensures WithinUniverse(visited + {x}, n) && |visited + {x}| <= |Universe(n)|
  {
    ValidInUniverse(x, n);
    forall v | v in visited + {x} ensures InUniverse(v, n) {
      if v != x {
        assert InUniverse(v, n);
      }
    }
    assert visited + {x} <= Universe(n) by {
      forall v | v in visited + {x} ensures v in Universe(n) {
        assert InUniverse(v, n);
      }
    }
    SubsetSize(visited + {x}, Universe(n));
  }

  /** bfs: pop the oldest node, stop at a final state, skip visited ones,
      push the unvisited successors at the back. */
  method Bfs(init: State, n: nat) returns (r: Option<Solution>, ghost expanded: seq<State>)
    requires ValidState(init, n)
    ensures r.Some? ==> Solved(init, r.value, n)
    ensures IsFinalState(init.board, n) ==> r == Some(Solution(init, [], 1))
    ensures r.None? ==> NoGoalReachable(init, n)
    ensures Expansions(init, expanded, n)
    ensures r.Some? ==> |expanded| < r.value.totalMoves
    ensures r.None? ==> forall path :: IsPath(init, path, n) ==> PathEnd(init, path) in expanded
  {
    var queue := [Node(init, [])];
    var visited: set<State> := {};
    var totalMoves: nat := 0;
    expanded := [];
    FrontierStart(init, n);
    while queue != []
      invariant Frontier(init, visited, queue, n)
      invariant totalMoves == 0 ==> queue == [Node(init, [])] && visited == {}
      invariant totalMoves == 0 || !IsFinalState(init.board, n)
      invariant ExpandedOnce(init, expanded, visited, n) && |expanded| <= totalMoves
      invariant WithinUniverse(visited, n) && |visited| <= |Universe(n)|
      decreases |Universe(n)| - |visited|, |queue|
    {
      var node := queue[0];
      assert Reached(init, node, n);
      if node.state in visited {
        PopVisited(init, visited, queue, 0, n);
      } else if !IsFinalState(node.state.board, n) {
        PopExpand(init, visited, queue, 0, n);
        ExpandOnce(init, expanded, visited, node, n);
        VisitProgress(visited, node.state, n);
      }
      assert queue[1..] == Remove(queue, 0);
      queue := queue[1..];
      totalMoves := totalMoves + 1;
      if IsFinalState(node.state.board, n) {
        return Some(Solution(node.state, node.path, totalMoves)), expanded;
      }
      if node.state in visited {
        continue;
      }
      visited := visited + {node.state};
      expanded := expanded + [node.state];
      var children := Expand(node.state, node.path, visited, n);
      queue := queue + children;
    }
    assert StatesOf([]) == {};
    ClosedNoGoal(init, visited, n);
    ExpandedAll(init, expanded, visited, n);
    r := None;
  }

  /** dfs: as bfs, but pop the newest node. */
  method Dfs(init: State, n: nat) returns (r: Option<Solution>, ghost expanded: seq<State>)
    requires ValidState(init, n)
    ensures r.Some? ==> Solved(init, r.value, n)
    ensures IsFinalState(init.board, n) ==> r == Some(Solution(init, [], 1))
    ensures r.None? ==> NoGoalReachable(init, n)
    ensures Expansions(init, expanded, n)
    ensures r.Some? ==> |expanded| < r.value.totalMoves
    ensures r.None? ==> forall path :: IsPath(init, path, n) ==> PathEnd(init, path) in expanded
  {
    var stack := [Node(init, [])];
    var visited: set<State> := {};
    var totalMoves: nat := 0;
    expanded := [];
    FrontierStart(init, n);
    while stack != []
      invariant Frontier(init, visited, stack, n)
      invariant totalMoves == 0 ==> stack == [Node(init, [])] && visited == {}
      invariant totalMoves == 0 || !IsFinalState(init.board, n)
      invariant ExpandedOnce(init, expanded, visited, n) && |expanded| <= totalMoves
      invariant WithinUniverse(visited, n) && |visited| <= |Universe(n)|
      decreases |Universe(n)| - |visited|, |stack|
    {
      var top := |stack| - 1;
      var node := stack[top];
      assert Reached(init, node, n);
      if node.state in visited {
        PopVisited(init, visited, stack, top, n);
      } else if !IsFinalState(node.state.board, n) {
        PopExpand(init, visited, stack, top, n);
        ExpandOnce(init, expanded, visited, node, n);
        VisitProgress(visited, node.state, n);
      }
      assert stack[..top] == Remove(stack, top);
      stack := stack[..top];
      totalMoves := totalMoves + 1;
      if IsFinalState(node.state.board, n) {
        return Some(Solution(node.state, node.path, totalMoves)), expanded;
      }
      if node.state in visited {
        continue;
      }
      visited := visited + {node.state};
      expanded := expanded + [node.state];
      var children := Expand(node.state, node.path, visited, n);
      stack := stack + children;
    }
    assert StatesOf([]) == {};
    ClosedNoGoal(init, visited, n);
    ExpandedAll(init, expanded, visited, n);
    r := None;
  }
}
