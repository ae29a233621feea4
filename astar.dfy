/** a_star: the frontier is a priority queue of (g + h, g, state, path)
    entries, popped least (f, g) first, with the same visited set and pop
    count as the two list searches. */
module AStar {
  import opened Common
  import opened Board
  import opened Moves
  import opened Heuristics
  import opened Search

  /** A queue entry: priority f = g + h, cost g, and the node. */
  datatype Entry = Entry(priority: int, cost: int, node: Node)

  /** a comes out of the heap before b: smaller f, or equal f and smaller g. */
  predicate Precedes(a: Entry, b: Entry) {
    a.priority < b.priority || (a.priority == b.priority && a.cost < b.cost)
  }

  /** heappop's choice: an entry no other entry precedes (the first such). */
  method MinIndex(pq: seq<Entry>) returns (idx: nat)
    requires pq != []
    ensures idx < |pq|
    ensures forall k :: 0 <= k < |pq| ==> !Precedes(pq[k], pq[idx])
    ensures forall k :: 0 <= k < idx ==> Precedes(pq[idx], pq[k])
  {
    idx := 0;
    for j := 1 to |pq|
      invariant idx < j
      invariant forall k :: 0 <= k < j ==> !Precedes(pq[k], pq[idx])
      invariant forall k :: 0 <= k < idx ==> Precedes(pq[idx], pq[k])
    {
      if Precedes(pq[j], pq[idx]) {
        idx := j;
      }
    }
  }

  /** The nodes of a queue, in queue order. */
  function Nodes(pq: seq<Entry>): (q: seq<Node>)
    ensures |q| == |pq| && forall k :: 0 <= k < |pq| ==> q[k] == pq[k].node
  {
    seq(|pq|, k requires 0 <= k < |pq| => pq[k].node)
  }

  lemma NodesRemove(pq: seq<Entry>, i: int)
    requires 0 <= i < |pq|
    ensures Nodes(Remove(pq, i)) == Remove(Nodes(pq), i)
  {
  }

  lemma NodesConcat(p: seq<Entry>, q: seq<Entry>)
    ensures Nodes(p + q) == Nodes(p) + Nodes(q)
  {
    var a, b := Nodes(p + q), Nodes(p) + Nodes(q);
    forall k | 0 <= k < |a| ensures a[k] == b[k] {
      if k < |p| {
        assert (p + q)[k] == p[k];
      } else {
        assert (p + q)[k] == q[k - |p|];
      }
    }
  }

  /** An entry as a_star builds it: a valid state, g the length of the path,
      and f = g + heuristic(state). */
  ghost predicate Scored(e: Entry, h: Heuristic, n: nat) {
    && ValidState(e.node.state, n)
    && TilesHaveGoals(Flatten(e.node.state.board), GoalPositions(n))
    && e.cost == |e.node.path|
    && e.priority == e.cost + HeuristicValue(h, e.node.state, GoalPositions(n), n)
  }

  ghost predicate AllScored(pq: seq<Entry>, h: Heuristic, n: nat) {
    forall k :: 0 <= k < |pq| ==> Scored(pq[k], h, n)
  }

  lemma RemoveScored(pq: seq<Entry>, i: int, h: Heuristic, n: nat)
    requires AllScored(pq, h, n) && 0 <= i < |pq|
    ensures AllScored(Remove(pq, i), h, n)
  {
    var r := Remove(pq, i);
    forall k | 0 <= k < |r| ensures Scored(r[k], h, n) {
      assert r[k] == pq[if k < i then k else k + 1];
    }
  }

  lemma ConcatScored(p: seq<Entry>, q: seq<Entry>, h: Heuristic, n: nat)
    requires AllScored(p, h, n) && AllScored(q, h, n)
    ensures AllScored(p + q, h, n)
  {
    forall k | 0 <= k < |p + q| ensures Scored((p + q)[k], h, n) {
      if k < |p| {
        assert (p + q)[k] == p[k];
      } else {
        assert (p + q)[k] == q[k - |p|];
      }
    }
  }

  /** The entry pushed for a neighbour of e's state: cost g + 1, priority
      g + 1 + h(neighbour), and e's path extended by the move. */
  method NeighborEntry(e: Entry, direction: Direction, next: State, h: Heuristic, n: nat) returns (entry: Entry)
    requires Scored(e, h, n) && NextState(e.node.state, direction, n) == Some(next)
    ensures entry.node == Node(next, e.node.path + [Step(direction, next)])
    ensures Scored(entry, h, n)
  {
    NextValid(e.node.state, direction, n);
    ValidHasGoals(next, n);
    FlattenLength(next.board, n);
    var newCost := e.cost + 1;
    var estimate := Estimate(h, next, GoalPositions(n), n);
    entry := Entry(newCost + estimate, newCost, Node(next, e.node.path + [Step(direction, next)]));
  }

  /** The push loop of a_star: for each direction whose move succeeds onto
      an unvisited state, an entry with g + 1 and f = g + 1 + h. */
  method PushNeighbors(e: Entry, visited: set<State>, h: Heuristic, n: nat) returns (pushed: seq<Entry>)
    requires Scored(e, h, n)
    ensures Nodes(pushed) == Children(e.node.state, e.node.path, visited, n, |Directions|)
    ensures AllScored(pushed, h, n)
  {
    var s, path := e.node.state, e.node.path;
    pushed := [];
    for k := 0 to |Directions|
      invariant Nodes(pushed) == Children(s, path, visited, n, k)
      invariant AllScored(pushed, h, n)
    {
      var direction := Directions[k];
      var neighbor := NextState(s, direction, n);
      ChildrenStep(s, path, visited, n, k);
      if neighbor.Some? && neighbor.value !in visited {
        var entry := NeighborEntry(e, direction, neighbor.value, h, n);
        NodesConcat(pushed, [entry]);
        assert Nodes([entry]) == [entry.node];
        ConcatScored(pushed, [entry], h, n);
        pushed := pushed + [entry];
      }
    }
  }

  /** a_star with heuristic h. */
  method AStarSearch(init: State, h: Heuristic, n: nat) returns (r: Option<Solution>, ghost expanded: seq<State>)
    requires ValidState(init, n)
    ensures r.Some? ==> Solved(init, r.value, n)
    ensures IsFinalState(init.board, n) ==> r == Some(Solution(init, [], 1))
    ensures r.None? ==> NoGoalReachable(init, n)
    ensures Expansions(init, expanded, n)
    ensures r.Some? ==> |expanded| < r.value.totalMoves
    ensures r.None? ==> forall path :: IsPath(init, path, n) ==> PathEnd(init, path) in expanded
  {
    var goal := GoalPositions(n);
    ValidHasGoals(init, n);
    var h0 := Estimate(h, init, goal, n);
    var pq := [Entry(h0, 0, Node(init, []))];
    var visited: set<State> := {};
    var totalMoves: nat := 0;
    expanded := [];
    FrontierStart(init, n);
    assert Nodes(pq) == [Node(init, [])];
    assert Scored(pq[0], h, n);
    while pq != []
      invariant Frontier(init, visited, Nodes(pq), n) && AllScored(pq, h, n)
      invariant totalMoves == 0 ==> Nodes(pq) == [Node(init, [])] && visited == {}
      invariant totalMoves == 0 || !IsFinalState(init.board, n)
      invariant ExpandedOnce(init, expanded, visited, n) && |expanded| <= totalMoves
      invariant WithinUniverse(visited, n) && |visited| <= |Universe(n)|
      decreases |Universe(n)| - |visited|, |pq|
    {
      var idx := MinIndex(pq);
      var e := pq[idx];
      var node := e.node;
      assert Nodes(pq)[idx] == node;
      assert totalMoves == 0 ==> node == Node(init, []);
      assert Reached(init, node, n) && Scored(e, h, n);
      NodesRemove(pq, idx);
      RemoveScored(pq, idx, h, n);
      if node.state in visited {
        PopVisited(init, visited, Nodes(pq), idx, n);
      } else if !IsFinalState(node.state.board, n) {
        PopExpand(init, visited, Nodes(pq), idx, n);
        ExpandOnce(init, expanded, visited, node, n);
        VisitProgress(visited, node.state, n);
      }
      pq := Remove(pq, idx);
      totalMoves := totalMoves + 1;
      if IsFinalState(node.state.board, n) {
        return Some(Solution(node.state, node.path, totalMoves)), expanded;
      }
      if node.state in visited {
        continue;
      }
      visited := visited + {node.state};
      expanded := expanded + [node.state];
      var pushed := PushNeighbors(e, visited, h, n);
      NodesConcat(pq, pushed);
      ConcatScored(pq, pushed, h, n);
      pq := pq + pushed;
    }
    assert StatesOf([]) == {};
    ClosedNoGoal(init, visited, n);
    ExpandedAll(init, expanded, visited, n);
    r := None;
  }
}
