/** The A* search loop. The frontier and explored lists belong to one search
    session and are reset at the start of every search. */
module AStar {
  import opened Board
  import opened Heuristic
  import opened Nodes
  import opened Frontier

  /** The search either returns the node holding the goal state or reports that the
      frontier ran out. */
  datatype Outcome = Solved(node: Node) | NoSolution

  /** Both lists hold only nodes the search can build from root towards goal, and no
      state twice. */
  ghost predicate Inv(open: seq<Node>, closed: seq<Node>, root: State, goal: State) {
    && ValidState(root) && ValidState(goal)
    && (forall n :: n in open ==> WellFormed(n, root, goal))
    && (forall n :: n in closed ==> WellFormed(n, root, goal))
    && Registry(open, closed)
  }

  /** Every move out of an explored state leads to a state that one of the two lists
      holds: nothing reachable from an explored state has been overlooked. */
  ghost predicate Closure(open: seq<Node>, closed: seq<Node>) {
    forall c, a :: c in closed && ValidState(c.state) && Move(c.state, a).Some? ==>
      Move(c.state, a).value in StateSet(open) + StateSet(closed)
  }

  /** The successors of p by the first k actions are all held by one of the lists. */
  ghost predicate Covers(p: Node, open: seq<Node>, closed: seq<Node>, k: nat)
    requires ValidState(p.state) && k <= |Actions|
  {
    forall j :: 0 <= j < k && Move(p.state, Actions[j]).Some? ==>
      Move(p.state, Actions[j]).value in StateSet(open) + StateSet(closed)
  }

  /** The frontier after trying action a on p: the child is appended only when its
      state is in neither list, with no comparison of costs. */
  ghost function TryMove(p: Node, a: Action, goal: State, open: seq<Node>, closed: seq<Node>): seq<Node>
    requires ValidState(p.state) && |goal| >= Tiles
  {
    match Move(p.state, a)
    case None => open
    case Some(s) =>
      if s in StateSet(open) || s in StateSet(closed) then open
      else open + [ChildNode(p, a, s, goal)]
  }

  /** The frontier after trying the first k actions on p, in the order U, D, L, R. */
  ghost function Expansion(p: Node, goal: State, open: seq<Node>, closed: seq<Node>, k: nat): seq<Node>
    requires ValidState(p.state) && |goal| >= Tiles && k <= |Actions|
  {
    if k == 0 then open
    else TryMove(p, Actions[k - 1], goal, Expansion(p, goal, open, closed, k - 1), closed)
  }

  /** The child of p by a, computed as the solver does: the blank exchanges places
      with the tile found in the target cell. */
  lemma TryMoveAppends(p: Node, a: Action, goal: State, open: seq<Node>, closed: seq<Node>)
    requires ValidState(p.state) && |goal| >= Tiles && InGrid(Target(p.state[0], a))
    ensures Holds(p.state, Target(p.state[0], a))
    ensures
      var k := IndexOf(p.state, Target(p.state[0], a));
      var child := p.state[k := p.state[0]][0 := p.state[k]];
      && Move(p.state, a) == Some(child)
      && ((forall n :: n in open ==> n.state != child) && (forall n :: n in closed ==> n.state != child) ==>
            TryMove(p, a, goal, open, closed) == open + [ChildNode(p, a, child, goal)])
  {
    assert Holds(p.state, Target(p.state[0], a));
    var k := IndexOf(p.state, Target(p.state[0], a));
    var child := p.state[k := p.state[0]][0 := p.state[k]];
    NotInStateSet(child, open);
    NotInStateSet(child, closed);
  }

  /** The frontier is unchanged when the blank cannot move, or the child's state is
      already held by one of the lists. */
  lemma TryMoveSkips(p: Node, a: Action, goal: State, open: seq<Node>, closed: seq<Node>)
    requires ValidState(p.state) && |goal| >= Tiles
    ensures !InGrid(Target(p.state[0], a)) ==> TryMove(p, a, goal, open, closed) == open
    ensures InGrid(Target(p.state[0], a)) ==>
      Holds(p.state, Target(p.state[0], a)) &&
      var k := IndexOf(p.state, Target(p.state[0], a));
      var child := p.state[k := p.state[0]][0 := p.state[k]];
      !((forall n :: n in open ==> n.state != child) && (forall n :: n in closed ==> n.state != child)) ==>
        TryMove(p, a, goal, open, closed) == open
  {
    if InGrid(Target(p.state[0], a)) {
      assert Holds(p.state, Target(p.state[0], a));
      var k := IndexOf(p.state, Target(p.state[0], a));
      var child := p.state[k := p.state[0]][0 := p.state[k]];
      NotInStateSet(child, open);
      NotInStateSet(child, closed);
    }
  }

  /** Appending a well-formed node whose state neither list holds keeps the
      invariant. */
  lemma InvAppend(open: seq<Node>, closed: seq<Node>, root: State, goal: State, n: Node)
    requires Inv(open, closed, root, goal) && WellFormed(n, root, goal)
    requires n.state !in StateSet(open) && n.state !in StateSet(closed)
    ensures Inv(open + [n], closed, root, goal)
    ensures StateSet(open + [n]) == StateSet(open) + {n.state}
  {
    AppendFresh(open, n);
    forall m | m in open + [n] ensures WellFormed(m, root, goal) {
      if m != n {
        assert m in open;
      }
    }
  }

  /** Trying one action keeps the invariant, keeps p's own state out of the frontier,
      only adds to the frontier, and leaves that action's successor in one of the
      lists. */
  lemma TryMoveStep(p: Node, a: Action, root: State, goal: State, open: seq<Node>, closed: seq<Node>)
    requires WellFormed(p, root, goal) && Inv(open, closed, root, goal)
    requires p.state !in StateSet(open) && p.state !in StateSet(closed)
    ensures Inv(TryMove(p, a, goal, open, closed), closed, root, goal)
    ensures p.state !in StateSet(TryMove(p, a, goal, open, closed))
    ensures StateSet(open) <= StateSet(TryMove(p, a, goal, open, closed))
    ensures Move(p.state, a).Some? ==>
      Move(p.state, a).value in StateSet(TryMove(p, a, goal, open, closed)) + StateSet(closed)
  {
    var m := Move(p.state, a);
    var next := TryMove(p, a, goal, open, closed);
    if m.None? || m.value in StateSet(open) || m.value in StateSet(closed) {
      assert next == open;
    } else {
      var child := ChildNode(p, a, m.value, goal);
      assert next == open + [child];
      ChildIsWellFormed(p, a, root, goal);
      assert m.value[0] != p.state[0];
      InvAppend(open, closed, root, goal, child);
    }
  }

  lemma CoversStep(p: Node, open: seq<Node>, next: seq<Node>, closed: seq<Node>, k: nat)
    requires ValidState(p.state) && k < |Actions|
    requires Covers(p, open, closed, k) && StateSet(open) <= StateSet(next)
    requires Move(p.state, Actions[k]).Some? ==>
      Move(p.state, Actions[k]).value in StateSet(next) + StateSet(closed)
    ensures Covers(p, next, closed, k + 1)
  {
  }

  /** Covering the four actions in order covers every action. */
  lemma CoversAll(p: Node, open: seq<Node>, closed: seq<Node>)
    requires ValidState(p.state) && Covers(p, open, closed, |Actions|)
    ensures forall a :: Move(p.state, a).Some? ==> Move(p.state, a).value in StateSet(open) + StateSet(closed)
  {
    forall a | Move(p.state, a).Some?
      ensures Move(p.state, a).value in StateSet(open) + StateSet(closed)
    {
      assert a == Actions[match a case U => 0 case D => 1 case L => 2 case R => 3];
    }
  }

  /** Taking the entry at k out of the frontier keeps the invariant; the node taken
      is well-formed and its state is then in neither list. */
  lemma PopKeepsInv(open: seq<Node>, closed: seq<Node>, k: nat, root: State, goal: State)
    requires k < |open| && Inv(open, closed, root, goal)
    ensures Inv(RemoveAt(open, k), closed, root, goal)
    ensures WellFormed(open[k], root, goal)
    ensures open[k].state !in StateSet(RemoveAt(open, k)) && open[k].state !in StateSet(closed)
  {
    RemoveKeepsRegistry(open, closed, k);
    assert open[k] in open;
  }

  /** Moving the expanded node to the explored list restores the loop invariant and
      adds a state the explored list did not hold. */
  lemma RetireStep(before: seq<Node>, k: nat, open: seq<Node>, closed: seq<Node>, root: State, goal: State)
    requires k < |before| && Inv(before, closed, root, goal) && Closure(before, closed)
    requires root in StateSet(before) + StateSet(closed) && goal !in StateSet(closed)
    requires before[k].state != goal
    requires Inv(open, closed, root, goal)
    requires before[k].state !in StateSet(open)
    requires StateSet(RemoveAt(before, k)) <= StateSet(open)
    requires WellFormed(before[k], root, goal)
    requires forall a :: Move(before[k].state, a).Some? ==>
      Move(before[k].state, a).value in StateSet(open) + StateSet(closed)
    ensures Inv(open, closed + [before[k]], root, goal)
    ensures Closure(open, closed + [before[k]])
    ensures root in StateSet(open) + StateSet(closed + [before[k]])
    ensures goal !in StateSet(closed + [before[k]])
    ensures Boards(Tiles) - StateSet(closed + [before[k]]) < Boards(Tiles) - StateSet(closed)
  {
    var current := before[k];
    RemoveKeepsRegistry(before, closed, k);
    AppendFresh(closed, current);
    var explored := closed + [current];
    assert current in before;
    ValidStateIsBoard(current.state);
    assert StateSet(before) <= StateSet(open) + StateSet(explored);
    forall c, a | c in explored && ValidState(c.state) && Move(c.state, a).Some?
      ensures Move(c.state, a).value in StateSet(open) + StateSet(explored)
    {
      if c != current {
        assert c in closed;
      }
    }
    assert current.state in Boards(Tiles) - StateSet(closed);
  }

  /** One round of the expansion loop: when the blank can move in direction a, the
      child state is a copy of current's with the blank and the tile in the target
      cell exchanged, and it is appended to the frontier when neither list holds it. */
  method TryAction(current: Node, a: Action, goal: State, frontier: seq<Node>, closed: seq<Node>)
    returns (next: seq<Node>)
    requires ValidState(current.state) && ValidState(goal)
    ensures next == TryMove(current, a, goal, frontier, closed)
  {
    var zero := current.state[0];
    var target := Target(zero, a);
    if !InGrid(target) {
      TryMoveSkips(current, a, goal, frontier, closed);
      return frontier;
    }
    assert Holds(current.state, target);
    var k := IndexOf(current.state, target);
    var child := current.state[k := current.state[0]][0 := current.state[k]];
    var unique := CheckUnique(child, frontier, closed);
    if unique {
      var h := ManhattanDistance(child, goal);
      TryMoveAppends(current, a, goal, frontier, closed);
      next := frontier + [Node(child, Some(current), current.g + [a], h, h + |current.g| + 1)];
    } else {
      TryMoveSkips(current, a, goal, frontier, closed);
      next := frontier;
    }
  }

  /** Expansion of current: try the four moves of the blank in order, appending to
      the frontier each child whose state neither list holds yet. */
  method ExpandNode(current: Node, goal: State, open: seq<Node>, closed: seq<Node>)
    returns (frontier: seq<Node>)
    requires ValidState(current.state) && ValidState(goal)
    ensures frontier == Expansion(current, goal, open, closed, |Actions|)
  {
    frontier := open;
    for i := 0 to |Actions|
      invariant frontier == Expansion(current, goal, open, closed, i)
    {
      frontier := TryAction(current, Actions[i], goal, frontier, closed);
    }
  }

  /** Expanding a node the lists do not hold keeps the invariant, keeps that node's
      state out of the frontier, only adds to the frontier, and leaves every
      successor of the node in one of the lists. */
  lemma {:induction false} ExpansionKeepsInv(p: Node, root: State, goal: State, open: seq<Node>, closed: seq<Node>, k: nat)
    requires k <= |Actions| && WellFormed(p, root, goal) && Inv(open, closed, root, goal)
    requires p.state !in StateSet(open) && p.state !in StateSet(closed)
    ensures Inv(Expansion(p, goal, open, closed, k), closed, root, goal)
    ensures p.state !in StateSet(Expansion(p, goal, open, closed, k))
    ensures StateSet(open) <= StateSet(Expansion(p, goal, open, closed, k))
    ensures Covers(p, Expansion(p, goal, open, closed, k), closed, k)
  {
    if k > 0 {
      ExpansionKeepsInv(p, root, goal, open, closed, k - 1);
      var before := Expansion(p, goal, open, closed, k - 1);
      TryMoveStep(p, Actions[k - 1], root, goal, before, closed);
      CoversStep(p, before, Expansion(p, goal, open, closed, k), closed, k - 1);
    }
  }

  class Search {
    /** The frontier, in insertion order. */
    var open: seq<Node>
    /** The explored nodes, in the order they were expanded. */
    var closed: seq<Node>
    /** The start and goal states of the current search. */
    ghost var root: State
    ghost var goal: State

    constructor ()
      ensures open == [] && closed == []
    {
      open := [];
      closed := [];
      root := [];
      goal := [];
    }

    /** A* from rootState to goalState: repeatedly take the frontier node with the
        lowest f, stop if it holds the goal, otherwise expand it and move it to the
        explored list. */
    method Solve(rootState: State, goalState: State) returns (result: Outcome)
      requires ValidState(rootState) && ValidState(goalState)
      modifies this
      ensures Inv(open, closed, root, goal) && root == rootState && goal == goalState
      ensures result.Solved? ==>
        && WellFormed(result.node, rootState, goalState)
        && result.node.state == goalState
        && Replay(rootState, result.node.g) == Some(goalState)
        && goalState !in StateSet(open) + StateSet(closed)
      ensures result.NoSolution? ==>
        && open == []
        && forall g :: Replay(rootState, g) != Some(goalState)
    {
      root, goal := rootState, goalState;
      var h := ManhattanDistance(rootState, goalState);
      open := [Node(rootState, None, [], h, h)];
      closed := [];
      RootIsWellFormed(rootState, goalState);
      assert StateSet(open) == {rootState};
      while |open| > 0
        invariant Inv(open, closed, root, goal) && root == rootState && goal == goalState
        invariant Closure(open, closed)
        invariant rootState in StateSet(open) + StateSet(closed)
        invariant goalState !in StateSet(closed)
        decreases Boards(Tiles) - StateSet(closed)
      {
        var lowest := LowestFIndex(open);
        var k := PopPosition(|open|, lowest);
        var current := open[k];
        ghost var before := open;
        PopKeepsInv(before, closed, k, rootState, goalState);
        open := RemoveAt(open, k);
        if current.state == goalState {
          WellFormedReplays(current, rootState, goalState);
          return Solved(current);
        }
        ghost var rest := open;
        open := ExpandNode(current, goalState, open, closed);
        ExpansionKeepsInv(current, rootState, goalState, rest, closed, |Actions|);
        CoversAll(current, open, closed);
        RetireStep(before, k, open, closed, rootState, goalState);
        closed := closed + [current];
      }
      forall t, a | t in StateSet(closed) && ValidState(t) && Move(t, a).Some?
        ensures Move(t, a).value in StateSet(closed)
      {
        var c :| c in closed && c.state == t;
      }
      forall g ensures Replay(rootState, g) != Some(goalState) {
        ReplayStaysInClosedSet(StateSet(closed), rootState, g);
      }
      return NoSolution;
    }
  }
}
