/** Search-tree nodes. A node carries its state, the actions taken from the root (g,
    whose length is the path cost), the heuristic estimate h, the priority f and a
    link to the node it was expanded from. A node is never changed once its h and f
    are set, so the parent link is held as a value. */
module Nodes {
  import opened Board
  import opened Heuristic

  datatype Node = Node(state: State, parent: Option<Node>, g: seq<Action>, h: nat, f: nat)

  /** Node equality compares states only; path, costs and parent are ignored. */
  predicate SameState(x: Node, y: Node) {
    x.state == y.state
  }

  /** The root: no actions yet, so f is the heuristic alone. */
  function RootNode(root: State, goal: State): (n: Node)
    requires |root| >= Tiles && |goal| >= Tiles
  {
    var h := Manhattan(root, goal);
    Node(root, None, [], h, h)
  }

  /** The node reached from p by action a, whose state is s. */
  function ChildNode(p: Node, a: Action, s: State, goal: State): (n: Node)
    requires |s| >= Tiles && |goal| >= Tiles
  {
    var h := Manhattan(s, goal);
    Node(s, Some(p), p.g + [a], h, h + |p.g| + 1)
  }

  /** A node the search can build: the root, or a well-formed node's child by a
      permitted move, each with h the heuristic to the goal and f = h + |g|. */
  ghost predicate WellFormed(n: Node, root: State, goal: State)
    decreases n
  {
    && ValidState(n.state) && |goal| >= Tiles
    && n.h == Manhattan(n.state, goal)
    && n.f == n.h + |n.g|
    && match n.parent
       case None => n.state == root && n.g == []
       case Some(p) =>
         && |n.g| > 0
         && WellFormed(p, root, goal)
         && n.g == p.g + [n.g[|n.g| - 1]]
         && Move(p.state, n.g[|n.g| - 1]) == Some(n.state)
  }

  /** The number of parent links from n up to the root. */
  function Depth(n: Node): nat
    decreases n
  {
    match n.parent
    case None => 0
    case Some(p) => 1 + Depth(p)
  }

  /** The node k parent links above n. */
  function Ancestor(n: Node, k: nat): Node
    requires k <= Depth(n)
    decreases n
  {
    if k == 0 then n else Ancestor(n.parent.value, k - 1)
  }

  lemma RootIsWellFormed(root: State, goal: State)
    requires ValidState(root) && |goal| >= Tiles
    ensures WellFormed(RootNode(root, goal), root, goal)
  {
  }

  lemma ChildIsWellFormed(p: Node, a: Action, root: State, goal: State)
    requires WellFormed(p, root, goal) && Move(p.state, a).Some?
    ensures WellFormed(ChildNode(p, a, Move(p.state, a).value, goal), root, goal)
  {
    var n := ChildNode(p, a, Move(p.state, a).value, goal);
    MoveSwapsBlank(p.state, a);
    assert n.g[|n.g| - 1] == a;
  }

  /** Replaying a well-formed node's actions from the root reproduces its state, and
      its depth in the tree is its path cost. */
  lemma {:induction false} WellFormedReplays(n: Node, root: State, goal: State)
    requires WellFormed(n, root, goal)
    ensures ValidState(root)
    ensures Replay(root, n.g) == Some(n.state)
    ensures Depth(n) == |n.g|
    decreases n
  {
    match n.parent
    case None =>
    case Some(p) =>
      WellFormedReplays(p, root, goal);
      var a := n.g[|n.g| - 1];
      ReplayAppend(root, p.g, a);
  }

  /** Every ancestor is well-formed; the topmost one is the root node. */
  lemma {:induction false} AncestorsAreWellFormed(n: Node, k: nat, root: State, goal: State)
    requires WellFormed(n, root, goal) && k <= Depth(n)
    ensures WellFormed(Ancestor(n, k), root, goal)
    ensures Depth(Ancestor(n, k)) == Depth(n) - k
    ensures k == Depth(n) ==> Ancestor(n, k) == RootNode(root, goal)
    decreases n
  {
    if k == 0 {
      if k == Depth(n) {
        match n.parent
        case None =>
        case Some(p) =>
      }
    } else {
      AncestorsAreWellFormed(n.parent.value, k - 1, root, goal);
    }
  }

  /** Along a tree edge f never decreases: h falls by at most one while |g| grows by
      one (the heuristic is consistent). */
  lemma ParentFNotLarger(n: Node, root: State, goal: State)
    requires WellFormed(n, root, goal) && n.parent.Some?
    ensures n.parent.value.f <= n.f
  {
    var p := n.parent.value;
    var a := n.g[|n.g| - 1];
    ManhattanConsistent(p.state, a, goal);
  }

  /** A node holding the goal state has h = 0, so its f is its path length and its
      depth. */
  lemma GoalNodeCosts(n: Node, root: State, goal: State)
    requires WellFormed(n, root, goal) && n.state == goal
    ensures n.h == 0 && n.f == |n.g| == Depth(n)
  {
    ManhattanOfSelf(goal);
    WellFormedReplays(n, root, goal);
  }
}
