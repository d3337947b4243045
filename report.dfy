/** The text the solver prints for a node: its path length, the number of nodes
    generated, the actions separated by single spaces, and the trail of f values
    from the root down to the node. */
module Report {
  import opened Board
  import opened Nodes
  import opened Heuristic

  function Digit(d: nat): char
    requires d < 10
  {
    (48 + d) as char
  }

  predicate IsDigit(c: char) {
    '0' as int <= c as int <= '9' as int
  }

  /** The decimal text of a natural number, as Python's str gives it. */
  function NatStr(n: nat): (r: string)
    ensures |r| >= 1
    ensures forall i :: 0 <= i < |r| ==> IsDigit(r[i])
    ensures r[0] == '0' ==> n == 0 && r == "0"
  {
    if n < 10 then [Digit(n)] else NatStr(n / 10) + [Digit(n % 10)]
  }

  /** The value of a string of decimal digits. */
  function DigitsValue(s: string): nat
    requires forall i :: 0 <= i < |s| ==> IsDigit(s[i])
  {
    if |s| == 0 then 0
    else
      assert IsDigit(s[|s| - 1]);
      DigitsValue(s[..|s| - 1]) * 10 + (s[|s| - 1] as int - '0' as int)
  }

  /** Reading the printed number back gives the number. */
  lemma {:induction false} NatStrRoundTrip(n: nat)
    ensures DigitsValue(NatStr(n)) == n
  {
    if n >= 10 {
      NatStrRoundTrip(n / 10);
      var r := NatStr(n);
      assert r[..|r| - 1] == NatStr(n / 10);
    }
  }

  /** Different numbers print differently. */
  lemma NatStrInjective(m: nat, n: nat)
    requires NatStr(m) == NatStr(n)
    ensures m == n
  {
    NatStrRoundTrip(m);
    NatStrRoundTrip(n);
  }

  /** The letter that names an action. */
  function Symbol(a: Action): char {
    match a
    case U => 'U'
    case D => 'D'
    case L => 'L'
    case R => 'R'
  }

  /** The actions joined by single spaces. */
  function JoinActions(g: seq<Action>): string
    decreases |g|
  {
    if |g| == 0 then ""
    else if |g| == 1 then [Symbol(g[0])]
    else [Symbol(g[0]), ' '] + JoinActions(g[1..])
  }

  /** The joined text has one letter per action at the even positions and a space at
      every odd position, so it is 2|g| - 1 characters long. */
  lemma {:induction false} JoinActionsShape(g: seq<Action>)
    ensures |g| == 0 ==> JoinActions(g) == ""
    ensures |g| > 0 ==> |JoinActions(g)| == 2 * |g| - 1
    ensures forall i :: 0 <= i < |g| ==> JoinActions(g)[2 * i] == Symbol(g[i])
    ensures forall i :: 0 <= i < |g| - 1 ==> JoinActions(g)[2 * i + 1] == ' '
    decreases |g|
  {
    if |g| > 1 {
      JoinActionsShape(g[1..]);
      var s := JoinActions(g);
      var t := JoinActions(g[1..]);
      assert s == [Symbol(g[0]), ' '] + t;
      forall i | 0 < i < |g| ensures s[2 * i] == Symbol(g[i]) {
        assert s[2 * i] == t[2 * (i - 1)];
      }
      forall i | 0 < i < |g| - 1 ensures s[2 * i + 1] == ' ' {
        assert s[2 * i + 1] == t[2 * (i - 1) + 1];
      }
    }
  }

  /** The action sequence can be read back from its joined text. */
  lemma JoinActionsDetermines(g: seq<Action>, g': seq<Action>)
    requires JoinActions(g) == JoinActions(g')
    ensures g == g'
  {
    JoinActionsShape(g);
    JoinActionsShape(g');
    assert |g| == |g'|;
    forall i | 0 <= i < |g| ensures g[i] == g'[i] {
      assert Symbol(g[i]) == Symbol(g'[i]);
    }
  }

  /** The f values of the ancestors k, k-1, ..., 0 links above n: the root side first. */
  function FTrail(n: Node, k: nat): (t: seq<nat>)
    requires k <= Depth(n)
    ensures |t| == k + 1
    ensures t[k] == n.f
  {
    if k == 0 then [n.f] else [Ancestor(n, k).f] + FTrail(n, k - 1)
  }

  /** Numbers printed and separated by single spaces. */
  function JoinNats(t: seq<nat>): string
    requires |t| > 0
  {
    if |t| == 1 then NatStr(t[0]) else NatStr(t[0]) + " " + JoinNats(t[1..])
  }

  /** One more link up is the parent of the ancestor reached so far. */
  lemma {:induction false} AncestorStep(n: Node, k: nat)
    requires k < Depth(n)
    ensures Depth(Ancestor(n, k)) == Depth(n) - k
    ensures Ancestor(n, k).parent.Some?
    ensures Ancestor(n, k + 1) == Ancestor(n, k).parent.value
    decreases n
  {
    if k > 0 {
      AncestorStep(n.parent.value, k - 1);
    }
  }

  /** The four lines of a node's text: the path length, the open and closed counts
      together, the actions, and the f trail. The trail walks f parent links up from
      the node, so the node must have at least f ancestors. */
  method Render(n: Node, openCount: nat, closedCount: nat) returns (out: string)
    requires n.f <= Depth(n)
    ensures out ==
      NatStr(|n.g|) + "\n" + NatStr(openCount + closedCount) + "\n" + JoinActions(n.g) + "\n"
      + JoinNats(FTrail(n, n.f))
  {
    out := NatStr(|n.g|) + "\n";
    out := out + NatStr(openCount + closedCount) + "\n";
    out := out + JoinActions(n.g) + "\n";
    var fString := NatStr(n.f);
    var currNode := n;
    for i := 0 to n.f
      invariant currNode == Ancestor(n, i)
      invariant fString == JoinNats(FTrail(n, i))
    {
      AncestorStep(n, i);
      currNode := currNode.parent.value;
      var trail := FTrail(n, i + 1);
      assert trail[1..] == FTrail(n, i);
      fString := NatStr(currNode.f) + " " + fString;
    }
    out := out + fString;
  }

  /** f never decreases from an ancestor to its descendants, so the trail is sorted. */
  lemma {:induction false} FTrailSorted(n: Node, k: nat, root: State, goal: State)
    requires WellFormed(n, root, goal) && k <= Depth(n)
    ensures forall i, j :: 0 <= i <= j <= k ==> FTrail(n, k)[i] <= FTrail(n, k)[j]
  {
    if k > 0 {
      FTrailSorted(n, k - 1, root, goal);
      AncestorStep(n, k - 1);
      AncestorsAreWellFormed(n, k - 1, root, goal);
      ParentFNotLarger(Ancestor(n, k - 1), root, goal);
      var t := FTrail(n, k);
      var u := FTrail(n, k - 1);
      assert t == [Ancestor(n, k).f] + u;
      assert u[0] == Ancestor(n, k - 1).f by {
        if k - 1 > 0 {
          assert u == [Ancestor(n, k - 1).f] + FTrail(n, k - 2);
        }
      }
      forall i, j | 0 <= i <= j <= k ensures t[i] <= t[j] {
        if 0 < i {
          assert t[i] == u[i - 1] && t[j] == u[j - 1];
        } else if 0 < j {
          assert t[j] == u[j - 1];
        }
      }
    }
  }

  /** The first entry of the trail up to the root is the root's f. */
  lemma FTrailStartsAtRoot(n: Node, root: State, goal: State)
    requires WellFormed(n, root, goal)
    ensures ValidState(root) && FTrail(n, Depth(n))[0] == RootNode(root, goal).f
  {
    WellFormedReplays(n, root, goal);
    AncestorsAreWellFormed(n, Depth(n), root, goal);
  }

  /** For the goal node f equals the path length, so the text's trail walks exactly
      |g| links, reaches the root, and has |g| + 1 sorted entries from the root's f to
      |g|. */
  lemma GoalTrail(n: Node, root: State, goal: State)
    requires WellFormed(n, root, goal) && n.state == goal
    ensures n.f == |n.g| == Depth(n)
    ensures |FTrail(n, n.f)| == |n.g| + 1
    ensures ValidState(root) && FTrail(n, n.f)[0] == RootNode(root, goal).f == Manhattan(root, goal)
    ensures FTrail(n, n.f)[|n.g|] == |n.g|
    ensures forall i, j :: 0 <= i <= j <= |n.g| ==> FTrail(n, n.f)[i] <= FTrail(n, n.f)[j]
  {
    GoalNodeCosts(n, root, goal);
    FTrailStartsAtRoot(n, root, goal);
    FTrailSorted(n, n.f, root, goal);
  }
}
