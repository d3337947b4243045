/** The 3-by-4 sliding-tile board: positions, states, the four blank moves and
    replaying a sequence of moves from a starting state. */
module Board {

  datatype Option<+T> = None | Some(value: T)

  /** A cell of the board; a legal cell has 1 <= row <= 3 and 1 <= col <= 4. */
  datatype Pos = Pos(row: int, col: int)

  /** Entry 0 is the position of the blank, entry k the position of tile k. */
  type State = seq<Pos>

  /** The four blank moves, enumerated in the order the solver tries them. */
  datatype Action = U | D | L | R

  const Rows := 3
  const Cols := 4
  const Tiles := 12

  const Actions: seq<Action> := [U, D, L, R]

  function Abs(x: int): nat {
    if x < 0 then -x else x
  }

  /** Manhattan distance between two cells: |drow| + |dcol|. */
  function Dist(p: Pos, q: Pos): nat {
    Abs(p.row - q.row) + Abs(p.col - q.col)
  }

  predicate InGrid(p: Pos) {
    1 <= p.row <= Rows && 1 <= p.col <= Cols
  }

  /** Some entry of s is the cell p. */
  predicate Holds(s: seq<Pos>, p: Pos) {
    p in s
  }

  /** A well-formed state: twelve legal, pairwise distinct cells that together cover
      the board, so indices and cells correspond one to one. */
  ghost predicate ValidState(s: State) {
    && |s| == Tiles
    && (forall i :: 0 <= i < |s| ==> InGrid(s[i]))
    && (forall i, j :: 0 <= i < j < |s| ==> s[i] != s[j])
    && (forall p {:trigger Holds(s, p)} :: InGrid(p) ==> Holds(s, p))
  }

  /** The cell the blank moves to; U and D change the row, L and R the column. */
  function Target(blank: Pos, a: Action): (t: Pos)
    ensures Dist(blank, t) == 1
  {
    match a
    case U => Pos(blank.row - 1, blank.col)
    case D => Pos(blank.row + 1, blank.col)
    case L => Pos(blank.row, blank.col - 1)
    case R => Pos(blank.row, blank.col + 1)
  }

  function Opposite(a: Action): Action {
    match a
    case U => D
    case D => U
    case L => R
    case R => L
  }

  /** The first index holding p (the list's index operation). */
  function IndexOf(s: seq<Pos>, p: Pos): (k: nat)
    requires p in s
    ensures k < |s| && s[k] == p
    ensures forall j :: 0 <= j < k ==> s[j] != p
  {
    if s[0] == p then 0 else 1 + IndexOf(s[1..], p)
  }

  /** Exchanging the blank with tile k keeps a state well-formed. */
  lemma SwapKeepsBoard(s: State, k: nat)
    requires ValidState(s) && 0 < k < Tiles
    ensures ValidState(s[k := s[0]][0 := s[k]])
  {
    var t := s[k := s[0]][0 := s[k]];
    forall p | InGrid(p) ensures Holds(t, p) {
      assert Holds(s, p);
      var i :| 0 <= i < |s| && s[i] == p;
      if i == 0 {
        assert t[k] == p;
      } else if i == k {
        assert t[0] == p;
      } else {
        assert t[i] == p;
      }
    }
    forall i, j | 0 <= i < j < |t| ensures t[i] != t[j] {
      var i' := if i == 0 then k else if i == k then 0 else i;
      var j' := if j == 0 then k else if j == k then 0 else j;
      assert t[i] == s[i'] && t[j] == s[j'];
    }
  }

  /** Slide the blank one cell in direction a. The move is refused (None) when the
      blank would leave the board; otherwise the blank and the tile in the target
      cell exchange positions. */
  function Move(s: State, a: Action): (r: Option<State>)
    requires ValidState(s)
    ensures r.Some? <==> InGrid(Target(s[0], a))
    ensures r.Some? ==> |r.value| == Tiles && r.value[0] == Target(s[0], a)
  {
    var t := Target(s[0], a);
    if !InGrid(t) then None
    else
      assert Holds(s, t);
      var k := IndexOf(s, t);
      Some(s[k := s[0]][0 := s[k]])
  }

  /** A permitted move exchanges the blank with exactly one numbered tile, the one in
      the target cell; every other tile stays put and the result is well-formed. */
  lemma MoveSwapsBlank(s: State, a: Action)
    requires ValidState(s) && Move(s, a).Some?
    ensures ValidState(Move(s, a).value)
    ensures exists k :: 0 < k < Tiles && s[k] == Target(s[0], a) && Move(s, a).value == s[k := s[0]][0 := s[k]]
  {
    var t := Target(s[0], a);
    assert Holds(s, t);
    var k := IndexOf(s, t);
    SwapKeepsBoard(s, k);
  }

  /** Moving back in the opposite direction restores the state. */
  lemma MoveInverse(s: State, a: Action)
    requires ValidState(s) && Move(s, a).Some?
    ensures ValidState(Move(s, a).value) && Move(Move(s, a).value, Opposite(a)) == Some(s)
  {
    var t := Move(s, a).value;
    MoveSwapsBlank(s, a);
    var k :| 0 < k < Tiles && s[k] == Target(s[0], a) && t == s[k := s[0]][0 := s[k]];
    assert Target(t[0], Opposite(a)) == s[0];
    assert t[k] == s[0];
    var k' := IndexOf(t, s[0]);
    assert k' == k;
    assert t[k := t[0]][0 := t[k]] == s;
  }

  /** Apply the actions one after the other; None as soon as one is refused. */
  function Replay(s: State, g: seq<Action>): Option<State>
    requires ValidState(s)
    decreases |g|
  {
    if g == [] then Some(s)
    else match Move(s, g[0])
      case None => None
      case Some(t) =>
        MoveSwapsBlank(s, g[0]);
        Replay(t, g[1..])
  }

  /** Replaying one more action is replaying the prefix, then moving. */
  lemma {:induction false} ReplayAppend(s: State, g: seq<Action>, a: Action)
    requires ValidState(s)
    ensures Replay(s, g).Some? ==> ValidState(Replay(s, g).value)
    ensures Replay(s, g + [a]) ==
      match Replay(s, g)
      case None => None
      case Some(t) => Move(t, a)
    decreases |g|
  {
    if g == [] {
      assert [] + [a] == [a];
      assert [a][1..] == [];
    } else {
      assert (g + [a])[0] == g[0];
      assert (g + [a])[1..] == g[1..] + [a];
      match Move(s, g[0])
      case None =>
      case Some(t) =>
        MoveSwapsBlank(s, g[0]);
        ReplayAppend(t, g[1..], a);
    }
  }

  /** A set of states that holds s and is closed under moves holds every state
      that a replay from s reaches. */
  lemma {:induction false} ReplayStaysInClosedSet(S: set<State>, s: State, g: seq<Action>)
    requires ValidState(s) && s in S
    requires forall t, a :: t in S && ValidState(t) && Move(t, a).Some? ==> Move(t, a).value in S
    ensures Replay(s, g).Some? ==> Replay(s, g).value in S
    decreases |g|
  {
    if g != [] {
      match Move(s, g[0])
      case None =>
      case Some(t) =>
        MoveSwapsBlank(s, g[0]);
        ReplayStaysInClosedSet(S, t, g[1..]);
    }
  }

  // The finite universe of boards, used to bound the search.

  ghost function Cells(): set<Pos> {
    set r, c | 1 <= r <= Rows && 1 <= c <= Cols :: Pos(r, c)
  }

  /** Every sequence of n legal cells. */
  ghost function Boards(n: nat): set<seq<Pos>> {
    if n == 0 then {[]}
    else set b, p | b in Boards(n - 1) && p in Cells() :: b + [p]
  }

  lemma {:induction false} PrefixInBoards(s: seq<Pos>, n: nat)
    requires n <= |s|
    requires forall i :: 0 <= i < |s| ==> InGrid(s[i])
    ensures s[..n] in Boards(n)
  {
    if n > 0 {
      PrefixInBoards(s, n - 1);
      var p := s[n - 1];
      assert p == Pos(p.row, p.col) && p in Cells();
      assert s[..n] == s[..n - 1] + [p];
    }
  }

  /** Every well-formed state lies in the finite set Boards(12). */
  lemma ValidStateIsBoard(s: State)
    requires ValidState(s)
    ensures s in Boards(Tiles)
  {
    PrefixInBoards(s, Tiles);
    assert s[..Tiles] == s;
  }
}
