/** The Manhattan-distance heuristic between two states: the sum, over tiles 1..11
    (the blank excluded), of each tile's row and column distance. */
module Heuristic {
  import opened Board

  /** Sum of the tile distances for tiles 1 .. n-1. */
  function TileSum(a: State, b: State, n: nat): nat
    requires n <= |a| && n <= |b|
  {
    if n <= 1 then 0 else TileSum(a, b, n - 1) + Dist(a[n - 1], b[n - 1])
  }

  function Manhattan(a: State, b: State): nat
    requires |a| >= Tiles && |b| >= Tiles
  {
    TileSum(a, b, Tiles)
  }

  /** The heuristic as the solver computes it: a running total over tiles 1..11. */
  method ManhattanDistance(a: State, b: State) returns (sum: nat)
    requires |a| >= Tiles && |b| >= Tiles
    ensures sum == Manhattan(a, b)
  {
    sum := 0;
    for tile := 1 to Tiles
      invariant sum == TileSum(a, b, tile)
    {
      sum := sum + Dist(a[tile], b[tile]);
    }
  }

  /** The sum is zero exactly when every numbered tile below n is in the same cell. */
  lemma {:induction false} TileSumZero(a: State, b: State, n: nat)
    requires n <= |a| && n <= |b|
    ensures TileSum(a, b, n) == 0 <==> forall t :: 1 <= t < n ==> a[t] == b[t]
  {
    if n > 1 {
      TileSumZero(a, b, n - 1);
      assert Dist(a[n - 1], b[n - 1]) == 0 <==> a[n - 1] == b[n - 1];
    }
  }

  /** The heuristic is zero exactly when tiles 1..11 all match; the blank is ignored. */
  lemma ManhattanZeroIff(a: State, b: State)
    requires |a| >= Tiles && |b| >= Tiles
    ensures Manhattan(a, b) == 0 <==> forall t :: 1 <= t < Tiles ==> a[t] == b[t]
  {
    TileSumZero(a, b, Tiles);
  }

  lemma ManhattanOfSelf(s: State)
    requires |s| >= Tiles
    ensures Manhattan(s, s) == 0
  {
    ManhattanZeroIff(s, s);
  }

  lemma {:induction false} TileSumSymmetric(a: State, b: State, n: nat)
    requires n <= |a| && n <= |b|
    ensures TileSum(a, b, n) == TileSum(b, a, n)
  {
    if n > 1 {
      TileSumSymmetric(a, b, n - 1);
    }
  }

  lemma ManhattanSymmetric(a: State, b: State)
    requires |a| >= Tiles && |b| >= Tiles
    ensures Manhattan(a, b) == Manhattan(b, a)
  {
    TileSumSymmetric(a, b, Tiles);
  }

  /** When a and b differ at most at index 0 and index k, the sums differ by at most
      the distance between a[k] and b[k] (index 0, the blank, is not summed). */
  lemma {:induction false} TileSumOneChange(a: State, b: State, goal: State, k: nat, n: nat)
    requires n <= |a| && n <= |b| && n <= |goal|
    requires forall i :: 0 < i < n && i != k ==> a[i] == b[i]
    ensures k < n && 0 < k ==> TileSum(a, goal, n) <= TileSum(b, goal, n) + Dist(a[k], b[k])
    ensures k >= n || k == 0 ==> TileSum(a, goal, n) == TileSum(b, goal, n)
  {
    if n > 1 {
      TileSumOneChange(a, b, goal, k, n - 1);
    }
  }

  /** Consistency: one move changes the heuristic by at most one, because it relocates
      exactly one numbered tile by one cell. */
  lemma ManhattanConsistent(s: State, a: Action, goal: State)
    requires ValidState(s) && Move(s, a).Some? && |goal| >= Tiles
    ensures Manhattan(Move(s, a).value, goal) <= Manhattan(s, goal) + 1
    ensures Manhattan(s, goal) <= Manhattan(Move(s, a).value, goal) + 1
  {
    var t := Move(s, a).value;
    MoveSwapsBlank(s, a);
    var k :| 0 < k < Tiles && s[k] == Target(s[0], a) && t == s[k := s[0]][0 := s[k]];
    assert Dist(t[k], s[k]) == 1 && Dist(s[k], t[k]) == 1;
    TileSumOneChange(t, s, goal, k, Tiles);
    TileSumOneChange(s, t, goal, k, Tiles);
  }
}
