/** The frontier (open list) and explored (closed) list: selecting the node with the
    lowest f, the duplicate test over both lists, and the registry invariant that no
    state is held twice. */
module Frontier {
  import opened Board
  import opened Nodes

  /** The starting value of the running minimum in the lowest-f scan. */
  const Sentinel := 100000

  /** A linear scan keeping the first node whose f is strictly below the running
      minimum: the lowest f wins and, among equal f, the earliest entry. -1 when the
      list is empty or no f is below the sentinel. */
  method LowestFIndex(nodes: seq<Node>) returns (index: int)
    ensures index == -1 <==> forall i :: 0 <= i < |nodes| ==> nodes[i].f >= Sentinel
    ensures index != -1 ==> 0 <= index < |nodes| && nodes[index].f < Sentinel
    ensures index != -1 ==> forall i :: 0 <= i < |nodes| ==> nodes[index].f <= nodes[i].f
    ensures index != -1 ==> forall i :: 0 <= i < index ==> nodes[index].f < nodes[i].f
  {
    var lowestF := Sentinel;
    index := -1;
    for i := 0 to |nodes|
      invariant index == -1 <==> forall j :: 0 <= j < i ==> nodes[j].f >= Sentinel
      invariant index == -1 ==> lowestF == Sentinel
      invariant index != -1 ==> 0 <= index < i && lowestF == nodes[index].f < Sentinel
      invariant forall j :: 0 <= j < i ==> lowestF <= nodes[j].f
      invariant index != -1 ==> forall j :: 0 <= j < index ==> lowestF < nodes[j].f
    {
      if nodes[i].f < lowestF {
        lowestF := nodes[i].f;
        index := i;
      }
    }
  }

  /** The position a list's pop(i) removes: a negative i counts from the end. */
  function PopPosition(length: nat, i: int): (k: int)
    requires -(length as int) <= i < length
    ensures 0 <= k < length
    ensures i >= 0 ==> k == i
    ensures i < 0 ==> k == length + i
  {
    if i < 0 then length + i else i
  }

  function RemoveAt(nodes: seq<Node>, k: nat): (rest: seq<Node>)
    requires k < |nodes|
  {
    nodes[..k] + nodes[k + 1..]
  }

  /** True when no node of either list holds the state. */
  method CheckUnique(state: State, list1: seq<Node>, list2: seq<Node>) returns (unique: bool)
    ensures unique <==>
      (forall n :: n in list1 ==> n.state != state) && (forall n :: n in list2 ==> n.state != state)
  {
    for i := 0 to |list1|
      invariant forall j :: 0 <= j < i ==> list1[j].state != state
    {
      if state == list1[i].state {
        return false;
      }
    }
    for i := 0 to |list2|
      invariant forall j :: 0 <= j < i ==> list2[j].state != state
    {
      if state == list2[i].state {
        return false;
      }
    }
    return true;
  }

  ghost function StateSet(nodes: seq<Node>): set<State> {
    set n | n in nodes :: n.state
  }

  /** No state appears twice in the list. */
  ghost predicate NoRepeats(nodes: seq<Node>) {
    forall i, j :: 0 <= i < j < |nodes| ==> nodes[i].state != nodes[j].state
  }

  /** The registry invariant: no state twice in open, none twice in closed, and none
      in both. */
  ghost predicate Registry(open: seq<Node>, closed: seq<Node>) {
    NoRepeats(open) && NoRepeats(closed) && StateSet(open) !! StateSet(closed)
  }

  lemma NotInStateSet(s: State, nodes: seq<Node>)
    ensures s !in StateSet(nodes) <==> forall n :: n in nodes ==> n.state != s
  {
  }

  /** Removing the entry at k keeps the registry invariant, and the removed node's
      state is then in neither list. */
  lemma RemoveKeepsRegistry(open: seq<Node>, closed: seq<Node>, k: nat)
    requires Registry(open, closed) && k < |open|
    ensures Registry(RemoveAt(open, k), closed)
    ensures forall n :: n in RemoveAt(open, k) ==> n in open
    ensures open[k].state !in StateSet(RemoveAt(open, k))
    ensures open[k].state !in StateSet(closed)
    ensures StateSet(open) == StateSet(RemoveAt(open, k)) + {open[k].state}
  {
    var rest := RemoveAt(open, k);
    assert forall i :: 0 <= i < |rest| ==> rest[i] == open[if i < k then i else i + 1];
    forall n | n in rest ensures n in open && n.state != open[k].state {
      var i :| 0 <= i < |rest| && rest[i] == n;
      var i' := if i < k then i else i + 1;
      assert open[i'] == n;
    }
    assert open[k] in open;
    forall s | s in StateSet(open) ensures s in StateSet(rest) + {open[k].state} {
      var n :| n in open && n.state == s;
      var i :| 0 <= i < |open| && open[i] == n;
      if i < k {
        assert rest[i] == n;
      } else if i > k {
        assert rest[i - 1] == n;
      }
    }
  }

  /** Appending a node whose state is new keeps the list free of repeats and adds
      exactly that state. */
  lemma AppendFresh(nodes: seq<Node>, n: Node)
    requires NoRepeats(nodes) && n.state !in StateSet(nodes)
    ensures NoRepeats(nodes + [n])
    ensures StateSet(nodes + [n]) == StateSet(nodes) + {n.state}
  {
    var l := nodes + [n];
    forall i, j | 0 <= i < j < |l| ensures l[i].state != l[j].state {
      if j == |nodes| {
        assert l[i] in nodes;
      }
    }
  }
}
