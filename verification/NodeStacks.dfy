/**
 The stack of choices of one execution: replayed up to the backtracking point, cut
 there, and extended with new choices after it.
 */
module NodeStacks {
  import opened Wrappers
  import opened ChoiceTree

  /** The value of a node stack. Node pointers are positions in `nodes`. */
  datatype Stack = Stack(nodes: seq<Node>, last: Option<nat>, curr: Option<nat>, head: int)
  {
    predicate Valid()
    {
      -1 <= head < |nodes| && (curr.Some? ==> curr.value < |nodes|)
    }

    /** The choice point answered last. */
    function Choice(): nat
      requires Valid() && head >= 0
    {
      nodes[head].readFromIdx
    }

    /** Either there is no recorded choice at the current position, or it has `n` alternatives. */
    predicate Agrees(n: nat)
      requires Valid()
    {
      head + 1 < |nodes| ==> nodes[head + 1].rfSize == n
    }
  }

  const EMPTY := Stack([], None, None, -1)

  ghost function Reset(s: Stack): Stack
  {
    Stack(s.nodes, None, s.last, -1)
  }

  /** A choice among `n` alternatives: recorded, advanced at the backtracking point, or new. */
  ghost function Explored(s: Stack, n: nat): (r: Stack)
    requires s.Valid()
    ensures r.Valid() && r.head == s.head + 1
  {
    var h := s.head + 1;
    if h == |s.nodes| then
      Stack(s.nodes + [Node(0, n)], if n > 1 then Some(h) else s.last, s.curr, h)
    else if s.curr == Some(h) then
      var node := Node(s.nodes[h].readFromIdx + 1, s.nodes[h].rfSize);
      Stack(s.nodes[..h] + [node], if node.HasMoreChoices() then Some(h) else s.last, None, h)
    else
      s.(last := if s.nodes[h].HasMoreChoices() then Some(h) else s.last, head := h)
  }

  class NodeStack {
    var nodeList: seq<Node>
    var lastBacktrack: Option<nat>
    var currBacktrack: Option<nat>
    var headIdx: int

    ghost function View(): Stack
      reads this
    {
      Stack(nodeList, lastBacktrack, currBacktrack, headIdx)
    }

    constructor ()
      ensures View() == EMPTY
    {
      nodeList := [];
      lastBacktrack, currBacktrack := None, None;
      headIdx := -1;
    }

    method GetNext() returns (node: Option<nat>)
      requires View().Valid()
      modifies this`headIdx
      ensures node == if old(headIdx) + 1 == |nodeList| then None else Some(old(headIdx) + 1)
      ensures headIdx == old(headIdx) + if node.Some? then 1 else 0
    {
      if |nodeList| == 0 {
        return None;
      }
      var it := headIdx + 1;
      if it == |nodeList| {
        return None;
      }
      headIdx := headIdx + 1;
      return Some(it);
    }

    method CreateNode(numChoices: nat) returns (node: nat)
      requires View().Valid() && headIdx + 1 == |nodeList|
      modifies this`headIdx, this`nodeList
      ensures node == |old(nodeList)| == headIdx && nodeList == old(nodeList) + [Node(0, numChoices)]
    {
      nodeList := nodeList + [Node(0, numChoices)];
      headIdx := headIdx + 1;
      return headIdx;
    }

    method PopRestOfStack(numAhead: nat)
      requires View().Valid() && 0 <= headIdx + numAhead <= |nodeList|
      modifies this`nodeList
      ensures nodeList == old(nodeList)[..headIdx + numAhead]
    {
      nodeList := nodeList[..headIdx + numAhead];
    }

    method ResetExecution()
      modifies this
      ensures View() == Reset(old(View()))
    {
      currBacktrack := lastBacktrack;
      lastBacktrack := None;
      headIdx := -1;
    }

    method RepeatPrevExecution()
      modifies this
      ensures View() == old(View()).(curr := None)
    {
      currBacktrack := None;
    }

    predicate HasAnotherExecution()
      reads this
    {
      lastBacktrack.Some?
    }

    /** The assertion on the number of alternatives is the precondition `Agrees`. */
    method ExploreNext(numChoices: nat) returns (choice: nat)
      requires View().Valid() && View().Agrees(numChoices)
      modifies this
      ensures View() == Explored(old(View()), numChoices)
      ensures choice == View().Choice()
    {
      var next := GetNext();
      var node: nat;
      if next.None? {
        node := CreateNode(numChoices);
      } else {
        node := next.value;
        if currBacktrack == Some(node) {
          nodeList := nodeList[node := nodeList[node].(readFromIdx := nodeList[node].readFromIdx + 1)];
          PopRestOfStack(1);
          currBacktrack := None;
        }
      }
      if nodeList[node].HasMoreChoices() {
        lastBacktrack := Some(node);
      }
      return nodeList[node].readFromIdx;
    }
  }
}
