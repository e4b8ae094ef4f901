/**
 The list of actions in the order of their sequence numbers, with the tree that finds the
 place of a new one. The leaf of a number is the last node of the list with that number.
 */
module ActionLists {
  import opened HashSets
  import opened RadixTrees

  /** The sequence number of every action. */
  type Numbering = nat -> nat

  function NumberOf(numbers: Numbering, act: nat): nat
  {
    numbers(act)
  }

  ghost function Numbers(numbers: Numbering, keys: seq<nat>): (r: seq<nat>)
    ensures |r| == |keys| && forall i :: 0 <= i < |keys| ==> r[i] == NumberOf(numbers, keys[i])
  {
    seq(|keys|, i requires 0 <= i < |keys| => NumberOf(numbers, keys[i]))
  }

  ghost predicate Ascending(clocks: seq<nat>)
  {
    forall i: nat, j: nat :: i < j < |clocks| ==> clocks[i] <= clocks[j]
  }

  // ----- What the leaves point to -----

  /** The node at position `i` is the last with number `c`. */
  ghost predicate LastAt(order: seq<nat>, clocks: seq<nat>, i: nat, c: nat, leaf: nat)
  {
    i < |order| == |clocks| && order[i] == leaf && clocks[i] == c && forall j: nat :: i < j < |clocks| ==> clocks[j] != c
  }

  ghost predicate Points(leaf: nat, order: seq<nat>, clocks: seq<nat>, c: nat)
  {
    if leaf == NULL then c !in clocks else exists i: nat :: LastAt(order, clocks, i, c, leaf)
  }

  ghost predicate Pointed(tree: Tree, order: seq<nat>, clocks: seq<nat>)
  {
    forall c: nat :: Points(Leaf(tree, c), order, clocks, c)
  }

  ghost function Inserted(s: seq<nat>, k: nat, x: nat): (r: seq<nat>)
    requires k <= |s|
    ensures |r| == |s| + 1 && r[k] == x
    ensures forall i :: 0 <= i < |s| ==> r[if i < k then i else i + 1] == s[i]
    ensures forall i :: 0 <= i < |r| ==> r[i] == if i < k then s[i] else if i == k then x else s[i - 1]
  {
    s[..k] + [x] + s[k..]
  }

  /** All nodes up to the place have at most this number, and all after it a larger one. */
  ghost predicate Place(clocks: seq<nat>, k: nat, clock: nat)
  {
    && k <= |clocks|
    && (forall i: nat :: i < k ==> clocks[i] <= clock)
    && forall i: nat :: k <= i < |clocks| ==> clock < clocks[i]
  }

  lemma LeafOfPosition(tree: Tree, order: seq<nat>, clocks: seq<nat>, i: nat)
    requires Pointed(tree, order, clocks) && i < |clocks|
    ensures Leaf(tree, clocks[i]) != NULL
  {
    assert Points(Leaf(tree, clocks[i]), order, clocks, clocks[i]);
    assert clocks[i] in clocks;
  }

  /** The place of a new action, right after the node that the leaf or findPrev gives. */
  lemma PlaceFor(tree: Tree, order: seq<nat>, clocks: seq<nat>, clock: nat, prev: nat) returns (k: nat)
    requires Pointed(tree, order, clocks) && Ascending(clocks) && |order| == |clocks| && NULL !in order
    requires if Leaf(tree, clock) != NULL then prev == Leaf(tree, clock) else IsPrev(tree, clock, prev)
    ensures Place(clocks, k, clock) && prev == AddressAt(order, k - 1)
  {
    if prev == NULL {
      k := 0;
      forall i: nat | i < |clocks|
        ensures clock < clocks[i]
      {
        LeafOfPosition(tree, order, clocks, i);
      }
    } else {
      var c := clock;
      if Leaf(tree, clock) == NULL {
        c :| LastBelow(tree, clock, c, prev);
      }
      assert Points(Leaf(tree, c), order, clocks, c);
      var i: nat :| LastAt(order, clocks, i, c, prev);
      k := i + 1;
      forall j: nat | k <= j < |clocks|
        ensures clock < clocks[j]
      {
        LeafOfPosition(tree, order, clocks, j);
      }
    }
  }

  lemma InsertPointed(tree: Tree, after: Tree, order: seq<nat>, clocks: seq<nat>, k: nat, n: nat, clock: nat)
    requires Pointed(tree, order, clocks) && |order| == |clocks| && Place(clocks, k, clock) && n != NULL
    requires LeafSet(tree, after, clock, n)
    ensures Pointed(after, Inserted(order, k, n), Inserted(clocks, k, clock))
  {
    var o, s := Inserted(order, k, n), Inserted(clocks, k, clock);
    hide Inserted;
    forall c: nat
      ensures Points(Leaf(after, c), o, s, c)
    {
      if c == clock {
        assert LastAt(o, s, k, c, n);
      } else {
        assert Points(Leaf(tree, c), order, clocks, c);
        if Leaf(tree, c) == NULL {
          forall i: nat | i < |s|
            ensures s[i] != c
          {
            assert s[i] == if i < k then clocks[i] else if i == k then clock else clocks[i - 1];
          }
        } else {
          var i: nat :| LastAt(order, clocks, i, c, Leaf(tree, c));
          assert LastAt(o, s, if i < k then i else i + 1, c, Leaf(tree, c));
        }
      }
    }
  }

  lemma InsertAscending(clocks: seq<nat>, k: nat, clock: nat)
    requires Ascending(clocks) && Place(clocks, k, clock)
    ensures Ascending(Inserted(clocks, k, clock))
  {
    var s := Inserted(clocks, k, clock);
    hide Inserted;
    forall i: nat, j: nat | i < j < |s|
      ensures s[i] <= s[j]
    {
      assert s[i] == if i < k then clocks[i] else if i == k then clock else clocks[i - 1];
      assert s[j] == if j < k then clocks[j] else if j == k then clock else clocks[j - 1];
    }
  }

  /** The leaf once the node at position `k` is gone. */
  ghost function LeafWithout(tree: Tree, order: seq<nat>, clocks: seq<nat>, k: nat): nat
    requires k < |order| == |clocks|
  {
    if Leaf(tree, clocks[k]) != order[k] then Leaf(tree, clocks[k])
    else if k > 0 && clocks[k - 1] == clocks[k] then order[k - 1]
    else NULL
  }

  lemma RemovePointed(tree: Tree, after: Tree, order: seq<nat>, clocks: seq<nat>, k: nat)
    requires Pointed(tree, order, clocks) && Ascending(clocks) && k < |order| == |clocks| && Apart(order) && NULL !in order
    requires LeafSet(tree, after, clocks[k], LeafWithout(tree, order, clocks, k))
    ensures Pointed(after, Without(order, k), Without(clocks, k))
  {
    var o, s := Without(order, k), Without(clocks, k);
    hide Without;
    forall c: nat
      ensures Points(Leaf(after, c), o, s, c)
    {
      assert Points(Leaf(tree, c), order, clocks, c);
      if c == clocks[k] {
        RemovedPoints(tree, order, clocks, k);
      } else if Leaf(tree, c) == NULL {
        forall i: nat | i < |s|
          ensures s[i] != c
        {
          assert s[i] == clocks[if i < k then i else i + 1];
        }
      } else {
        var i: nat :| LastAt(order, clocks, i, c, Leaf(tree, c));
        assert LastAt(o, s, if i < k then i else i - 1, c, Leaf(tree, c));
      }
    }
  }

  lemma RemovedPoints(tree: Tree, order: seq<nat>, clocks: seq<nat>, k: nat)
    requires Pointed(tree, order, clocks) && Ascending(clocks) && k < |order| == |clocks| && Apart(order) && NULL !in order
    ensures Points(LeafWithout(tree, order, clocks, k), Without(order, k), Without(clocks, k), clocks[k])
  {
    var o, s, c := Without(order, k), Without(clocks, k), clocks[k];
    hide Without;
    LeafOfPosition(tree, order, clocks, k);
    assert Points(Leaf(tree, c), order, clocks, c);
    var i: nat :| LastAt(order, clocks, i, c, Leaf(tree, c));
    if i != k {
      assert k < i;
      assert LastAt(o, s, i - 1, c, order[i]);
    } else if k > 0 && clocks[k - 1] == c {
      assert LastAt(o, s, k - 1, c, order[k - 1]);
    } else {
      forall j: nat | j < |s|
        ensures s[j] != c
      {
        assert s[j] == clocks[if j < k then j else j + 1];
        assert j < k ==> clocks[j] <= clocks[k - 1] <= clocks[k];
      }
    }
  }

  // ----- A node linked in -----

  ghost function LinkedIn(nodes: map<nat, LinkNode>, prev: nat, next: nat, n: nat, key: nat): map<nat, LinkNode>
  {
    var b := if next in nodes then nodes[next := nodes[next].(prev := n)] else nodes;
    var c := if prev in b then b[prev := b[prev].(next := n)] else b;
    c[n := LinkNode(key, prev, next)]
  }

  lemma InsertedAddress(order: seq<nat>, k: nat, n: nat, j: int)
    requires k <= |order|
    ensures AddressAt(Inserted(order, k, n), j) == if j < k then AddressAt(order, j) else if j == k then n else AddressAt(order, j - 1)
  {
  }

  lemma InsertedNode(nodes: map<nat, LinkNode>, order: seq<nat>, k: nat, n: nat, key: nat, i: nat)
    requires Linked(nodes, order) && n != NULL && n !in order && k <= |order| && i <= |order| && NULL !in nodes
    ensures var after := LinkedIn(nodes, AddressAt(order, k - 1), AddressAt(order, k), n, key);
            && HashSets.NodeOk(after, Inserted(order, k, n), i)
            && KeyOf(after, Inserted(order, k, n)[i]) == if i == k then key else KeyOf(nodes, order[if i < k then i else i - 1])
  {
    hide Inserted;
    InsertedAddress(order, k, n, i - 1);
    InsertedAddress(order, k, n, i);
    InsertedAddress(order, k, n, i + 1);
    if k > 0 {
      assert HashSets.NodeOk(nodes, order, k - 1);
    }
    if k < |order| {
      assert HashSets.NodeOk(nodes, order, k);
    }
    if i != k {
      var l := if i < k then i else i - 1;
      assert HashSets.NodeOk(nodes, order, l);
      assert order[l] in order;
      assert k > 0 ==> (order[l] == order[k - 1] <==> l == k - 1);
      assert k < |order| ==> (order[l] == order[k] <==> l == k);
    }
  }

  lemma InsertedApart(order: seq<nat>, k: nat, n: nat)
    requires Apart(order) && k <= |order| && n !in order
    ensures Apart(Inserted(order, k, n))
  {
    var s := Inserted(order, k, n);
    hide Inserted;
    forall i: nat, j: nat | i < j < |s|
      ensures s[i] != s[j]
    {
      assert s[i] == if i < k then order[i] else if i == k then n else order[i - 1];
      assert s[j] == if j < k then order[j] else if j == k then n else order[j - 1];
    }
  }

  lemma InsertLinked(nodes: map<nat, LinkNode>, order: seq<nat>, k: nat, n: nat, key: nat)
    requires Linked(nodes, order) && n != NULL && n !in order && k <= |order| && NULL !in nodes
    ensures var after := LinkedIn(nodes, AddressAt(order, k - 1), AddressAt(order, k), n, key);
            Linked(after, Inserted(order, k, n)) && KeysOf(after, Inserted(order, k, n)) == Inserted(KeysOf(nodes, order), k, key)
  {
    var after, all := LinkedIn(nodes, AddressAt(order, k - 1), AddressAt(order, k), n, key), Inserted(order, k, n);
    hide LinkedIn, HashSets.NodeOk, KeyOf, Inserted;
    InsertedApart(order, k, n);
    hide Apart, KeysOf;
    forall i: nat | i < |all|
      ensures HashSets.NodeOk(after, all, i) && KeyOf(after, all[i]) == if i == k then key else KeyOf(nodes, order[if i < k then i else i - 1])
    {
      InsertedNode(nodes, order, k, n, key, i);
    }
    InsertedKeys(nodes, order, k, n, key, after);
  }

  lemma InsertedKeys(nodes: map<nat, LinkNode>, order: seq<nat>, k: nat, n: nat, key: nat, after: map<nat, LinkNode>)
    requires k <= |order|
    requires forall i: nat :: i <= |order| ==>
                                KeyOf(after, Inserted(order, k, n)[i]) == if i == k then key else KeyOf(nodes, order[if i < k then i else i - 1])
    ensures KeysOf(after, Inserted(order, k, n)) == Inserted(KeysOf(nodes, order), k, key)
  {
    hide Inserted, KeyOf;
    var a, b := KeysOf(after, Inserted(order, k, n)), Inserted(KeysOf(nodes, order), k, key);
    forall i: nat | i < |a|
      ensures a[i] == b[i]
    {
      assert a[i] == KeyOf(after, Inserted(order, k, n)[i]);
    }
  }

  // ----- The list -----

  /** The chain of nodes, with its ends. */
  ghost predicate ChainOk(nodes: map<nat, LinkNode>, order: seq<nat>, head: nat, tail: nat, last: nat)
  {
    && Linked(nodes, order) && Addresses(nodes, order, last)
    && head == AddressAt(order, 0) && tail == AddressAt(order, |order| - 1)
  }

  /** Actions come in the order of their numbers, and the tree points to the last of every number. */
  ghost predicate IndexOk(root: Tree, order: seq<nat>, clocks: seq<nat>)
  {
    && |clocks| == |order| && Ascending(clocks) && (forall i :: 0 <= i < |clocks| ==> clocks[i] < CLOCKS)
    && TreeOk(root, {}, {}) && Pointed(root, order, clocks)
  }

  lemma InsertChain(nodes: map<nat, LinkNode>, order: seq<nat>, head: nat, tail: nat, last: nat, k: nat, key: nat)
    requires ChainOk(nodes, order, head, tail, last) && k <= |order|
    ensures var prev, next, n := AddressAt(order, k - 1), AddressAt(order, k), last + 1;
            var after := LinkedIn(nodes, prev, next, n, key);
            && NULL !in nodes && (prev != NULL ==> prev in nodes && nodes[prev].next == next) && (prev == NULL ==> next == head)
            && (next != NULL ==> next in nodes)
            && ChainOk(after, Inserted(order, k, n), if prev == NULL then n else head, if next == NULL then n else tail, n)
            && KeysOf(after, Inserted(order, k, n)) == Inserted(KeysOf(nodes, order), k, key)
  {
    hide Linked, KeysOf, LinkedIn, Addresses, Inserted, AddressAt;
    Neighbours(nodes, order, k);
    LinkedInAddresses(nodes, order, last, k, key);
    InsertLinked(nodes, order, k, last + 1, key);
    InsertEnds(nodes, order, k, last + 1);
  }

  lemma LinkedInAddresses(nodes: map<nat, LinkNode>, order: seq<nat>, last: nat, k: nat, key: nat)
    requires Addresses(nodes, order, last) && k <= |order|
    ensures last + 1 !in order && NULL !in nodes
    ensures Addresses(LinkedIn(nodes, AddressAt(order, k - 1), AddressAt(order, k), last + 1, key), Inserted(order, k, last + 1), last + 1)
  {
    hide Inserted;
    var all := Inserted(order, k, last + 1);
    forall i: nat | i < |all|
      ensures all[i] <= last + 1
    {
      assert all[i] == if i < k then order[i] else if i == k then last + 1 else order[i - 1];
    }
  }

  lemma InsertEnds(nodes: map<nat, LinkNode>, order: seq<nat>, k: nat, n: nat)
    requires Linked(nodes, order) && k <= |order|
    ensures var o := Inserted(order, k, n);
            && AddressAt(o, 0) == (if AddressAt(order, k - 1) == NULL then n else AddressAt(order, 0))
            && AddressAt(o, |order|) == (if AddressAt(order, k) == NULL then n else AddressAt(order, |order| - 1))
    ensures AddressAt(order, k - 1) == NULL ==> k == 0
  {
    Neighbours(nodes, order, k);
    InsertedAddress(order, k, n, 0);
    InsertedAddress(order, k, n, |order|);
  }

  /** The nodes on both sides of a place. */
  lemma Neighbours(nodes: map<nat, LinkNode>, order: seq<nat>, k: nat)
    requires Linked(nodes, order) && k <= |order|
    ensures AddressAt(order, k - 1) == (if k > 0 then order[k - 1] else NULL) && AddressAt(order, k) == (if k < |order| then order[k] else NULL)
    ensures k > 0 ==> order[k - 1] != NULL && order[k - 1] in nodes && nodes[order[k - 1]].next == AddressAt(order, k)
    ensures k > 1 ==> nodes[order[k - 1]].prev == AddressAt(order, k - 2)
    ensures k == 1 ==> nodes[order[k - 1]].prev == NULL
    ensures k < |order| ==> order[k] != NULL && order[k] in nodes
  {
    assert k > 0 ==> HashSets.NodeOk(nodes, order, k - 1);
    assert k < |order| ==> HashSets.NodeOk(nodes, order, k);
  }

  lemma RemoveChain(nodes: map<nat, LinkNode>, order: seq<nat>, head: nat, tail: nat, last: nat, k: nat)
    requires ChainOk(nodes, order, head, tail, last) && k < |order|
    ensures order[k] in nodes && NULL !in nodes
    ensures var n := nodes[order[k]];
            && (n.prev != NULL ==> n.prev in nodes) && (n.next != NULL ==> n.next in nodes)
            && ChainOk(Unlinked(nodes, order[k]), Without(order, k),
                       if n.prev == NULL then n.next else head, if n.next == NULL then n.prev else tail, last)
    ensures KeysOf(Unlinked(nodes, order[k]), Without(order, k)) == Without(KeysOf(nodes, order), k)
  {
    hide Linked, Unlinked, Without, KeysOf;
    Neighbours(nodes, order, k);
    Neighbours(nodes, order, k + 1);
    if k + 1 < |order| {
      Neighbours(nodes, order, k + 2);
    }
    UnlinkLinked(nodes, order, k);
    UnlinkEnds(nodes, order, k);
    UnlinkAddresses(nodes, order, k, last);
  }

  lemma SamePointed(tree: Tree, after: Tree, order: seq<nat>, clocks: seq<nat>)
    requires Pointed(tree, order, clocks) && SameLeaves(tree, after)
    ensures Pointed(after, order, clocks)
  {
    hide Leaf;
    forall c: nat
      ensures Points(Leaf(after, c), order, clocks, c)
    {
      assert Points(Leaf(tree, c), order, clocks, c);
    }
  }

  /** The leaf of a number, by the way down to it. */
  method LookUp(tree: Tree, clock: nat) returns (leaf: nat)
    requires TreeOk(tree, {}, {}) && clock < CLOCKS
    ensures leaf == Leaf(tree, clock)
  {
    RootOnPath(clock);
    var ptr := ROOT;
    var level: nat := TOP_LEVEL;
    hide TreeOk, Digit, Above, Leaf;
    while level > 0
      invariant level <= TOP_LEVEL && ptr == OnPath(clock, level) && ptr in tree
      decreases level
    {
      NodeThere(tree, {}, ptr);
      if tree[ptr].children[Digit(clock, level)] == 0 {
        NoPath(tree, clock, level);
        return 0;
      }
      ChildThere(tree, {}, ptr, Digit(clock, level));
      PathStep(clock, level - 1);
      ptr, level := Child(ptr, Digit(clock, level)), level - 1;
    }
    NodeThere(tree, {}, ptr);
    leaf := tree[ptr].children[Digit(clock, 0)];
    LeafHere(tree, clock);
  }

  lemma NoPath(tree: Tree, clock: nat, level: nat)
    requires TreeOk(tree, {}, {}) && level <= TOP_LEVEL && OnPath(clock, level) in tree
    requires Digit(clock, level) < |tree[OnPath(clock, level)].children| && tree[OnPath(clock, level)].children[Digit(clock, level)] == 0
    ensures Leaf(tree, clock) == 0
  {
    if Leaf(tree, clock) != 0 {
      PathExists(tree, {}, {}, clock, level);
    }
  }

  lemma LeafHere(tree: Tree, clock: nat)
    requires OnPath(clock, 0) in tree && |tree[OnPath(clock, 0)].children| == ALLNODESIZE
    ensures Leaf(tree, clock) == tree[OnPath(clock, 0)].children[Digit(clock, 0)]
  {
  }

  /** The tree in which the leaf of `clock` belongs, the node before the new one, and its place. */
  method FindPlace(root: Tree, ghost order: seq<nat>, ghost clocks: seq<nat>, clock: nat)
    returns (tree: Tree, prev: nat, count: int, ghost k: nat)
    requires IndexOk(root, order, clocks) && NULL !in order && clock < CLOCKS
    ensures MadeTo(root, tree, clock, OnPath(clock, 0))
    ensures Place(clocks, k, clock) && prev == AddressAt(order, k - 1)
    ensures var name := OnPath(clock, 0);
            count == tree[name].count + if tree[name].children[Digit(clock, 0)] == 0 then 1 else 0
  {
    tree := MakePath(root, clock);
    var name := OnPath(clock, 0);
    SamePointed(root, tree, order, clocks);
    LeafHere(tree, clock);
    hide TreeOk, Pointed, Ascending, SameLeaves, Leaf, Digit, Place, IsPrev;
    prev, count := tree[name].children[Digit(clock, 0)], tree[name].count;
    if prev == NULL {
      count := count + 1;
      prev := FindPrev(tree, {name}, name, clock);
    }
    k := PlaceFor(tree, order, clocks, clock, prev);
  }

  /** The tree with the leaf of `clock` at the new node. */
  lemma IndexInserted(root: Tree, tree: Tree, order: seq<nat>, clocks: seq<nat>, clock: nat, k: nat, n: nat)
    requires IndexOk(root, order, clocks) && MadeTo(root, tree, clock, OnPath(clock, 0)) && Place(clocks, k, clock)
    requires n != NULL && clock < CLOCKS
    ensures var name, i := OnPath(clock, 0), Digit(clock, 0);
            IndexOk(WithChild(tree, name, i, n, tree[name].count + if tree[name].children[i] == 0 then 1 else 0),
                    Inserted(order, k, n), Inserted(clocks, k, clock))
  {
    SamePointed(root, tree, order, clocks);
    InsertAscending(clocks, k, clock);
    hide TreeOk, Pointed, SameLeaves, Leaf, Digit, LeafSet, WithChild, Ascending, Place, Inserted;
    var name, i := OnPath(clock, 0), Digit(clock, 0);
    StoreLeaf(tree, clock, n);
    InsertPointed(tree, WithChild(tree, name, i, n, tree[name].count + if tree[name].children[i] == 0 then 1 else 0),
                  order, clocks, k, n, clock);
    InsertedBelow(clocks, k, clock);
  }

  lemma InsertedBelow(clocks: seq<nat>, k: nat, clock: nat)
    requires k <= |clocks| && clock < CLOCKS && forall i :: 0 <= i < |clocks| ==> clocks[i] < CLOCKS
    ensures forall i :: 0 <= i < |clocks| + 1 ==> Inserted(clocks, k, clock)[i] < CLOCKS
  {
  }

  lemma InsertedNumbers(numbers: Numbering, keys: seq<nat>, k: nat, key: nat)
    requires k <= |keys|
    ensures Numbers(numbers, Inserted(keys, k, key)) == Inserted(Numbers(numbers, keys), k, NumberOf(numbers, key))
  {
    var a, b := Numbers(numbers, Inserted(keys, k, key)), Inserted(Numbers(numbers, keys), k, NumberOf(numbers, key));
    forall i | 0 <= i < |a|
      ensures a[i] == b[i]
    {
    }
  }

  lemma WithoutNumbers(numbers: Numbering, keys: seq<nat>, k: nat)
    requires k < |keys|
    ensures Numbers(numbers, Without(keys, k)) == Without(Numbers(numbers, keys), k)
  {
    var a, b := Numbers(numbers, Without(keys, k)), Without(Numbers(numbers, keys), k);
    forall i | 0 <= i < |a|
      ensures a[i] == b[i]
    {
    }
  }

  class ActionList {
    const numbers: Numbering
    var root: Tree
    var nodes: map<nat, LinkNode>
    var head: nat
    var tail: nat
    var size: nat
    /** Addresses handed out so far. */
    var lastAddress: nat
    ghost var order: seq<nat>

    ghost predicate Valid()
      reads this
    {
      && ChainOk(nodes, order, head, tail, lastAddress) && size == |order|
      && IndexOk(root, order, Numbers(numbers, Actions()))
    }

    /** The actions in the order of the list. */
    ghost function Actions(): seq<nat>
      reads this
    {
      KeysOf(nodes, order)
    }

    constructor (numbering: Numbering)
      ensures Valid() && Actions() == [] && numbers == numbering
    {
      numbers := numbering;
      root := map[ROOT := AllNode(0, NO_CHILDREN)];
      nodes, head, tail, size, lastAddress := map[], NULL, NULL, 0, 0;
      order := [];
      new;
      EmptyIndex(Numbers(numbers, Actions()));
    }

    method IsEmpty() returns (empty: bool)
      requires Valid()
      ensures empty <==> Actions() == []
    {
      EmptyTree(root);
      ghost var clocks := Numbers(numbers, Actions());
      if order != [] {
        LeafOfPosition(root, order, clocks, 0);
      } else {
        forall c: nat
          ensures Leaf(root, c) == 0
        {
          assert Points(Leaf(root, c), order, clocks, c);
        }
      }
      empty := root[ROOT].count == 0;
    }

    /** Adds an action after all those whose number is not larger. */
    method AddAction(act: nat) returns (ghost k: nat)
      requires Valid() && NumberOf(numbers, act) < CLOCKS
      modifies this
      ensures Valid() && size == old(size) + 1
      ensures Place(Numbers(numbers, old(Actions())), k, NumberOf(numbers, act))
      ensures Actions() == Inserted(old(Actions()), k, act)
    {
      hide IndexOk, ChainOk, KeysOf, Place, Inserted, MadeTo, Linked;
      ghost var clocks := Numbers(numbers, Actions());
      NoNull(nodes, order, head, tail, lastAddress);
      size := size + 1;
      var clock := NumberOf(numbers, act);
      var tree, prev, count;
      tree, prev, count, k := FindPlace(root, order, clocks, clock);
      PlaceBound(clocks, k, clock);
      NodeMade(root, tree, clock);
      InsertedNumbers(numbers, Actions(), k, act);
      IndexInserted(root, tree, order, clocks, clock, k, lastAddress + 1);
      LinkAfter(prev, act, k);
      root := WithChild(tree, OnPath(clock, 0), Digit(clock, 0), lastAddress, count);
    }

    /** Takes out the last occurrence of an action; false if it is not on the list. */
    method RemoveAction(act: nat) returns (removed: bool, ghost k: nat)
      requires Valid() && NumberOf(numbers, act) < CLOCKS
      modifies this
      ensures Valid()
      ensures removed <==> act in old(Actions())
      ensures !removed ==> Actions() == old(Actions()) && size == old(size)
      ensures removed ==> LastOf(old(Actions()), act, k) && Actions() == Without(old(Actions()), k) && size == old(size) - 1
    {
      hide IndexOk, ChainOk, KeysOf, LastOf, Without, Leaf;
      var clock := NumberOf(numbers, act);
      IndexTree(root, order, Numbers(numbers, Actions()));
      var leaf := LookUp(root, clock);
      var llnode, found;
      llnode, found, k := FindAction(act, clock, leaf);
      if !found {
        return false, 0;
      }
      LastIs(Actions(), act, k);
      var after := TreeWithout(llnode, leaf, clock, k);
      UnlinkAt(llnode, k);
      root := after;
      size := size - 1;
      removed := true;
    }

    /** The search has come back to position `k`, and the action is not after it. */
    ghost predicate At(k: nat, act: nat, llnode: nat)
      reads this
    {
      && k < |order| && llnode == order[k]
      && NumberOf(numbers, Actions()[k]) == NumberOf(numbers, act) && NoneAfter(Actions(), act, k)
    }

    /** Backwards from the last node with the number of the action, as long as the number is the same. */
    method FindAction(act: nat, clock: nat, leaf: nat) returns (llnode: nat, found: bool, ghost k: nat)
      requires Valid() && clock == NumberOf(numbers, act) && leaf == Leaf(root, clock)
      ensures found <==> act in Actions()
      ensures found ==> LastOf(Actions(), act, k) && llnode == order[k]
    {
      llnode, found, k := leaf, false, 0;
      if leaf == NULL {
        NotThere(root, order, numbers, Actions(), act);
        return;
      }
      k := LeafPosition(root, order, numbers, Actions(), act);
      assert At(k, act, llnode);
      hide IndexOk, ChainOk, KeysOf, LastOf, Leaf, At;
      while true
        invariant At(k, act, llnode)
        decreases k
      {
        AtNode(k, act, llnode);
        if nodes[llnode].key == act {
          return llnode, true, k;
        }
        llnode := nodes[llnode].prev;
        if llnode == NULL || NumberOf(numbers, nodes[llnode].key) != clock {
          return;
        }
        k := k - 1;
      }
    }

    /** What the node there tells: the action, or where to go on, or that the action is not on the list. */
    lemma AtNode(k: nat, act: nat, llnode: nat)
      requires Valid() && At(k, act, llnode)
      ensures llnode in nodes && k < |order| && llnode == order[k]
      ensures nodes[llnode].key == act ==> LastOf(Actions(), act, k) && act in Actions()
      ensures var prev := nodes[llnode].prev;
              nodes[llnode].key != act ==>
                && (prev == NULL ==> act !in Actions())
                && (prev != NULL ==>
                      && prev in nodes && k > 0
                      && if NumberOf(numbers, nodes[prev].key) == NumberOf(numbers, act) then At(k - 1, act, prev) else act !in Actions())
    {
      hide ChainOk, KeysOf, IndexOk, Numbers, NoneAfter, LastOf, KeyOf;
      NodeAt(k);
      if k > 0 {
        NodeAt(k - 1);
      }
      var keys := Actions();
      if nodes[llnode].key == act {
        LastThere(keys, act, k);
      } else {
        MoveBack(keys, act, k);
        if k > 0 && NumberOf(numbers, keys[k - 1]) != NumberOf(numbers, act) {
          NoneBefore(root, order, numbers, keys, act, k - 1);
        }
      }
    }

    /** The tree without the node at `k`. */
    method TreeWithout(llnode: nat, leaf: nat, clock: nat, ghost k: nat) returns (after: Tree)
      requires Valid() && k < |order| && llnode == order[k] && leaf == Leaf(root, clock)
      requires NumberOf(numbers, Actions()[k]) == clock
      ensures IndexOk(after, Without(order, k), Numbers(numbers, Without(Actions(), k)))
    {
      NodeAt(k);
      NoNull(nodes, order, head, tail, lastAddress);
      ghost var clocks := Numbers(numbers, Actions());
      hide ChainOk, IndexOk, KeysOf, Leaf, LeafWithout, Without, Numbers;
      after := root;
      if llnode == leaf {
        after := NewLeaf(clock, nodes[llnode].prev, k);
      } else {
        IndexTree(root, order, clocks);
        OldLeaf(root, order, clocks, k);
      }
      IndexRemoved(root, after, order, clocks, k);
      WithoutNumbers(numbers, Actions(), k);
    }

    /** The node at a position. */
    lemma NodeAt(k: nat)
      requires Valid() && k < |order|
      ensures order[k] in nodes && nodes[order[k]].key == Actions()[k] && |Actions()| == |order|
      ensures nodes[order[k]].prev == (if k == 0 then NULL else order[k - 1])
      ensures nodes[order[k]].prev == NULL <==> k == 0
      ensures Numbers(numbers, Actions())[k] == NumberOf(numbers, Actions()[k])
    {
      hide IndexOk;
      assert HashSets.NodeOk(nodes, order, k);
      assert k > 0 ==> HashSets.NodeOk(nodes, order, k - 1);
    }

    /** The tree once the last node with the number is gone: its leaf is the node before with the same number, if there is one. */
    method NewLeaf(clock: nat, prev: nat, ghost k: nat) returns (after: Tree)
      requires Valid() && k < |order| && Numbers(numbers, Actions())[k] == clock && Leaf(root, clock) == order[k] != NULL
      requires prev == if k == 0 then NULL else order[k - 1]
      ensures TreeOk(after, {}, {})
      ensures LeafSet(root, after, clock, LeafWithout(root, order, Numbers(numbers, Actions()), k))
    {
      hide ChainOk, Pointed, Ascending;
      if k > 0 {
        NodeAt(k - 1);
      }
      NodeAt(k);
      hide KeysOf, Leaf, LeafSet, TreeOk, Numbers, WithChild;
      if prev != NULL && NumberOf(numbers, nodes[prev].key) == clock {
        var name, i := OnPath(clock, 0), Digit(clock, 0);
        LeafThere(root, clock);
        LessEmpty(root, name);
        StoreLeaf(root, clock, prev);
        after := WithChild(root, name, i, prev, root[name].count);
      } else {
        after := RemoveLeaf(root, clock);
      }
    }

    /** Takes a node out of the chain. */
    method UnlinkAt(llnode: nat, ghost k: nat)
      requires ChainOk(nodes, order, head, tail, lastAddress) && k < |order| && llnode == order[k]
      modifies this`nodes, this`head, this`tail, this`order
      ensures ChainOk(nodes, order, head, tail, lastAddress) && order == Without(old(order), k)
      ensures KeysOf(nodes, order) == Without(KeysOf(old(nodes), old(order)), k)
    {
      RemoveChain(nodes, order, head, tail, lastAddress, k);
      hide ChainOk, KeysOf, Without, Unlinked;
      UnlinkNodes(llnode);
      order := Without(order, k);
    }

    method UnlinkNodes(llnode: nat)
      requires llnode in nodes && NULL !in nodes
      requires nodes[llnode].prev != NULL ==> nodes[llnode].prev in nodes
      requires nodes[llnode].next != NULL ==> nodes[llnode].next in nodes
      modifies this`nodes, this`head, this`tail
      ensures nodes == Unlinked(old(nodes), llnode)
      ensures head == if old(nodes)[llnode].prev == NULL then old(nodes)[llnode].next else old(head)
      ensures tail == if old(nodes)[llnode].next == NULL then old(nodes)[llnode].prev else old(tail)
    {
      var node := nodes[llnode];
      if node.prev != NULL {
        nodes := nodes[node.prev := nodes[node.prev].(next := node.next)];
      } else {
        head := node.next;
      }
      if node.next != NULL {
        nodes := nodes[node.next := nodes[node.next].(prev := node.prev)];
      } else {
        tail := node.prev;
      }
      nodes := nodes - {llnode};
    }

    /** Links a new node in after `prev`, or at the front. */
    method LinkAfter(prev: nat, act: nat, ghost k: nat)
      requires ChainOk(nodes, order, head, tail, lastAddress) && k <= |order| && prev == AddressAt(order, k - 1)
      modifies this`nodes, this`head, this`tail, this`lastAddress, this`order
      ensures ChainOk(nodes, order, head, tail, lastAddress)
      ensures lastAddress == old(lastAddress) + 1 && order == Inserted(old(order), k, lastAddress)
      ensures KeysOf(nodes, order) == Inserted(KeysOf(old(nodes), old(order)), k, act)
    {
      InsertChain(nodes, order, head, tail, lastAddress, k, act);
      hide ChainOk, KeysOf, Inserted, LinkedIn, AddressAt;
      var llnode := lastAddress + 1;
      LinkNodes(prev, if prev != NULL then nodes[prev].next else head, llnode, act);
      order := Inserted(order, k, llnode);
      lastAddress := llnode;
    }

    /** Writes the links of the new node and of its neighbours. */
    method LinkNodes(prev: nat, next: nat, llnode: nat, act: nat)
      requires NULL !in nodes && (prev != NULL ==> prev in nodes) && (next != NULL ==> next in nodes)
      modifies this`nodes, this`head, this`tail
      ensures nodes == LinkedIn(old(nodes), prev, next, llnode, act)
      ensures head == if prev == NULL then llnode else old(head)
      ensures tail == if next == NULL then llnode else old(tail)
    {
      if next != NULL {
        nodes := nodes[next := nodes[next].(prev := llnode)];
      } else {
        tail := llnode;
      }
      if prev != NULL {
        nodes := nodes[prev := nodes[prev].(next := llnode)];
      } else {
        head := llnode;
      }
      nodes := nodes[llnode := LinkNode(act, prev, next)];
    }
  }

  // ----- Searching backwards -----

  ghost predicate NoneAfter(keys: seq<nat>, act: nat, k: nat)
  {
    forall j: nat :: k < j < |keys| ==> keys[j] != act
  }

  /** The last occurrence of an action. */
  ghost predicate LastOf(keys: seq<nat>, act: nat, k: nat)
  {
    k < |keys| && keys[k] == act && NoneAfter(keys, act, k)
  }

  lemma LastIs(keys: seq<nat>, act: nat, k: nat)
    requires LastOf(keys, act, k)
    ensures k < |keys| && keys[k] == act
  {
  }

  lemma LastThere(keys: seq<nat>, act: nat, k: nat)
    requires k < |keys| && keys[k] == act && NoneAfter(keys, act, k)
    ensures LastOf(keys, act, k) && act in keys
  {
  }

  lemma IndexTree(root: Tree, order: seq<nat>, clocks: seq<nat>)
    requires IndexOk(root, order, clocks)
    ensures TreeOk(root, {}, {})
  {
  }

  /** Without a leaf for its number the action is not on the list. */
  lemma NotThere(root: Tree, order: seq<nat>, numbers: Numbering, keys: seq<nat>, act: nat)
    requires IndexOk(root, order, Numbers(numbers, keys)) && Leaf(root, NumberOf(numbers, act)) == NULL
    ensures act !in keys
  {
    var clocks := Numbers(numbers, keys);
    forall i: nat | i < |keys|
      ensures keys[i] != act
    {
      LeafOfPosition(root, order, clocks, i);
    }
  }

  lemma LeafPosition(root: Tree, order: seq<nat>, numbers: Numbering, keys: seq<nat>, act: nat) returns (k: nat)
    requires IndexOk(root, order, Numbers(numbers, keys)) && Leaf(root, NumberOf(numbers, act)) != NULL
    ensures k < |order| == |keys| && order[k] == Leaf(root, NumberOf(numbers, act))
    ensures Numbers(numbers, keys)[k] == NumberOf(numbers, act) && NoneAfter(keys, act, k)
  {
    var c := NumberOf(numbers, act);
    var clocks := Numbers(numbers, keys);
    assert Points(Leaf(root, c), order, clocks, c);
    k :| LastAt(order, clocks, k, c, Leaf(root, c));
    forall j: nat | k < j < |keys|
      ensures keys[j] != act
    {
      assert clocks[j] == NumberOf(numbers, keys[j]);
    }
  }

  /** One node back; before the first node there is nothing. */
  lemma MoveBack(keys: seq<nat>, act: nat, k: nat)
    requires k < |keys| && NoneAfter(keys, act, k) && keys[k] != act
    ensures k == 0 ==> act !in keys
    ensures k > 0 ==> NoneAfter(keys, act, k - 1)
  {
  }

  /** Once the number is smaller the action does not come any more. */
  lemma NoneBefore(root: Tree, order: seq<nat>, numbers: Numbering, keys: seq<nat>, act: nat, k: nat)
    requires IndexOk(root, order, Numbers(numbers, keys)) && k + 1 < |keys| && NoneAfter(keys, act, k)
    requires Numbers(numbers, keys)[k + 1] == NumberOf(numbers, act) && NumberOf(numbers, keys[k]) != NumberOf(numbers, act)
    ensures act !in keys
  {
    var clocks := Numbers(numbers, keys);
    forall j: nat | j <= k
      ensures keys[j] != act
    {
      assert clocks[j] == NumberOf(numbers, keys[j]);
      assert clocks[k] <= clocks[k + 1];
      assert j < k ==> clocks[j] <= clocks[k];
    }
  }

  lemma OldLeaf(root: Tree, order: seq<nat>, clocks: seq<nat>, k: nat)
    requires k < |order| == |clocks| && Leaf(root, clocks[k]) != order[k]
    ensures LeafSet(root, root, clocks[k], LeafWithout(root, order, clocks, k))
  {
  }

  lemma LeafThere(root: Tree, clock: nat)
    requires TreeOk(root, {}, {}) && Leaf(root, clock) != NULL
    ensures var name, i := OnPath(clock, 0), Digit(clock, 0);
            name in root && |root[name].children| == ALLNODESIZE && root[name].children[i] != 0
  {
  }

  lemma IndexRemoved(root: Tree, after: Tree, order: seq<nat>, clocks: seq<nat>, k: nat)
    requires IndexOk(root, order, clocks) && TreeOk(after, {}, {}) && k < |order| && Apart(order) && NULL !in order
    requires LeafSet(root, after, clocks[k], LeafWithout(root, order, clocks, k))
    ensures IndexOk(after, Without(order, k), Without(clocks, k))
  {
    RemovePointed(root, after, order, clocks, k);
    hide TreeOk, Pointed, Without;
    var s := Without(clocks, k);
    forall i: nat, j: nat | i < j < |s|
      ensures s[i] <= s[j]
    {
      assert s[i] == clocks[if i < k then i else i + 1];
      assert s[j] == clocks[if j < k then j else j + 1];
    }
  }

  lemma EmptyIndex(clocks: seq<nat>)
    requires clocks == []
    ensures IndexOk(map[ROOT := AllNode(0, NO_CHILDREN)], [], clocks)
  {
    EmptyRoot(NO_CHILDREN);
  }

  lemma NoNull(nodes: map<nat, LinkNode>, order: seq<nat>, head: nat, tail: nat, last: nat)
    requires ChainOk(nodes, order, head, tail, last)
    ensures NULL !in order && NULL !in nodes && Apart(order)
  {
    forall i: nat | i < |order|
      ensures order[i] != NULL
    {
      assert HashSets.NodeOk(nodes, order, i);
    }
  }

  lemma PlaceBound(clocks: seq<nat>, k: nat, clock: nat)
    requires Place(clocks, k, clock)
    ensures k <= |clocks|
  {
  }

  lemma NodeMade(root: Tree, tree: Tree, clock: nat)
    requires MadeTo(root, tree, clock, OnPath(clock, 0))
    ensures OnPath(clock, 0) in tree && |tree[OnPath(clock, 0)].children| == ALLNODESIZE
  {
  }
}
