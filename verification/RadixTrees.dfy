/**
 The index of an action list: a tree of eight levels of sixteen children over sequence
 numbers, whose leaves are the addresses of list nodes. Nodes are named by their level and
 by the digits above it, so the links between parents and children follow from the names.
 */
module RadixTrees {

  const ALLNODESIZE: nat := 16
  const ALLMASK: nat := 15
  const TOP_LEVEL: nat := 7
  /** Sequence numbers have 32 bits. */
  const CLOCKS: nat := 0x1_0000_0000

  /** Level 0 holds leaves; 0 is the null pointer. */
  datatype AllNode = AllNode(count: int, children: seq<nat>)

  type Name = (nat, nat)

  type Tree = map<Name, AllNode>

  const ROOT: Name := (TOP_LEVEL, 0)

  /** A number shifted right by that many digits; below zero, as unsigned arithmetic that passes zero leaves the digits. */
  function Above(index: int, level: nat): (r: int)
    ensures index >= 0 <==> r >= 0
    decreases level
  {
    if level == 0 then index else Above(index / ALLNODESIZE, level - 1)
  }

  function Digit(index: int, level: nat): (d: nat)
    ensures d < ALLNODESIZE
  {
    Above(index, level) % ALLNODESIZE
  }

  function Pow16(n: nat): nat
  {
    if n == 0 then 1 else 16 * Pow16(n - 1)
  }

  lemma {:induction false} AboveStep(index: int, level: nat)
    ensures Above(index, level + 1) == Above(index, level) / ALLNODESIZE
    decreases level
  {
    if level > 0 {
      AboveStep(index / ALLNODESIZE, level - 1);
    }
  }

  lemma {:induction false} AboveMinus(index: int, level: nat)
    ensures Above(index - Pow16(level), level) == Above(index, level) - 1
    ensures LowOnes(index, level) ==> LowOnes(index - Pow16(level), level)
    decreases level
  {
    if level > 0 {
      AboveMinus(index / ALLNODESIZE, level - 1);
      assert (index - 16 * Pow16(level - 1)) / ALLNODESIZE == index / ALLNODESIZE - Pow16(level - 1);
    }
  }

  /** The digits below the level are all ones. */
  ghost predicate LowOnes(index: int, level: nat)
    decreases level
  {
    level == 0 || (index % ALLNODESIZE == ALLMASK && LowOnes(index / ALLNODESIZE, level - 1))
  }

  lemma {:induction false} LowOnesStep(index: int, level: nat)
    ensures LowOnes(index, level + 1) <==> LowOnes(index, level) && Digit(index, level) == ALLMASK
    decreases level
  {
    if level > 0 {
      LowOnesStep(index / ALLNODESIZE, level - 1);
    }
  }

  // ----- The tree -----

  function NonNull(children: seq<nat>): nat
  {
    if children == [] then 0 else (if children[0] == 0 then 0 else 1) + NonNull(children[1..])
  }

  lemma {:induction false} NonNullUpdate(children: seq<nat>, i: nat, v: nat)
    requires i < |children|
    ensures NonNull(children[i := v]) ==
            NonNull(children) - (if children[i] == 0 then 0 else 1) + if v == 0 then 0 else 1
  {
    if i > 0 {
      NonNullUpdate(children[1..], i - 1, v);
      assert children[i := v][1..] == children[1..][i - 1 := v];
    } else {
      assert children[i := v][1..] == children[1..];
    }
  }

  lemma {:induction false} SomeNonNull(children: seq<nat>) returns (i: nat)
    requires NonNull(children) > 0
    ensures i < |children| && children[i] != 0
  {
    if children[0] != 0 {
      i := 0;
    } else {
      i := SomeNonNull(children[1..]);
      i := i + 1;
    }
  }

  lemma {:induction false} NoNonNull(children: seq<nat>)
    ensures NonNull(children) == 0 <==> forall i: nat :: i < |children| ==> children[i] == 0
  {
    if children != [] {
      NoNonNull(children[1..]);
      assert forall i: nat :: i < |children| && i > 0 ==> children[i] == children[1..][i - 1];
      assert forall i: nat :: i < |children[1..]| ==> children[1..][i] == children[i + 1];
    }
  }

  lemma HasNonNull(children: seq<nat>, i: nat)
    requires i < |children| && children[i] != 0
    ensures NonNull(children) > 0
  {
    NoNonNull(children);
  }

  function Child(name: Name, i: nat): Name
    requires name.0 > 0
  {
    (name.0 - 1, ALLNODESIZE * name.1 + i)
  }

  function Parent(name: Name): Name
  {
    (name.0 + 1, name.1 / ALLNODESIZE)
  }

  /** A node other than the root has a parent, and the children of inner nodes are those that exist. */
  ghost predicate NodeOk(tree: Tree, name: Name)
    requires name in tree
  {
    && |tree[name].children| == ALLNODESIZE
    && name.0 <= TOP_LEVEL && (name.0 == TOP_LEVEL ==> name == ROOT)
    && (name.0 < TOP_LEVEL ==> Parent(name) in tree)
    && (name.0 > 0 ==> forall i: nat :: i < ALLNODESIZE ==> LinkOk(tree, name, i))
  }

  ghost predicate LinkOk(tree: Tree, name: Name, i: nat)
    requires name in tree && name.0 > 0 && i < |tree[name].children|
  {
    tree[name].children[i] != 0 <==> Child(name, i) in tree
  }

  /** Counts are right, except that the count of a node of `off` is one too high. */
  ghost predicate CountOk(tree: Tree, name: Name, off: set<Name>)
    requires name in tree
  {
    tree[name].count == NonNull(tree[name].children) + if name in off then 1 else 0
  }

  /** Only the root and the nodes of `empty` may be empty. */
  ghost predicate FullOk(tree: Tree, name: Name, empty: set<Name>)
    requires name in tree
  {
    name != ROOT && name !in empty ==> NonNull(tree[name].children) > 0
  }

  ghost predicate TreeOk(tree: Tree, empty: set<Name>, off: set<Name>)
  {
    && ROOT in tree
    && forall name :: name in tree ==> NodeOk(tree, name) && CountOk(tree, name, off) && FullOk(tree, name, empty)
  }

  /** The address stored for a number, null if there is none. */
  ghost function Leaf(tree: Tree, c: nat): nat
  {
    var name := OnPath(c, 0);
    if name in tree && |tree[name].children| == ALLNODESIZE then tree[name].children[Digit(c, 0)] else 0
  }

  /** The node at a level on the way to `c`. */
  function OnPath(c: nat, level: nat): Name
  {
    (level, Above(c, level + 1))
  }

  lemma PathStep(c: nat, level: nat)
    ensures OnPath(c, level + 1) == Parent(OnPath(c, level))
    ensures OnPath(c, level) == Child(OnPath(c, level + 1), Digit(c, level + 1))
  {
    AboveStep(c, level + 1);
  }

  /** Every node on the way to a number with a leaf exists. */
  lemma {:induction false} PathExists(tree: Tree, empty: set<Name>, off: set<Name>, c: nat, level: nat)
    requires TreeOk(tree, empty, off) && Leaf(tree, c) != 0 && level <= TOP_LEVEL
    ensures OnPath(c, level) in tree && NodeOk(tree, OnPath(c, level)) && tree[OnPath(c, level)].children[Digit(c, level)] != 0
  {
    if level > 0 {
      hide Above, Digit;
      PathExists(tree, empty, off, c, level - 1);
      PathStep(c, level - 1);
      assert NodeOk(tree, OnPath(c, level - 1));
      assert NodeOk(tree, OnPath(c, level));
      assert LinkOk(tree, OnPath(c, level), Digit(c, level));
    }
  }

  // ----- findPrev -----

  /** No number below `clock` that is beyond `index` at this level has a leaf. */
  ghost predicate NoneBeyond(tree: Tree, level: nat, index: int, clock: nat)
  {
    forall c: nat :: c < clock && Above(index, level) < Above(c, level) ==> Leaf(tree, c) == 0
  }

  /** A null child has no leaf below it. */
  lemma NullChild(tree: Tree, empty: set<Name>, off: set<Name>, name: Name, index: int, clock: nat)
    requires TreeOk(tree, empty, off) && name in tree && Above(index, name.0 + 1) == name.1
    requires tree[name].children[Digit(index, name.0)] == 0 && NoneBeyond(tree, name.0, index, clock)
    ensures NoneBeyond(tree, name.0, index - Pow16(name.0), clock)
  {
    hide Above;
    assert NodeOk(tree, name);
    AboveMinus(index, name.0);
    AboveStep(index, name.0);
    forall c: nat | c < clock && Above(c, name.0) == Above(index, name.0)
      ensures Leaf(tree, c) == 0
    {
      if Leaf(tree, c) != 0 {
        PathExists(tree, empty, off, c, name.0);
        AboveStep(c, name.0);
      }
    }
  }

  /** What findPrev finds: the leaf of the largest number below `clock`, null if there is none. */
  ghost predicate IsPrev(tree: Tree, clock: nat, leaf: nat)
  {
    if leaf == 0 then forall c: nat :: c < clock ==> Leaf(tree, c) == 0
    else exists c: nat :: LastBelow(tree, clock, c, leaf)
  }

  ghost predicate LastBelow(tree: Tree, clock: nat, c: nat, leaf: nat)
  {
    c < clock && Leaf(tree, c) == leaf && forall d: nat :: c < d < clock ==> Leaf(tree, d) == 0
  }

  lemma FoundLeaf(tree: Tree, name: Name, index: int, clock: nat)
    requires name in tree && NodeOk(tree, name) && name.0 == 0 && Above(index, 1) == name.1 && 0 <= index < clock
    requires tree[name].children[Digit(index, 0)] != 0 && NoneBeyond(tree, 0, index, clock)
    ensures IsPrev(tree, clock, tree[name].children[Digit(index, 0)])
  {
    assert OnPath(index, 0) == name;
    assert LastBelow(tree, clock, index, tree[name].children[Digit(index, 0)]);
  }

  /** Down to the child at this digit, below which all digits are ones. */
  lemma BeyondDown(tree: Tree, level: nat, index: int, clock: nat)
    requires NoneBeyond(tree, level + 1, index, clock) && LowOnes(index, level + 1)
    ensures NoneBeyond(tree, level, index, clock) && Digit(index, level) == ALLMASK
  {
    hide Above;
    LowOnesStep(index, level);
    AboveStep(index, level);
    forall c: nat | c < clock && Above(index, level) < Above(c, level)
      ensures Leaf(tree, c) == 0
    {
      AboveStep(c, level);
      assert Above(index, level + 1) < Above(c, level + 1);
    }
  }

  /** Up to the parent, when the digit has passed zero. */
  lemma BeyondUp(tree: Tree, name: Name, index: int, clock: nat)
    requires NoneBeyond(tree, name.0, index, clock) && LowOnes(index, name.0) && Above(index, name.0) == ALLNODESIZE * name.1 - 1
    ensures NoneBeyond(tree, name.0 + 1, index, clock) && LowOnes(index, name.0 + 1) && Above(index, name.0 + 1) == name.1 - 1
  {
    hide Above;
    LowOnesStep(index, name.0);
    AboveStep(index, name.0);
    forall c: nat | c < clock && Above(index, name.0 + 1) < Above(c, name.0 + 1)
      ensures Leaf(tree, c) == 0
    {
      AboveStep(c, name.0);
      assert Above(index, name.0) < Above(c, name.0);
    }
  }

  ghost predicate HasUpTo(children: seq<nat>, d: nat)
  {
    exists i: nat :: i <= d && i < |children| && children[i] != 0
  }

  /** The node after the last digit of `clock` is the only one that may be empty. */
  ghost predicate OnlyNew(empty: set<Name>, clock: nat)
  {
    forall name :: name in empty ==> name == OnPath(clock, 0)
  }

  lemma ChildFull(tree: Tree, empty: set<Name>, name: Name, index: int, clock: nat)
    requires TreeOk(tree, empty, {}) && OnlyNew(empty, clock) && name in tree && name != ROOT
    requires Above(index, name.0 + 1) == name.1 && LowOnes(index, name.0 + 1) && index < clock
    ensures |tree[name].children| == ALLNODESIZE && HasUpTo(tree[name].children, ALLMASK)
  {
    assert NodeOk(tree, name) && FullOk(tree, name, empty);
    LowOnesStep(index, 0);
    assert Above(index, 1) == index / ALLNODESIZE && Above(clock, 1) == clock / ALLNODESIZE;
    assert name !in empty;
    var i := SomeNonNull(tree[name].children);
  }

  /** From a node whose leaves all come before `clock`, down to the last of them. */
  method FindLast(tree: Tree, ghost empty: set<Name>, name: Name, from: int, clock: nat) returns (leaf: nat)
    requires TreeOk(tree, empty, {}) && OnlyNew(empty, clock) && name in tree && name != ROOT
    requires Above(from, name.0 + 1) == name.1 && LowOnes(from, name.0 + 1) && from < clock
    requires NoneBeyond(tree, name.0 + 1, from, clock)
    ensures IsPrev(tree, clock, leaf)
  {
    hide Above, TreeOk, NoneBeyond, IsPrev, LowOnes, Pow16;
    var ptr, index, level := name, from, name.0;
    ChildFull(tree, empty, ptr, index, clock);
    BeyondDown(tree, level, index, clock);
    LowOnesStep(index, level);
    while true
      invariant ptr in tree && ptr != ROOT && ptr.0 == level && index < clock
      invariant Above(index, level + 1) == ptr.1 && LowOnes(index, level) && NoneBeyond(tree, level, index, clock)
      invariant |tree[ptr].children| == ALLNODESIZE && HasUpTo(tree[ptr].children, Digit(index, level))
      decreases level, Digit(index, level)
    {
      var currindex := Digit(index, level);
      AboveStep(index, level);
      if tree[ptr].children[currindex] == 0 {
        LastStep(tree, empty, ptr, index, clock);
        index := index - Pow16(level);
      } else if level == 0 {
        LastFound(tree, empty, ptr, index, clock);
        return tree[ptr].children[currindex];
      } else {
        Descend(tree, empty, ptr, index, clock);
        ptr, level := Child(ptr, currindex), level - 1;
        ChildFull(tree, empty, ptr, index, clock);
        BeyondDown(tree, level, index, clock);
        LowOnesStep(index, level);
      }
    }
  }

  lemma LastStep(tree: Tree, empty: set<Name>, name: Name, index: int, clock: nat)
    requires TreeOk(tree, empty, {}) && name in tree && |tree[name].children| == ALLNODESIZE
    requires Above(index, name.0 + 1) == name.1 && LowOnes(index, name.0) && NoneBeyond(tree, name.0, index, clock)
    requires tree[name].children[Digit(index, name.0)] == 0 && HasUpTo(tree[name].children, Digit(index, name.0))
    ensures var after := index - Pow16(name.0);
            && after < index && Above(after, name.0 + 1) == name.1 && LowOnes(after, name.0) && NoneBeyond(tree, name.0, after, clock)
            && HasUpTo(tree[name].children, Digit(after, name.0)) && Digit(after, name.0) == Digit(index, name.0) - 1
  {
    hide Above, TreeOk, NoneBeyond, LowOnes, Pow16, NonNull, HasUpTo;
    PrevStep(tree, empty, name, index, clock);
    HasLess(tree[name].children, Digit(index, name.0));
    DigitMinus(index, index - Pow16(name.0), name.0);
  }

  lemma HasLess(children: seq<nat>, d: nat)
    requires HasUpTo(children, d) && d < |children| && children[d] == 0
    ensures d > 0 && HasUpTo(children, d - 1)
  {
  }

  lemma DigitMinus(index: int, after: int, level: nat)
    requires Above(after, level) == Above(index, level) - 1 && Digit(index, level) > 0
    ensures Above(after, level + 1) == Above(index, level + 1) && Digit(after, level) == Digit(index, level) - 1
  {
    AboveStep(index, level);
    AboveStep(after, level);
  }

  lemma {:induction false} Pow16Positive(n: nat)
    ensures Pow16(n) > 0
  {
    if n > 0 {
      Pow16Positive(n - 1);
    }
  }

  lemma LastFound(tree: Tree, empty: set<Name>, name: Name, index: int, clock: nat)
    requires TreeOk(tree, empty, {}) && name in tree && name.0 == 0 && |tree[name].children| == ALLNODESIZE
    requires Above(index, 1) == name.1 && index < clock && NoneBeyond(tree, 0, index, clock)
    requires tree[name].children[Digit(index, 0)] != 0
    ensures IsPrev(tree, clock, tree[name].children[Digit(index, 0)])
  {
    assert NodeOk(tree, name);
    FoundLeaf(tree, name, index, clock);
  }

  /** The child at the digit is a node, named by the digits of the index. */
  lemma Descend(tree: Tree, empty: set<Name>, name: Name, index: int, clock: nat)
    requires TreeOk(tree, empty, {}) && name in tree && name.0 > 0 && |tree[name].children| == ALLNODESIZE
    requires Above(index, name.0 + 1) == name.1 && tree[name].children[Digit(index, name.0)] != 0
    ensures var child := Child(name, Digit(index, name.0));
            child in tree && child != ROOT && Above(index, name.0) == child.1
  {
    hide Above;
    assert NodeOk(tree, name);
    assert LinkOk(tree, name, Digit(index, name.0));
    AboveStep(index, name.0);
  }

  /** The search is at this node, with the index in it or just before it. */
  ghost predicate Searching(tree: Tree, name: Name, index: int, clock: nat)
  {
    && name in tree && name.0 <= TOP_LEVEL && |tree[name].children| == ALLNODESIZE && index < clock
    && ALLNODESIZE * name.1 - 1 <= Above(index, name.0) < ALLNODESIZE * name.1 + ALLMASK
    && LowOnes(index, name.0) && NoneBeyond(tree, name.0, index, clock)
  }

  /** How many children of the node are still to try. */
  ghost function ToTry(name: Name, index: int): int
  {
    Above(index, name.0) - ALLNODESIZE * name.1 + 1
  }

  /** The leaf before `clock`, searched from the node where the leaf of `clock` belongs. */
  method FindPrev(tree: Tree, ghost empty: set<Name>, name: Name, clock: nat) returns (leaf: nat)
    requires TreeOk(tree, empty, {}) && OnlyNew(empty, clock) && name == OnPath(clock, 0) && name in tree
    ensures IsPrev(tree, clock, leaf)
  {
    var ptr, index: int, level: nat := name, clock - 1, 0;
    SearchStart(tree, empty, clock);
    hide *;
    while true
      invariant Searching(tree, ptr, index, clock) && ptr.0 == level
      decreases TOP_LEVEL - level, ToTry(ptr, index)
    {
      var currindex := Digit(index, level);
      SearchHere(tree, ptr, index, clock);
      if currindex != ALLMASK {
        if tree[ptr].children[currindex] == 0 {
          SearchOn(tree, empty, ptr, index, clock);
          index := index - Pow16(level);
          continue;
        }
        SearchFound(tree, empty, ptr, index, clock);
        if level == 0 {
          return tree[ptr].children[currindex];
        }
        leaf := FindLast(tree, empty, Child(ptr, currindex), index, clock);
        return;
      }
      SearchUp(tree, empty, ptr, index, clock);
      if level == TOP_LEVEL {
        return 0;
      }
      ptr, level := Parent(ptr), level + 1;
    }
  }

  lemma SearchStart(tree: Tree, empty: set<Name>, clock: nat)
    requires TreeOk(tree, empty, {}) && OnPath(clock, 0) in tree
    ensures Searching(tree, OnPath(clock, 0), clock - 1, clock) && OnPath(clock, 0).0 == 0
  {
    assert NodeOk(tree, OnPath(clock, 0));
  }

  lemma SearchHere(tree: Tree, name: Name, index: int, clock: nat)
    requires Searching(tree, name, index, clock)
    ensures name in tree && |tree[name].children| == ALLNODESIZE && name.0 <= TOP_LEVEL && ToTry(name, index) >= 0
  {
  }

  lemma SearchOn(tree: Tree, empty: set<Name>, name: Name, index: int, clock: nat)
    requires TreeOk(tree, empty, {}) && Searching(tree, name, index, clock)
    requires Digit(index, name.0) != ALLMASK && tree[name].children[Digit(index, name.0)] == 0
    ensures Searching(tree, name, index - Pow16(name.0), clock)
    ensures 0 <= ToTry(name, index - Pow16(name.0)) < ToTry(name, index)
  {
    InNode(index, name.0, name.1);
    hide Above, TreeOk, NoneBeyond, LowOnes, Pow16, Digit;
    PrevStep(tree, empty, name, index, clock);
  }

  lemma SearchFound(tree: Tree, empty: set<Name>, name: Name, index: int, clock: nat)
    requires TreeOk(tree, empty, {}) && Searching(tree, name, index, clock)
    requires Digit(index, name.0) != ALLMASK && tree[name].children[Digit(index, name.0)] != 0
    ensures name.0 == 0 ==> IsPrev(tree, clock, tree[name].children[Digit(index, 0)])
    ensures name.0 > 0 ==>
              var child := Child(name, Digit(index, name.0));
              && child in tree && child != ROOT && Above(index, child.0 + 1) == child.1 && LowOnes(index, child.0 + 1)
              && index < clock && NoneBeyond(tree, child.0 + 1, index, clock)
  {
    InNode(index, name.0, name.1);
    hide Above, TreeOk, NoneBeyond, LowOnes, IsPrev, Digit;
    if name.0 == 0 {
      LastFound(tree, empty, name, index, clock);
    } else {
      Descend(tree, empty, name, index, clock);
    }
  }

  lemma SearchUp(tree: Tree, empty: set<Name>, name: Name, index: int, clock: nat)
    requires TreeOk(tree, empty, {}) && Searching(tree, name, index, clock) && Digit(index, name.0) == ALLMASK
    ensures name.0 == TOP_LEVEL ==> IsPrev(tree, clock, 0)
    ensures name.0 < TOP_LEVEL ==> Searching(tree, Parent(name), index, clock) && Parent(name).0 == name.0 + 1
  {
    InNode(index, name.0, name.1);
    hide Above, TreeOk, NoneBeyond, LowOnes, IsPrev, Digit;
    BeyondUp(tree, name, index, clock);
    if name.0 == TOP_LEVEL {
      NothingBefore(tree, empty, name, index, clock);
    } else {
      ParentOk(tree, empty, name);
    }
  }

  lemma PrevStep(tree: Tree, empty: set<Name>, name: Name, index: int, clock: nat)
    requires TreeOk(tree, empty, {}) && name in tree && |tree[name].children| == ALLNODESIZE
    requires Above(index, name.0 + 1) == name.1 && LowOnes(index, name.0) && NoneBeyond(tree, name.0, index, clock)
    requires tree[name].children[Digit(index, name.0)] == 0
    ensures var after := index - Pow16(name.0);
            after < index && Above(after, name.0) == Above(index, name.0) - 1 && LowOnes(after, name.0) && NoneBeyond(tree, name.0, after, clock)
  {
    hide Above;
    Pow16Positive(name.0);
    NullChild(tree, empty, {}, name, index, clock);
    AboveMinus(index, name.0);
  }

  /** Whether the index is still in the node, or its digit has passed zero. */
  lemma InNode(index: int, level: nat, p: nat)
    requires ALLNODESIZE * p - 1 <= Above(index, level) < ALLNODESIZE * p + ALLMASK
    ensures Digit(index, level) == ALLMASK ==> Above(index, level) == ALLNODESIZE * p - 1
    ensures Digit(index, level) != ALLMASK ==> Above(index, level + 1) == p && ALLNODESIZE * p <= Above(index, level)
  {
    AboveStep(index, level);
  }

  lemma ParentOk(tree: Tree, empty: set<Name>, name: Name)
    requires TreeOk(tree, empty, {}) && name in tree && name.0 < TOP_LEVEL
    ensures var p := Parent(name);
            && p in tree && |tree[p].children| == ALLNODESIZE && p.0 == name.0 + 1
            && ALLNODESIZE * p.1 - 1 <= name.1 - 1 < ALLNODESIZE * p.1 + ALLMASK
  {
    assert NodeOk(tree, name);
    assert NodeOk(tree, Parent(name));
  }

  /** Past the root there is nothing. */
  lemma NothingBefore(tree: Tree, empty: set<Name>, name: Name, index: int, clock: nat)
    requires TreeOk(tree, empty, {}) && name in tree && name.0 == TOP_LEVEL
    requires NoneBeyond(tree, name.0 + 1, index, clock) && Above(index, name.0 + 1) == name.1 - 1
    ensures IsPrev(tree, clock, 0)
  {
    assert NodeOk(tree, name);
  }

  // ----- Changing the tree -----

  ghost predicate SameLeaves(before: Tree, after: Tree)
  {
    forall c: nat :: Leaf(after, c) == Leaf(before, c)
  }

  const NO_CHILDREN: seq<nat> := [0, 0, 0, 0, 0, 0, 0, 0, 0, 0, 0, 0, 0, 0, 0, 0]

  function WithChild(tree: Tree, name: Name, i: nat, v: nat, count: int): Tree
    requires name in tree && i < |tree[name].children|
  {
    tree[name := AllNode(count, tree[name].children[i := v])]
  }

  lemma ChildParent(name: Name, i: nat)
    requires 0 < name.0 <= TOP_LEVEL && i < ALLNODESIZE
    ensures Parent(Child(name, i)) == name && Child(name, i) != name && Child(name, i) != ROOT
    ensures forall j: nat :: j < ALLNODESIZE && Child(name, j) == Child(name, i) ==> j == i
    ensures forall other: Name, j: nat :: other.0 > 0 && j < ALLNODESIZE && Child(other, j) == Child(name, i) ==> other == name && j == i
  {
  }

  /** A node made on the way down. */
  lemma MakeChild(tree: Tree, name: Name, i: nat)
    requires TreeOk(tree, {name}, {}) && name in tree && name.0 > 0 && i < ALLNODESIZE && |tree[name].children| == ALLNODESIZE
    requires tree[name].children[i] == 0
    ensures var after := WithChild(tree, name, i, 1, tree[name].count + 1)[Child(name, i) := AllNode(0, NO_CHILDREN)];
            TreeOk(after, {Child(name, i)}, {}) && SameLeaves(tree, after)
  {
    hide Above, NonNull, Leaf, SameLeaves;
    var child := Child(name, i);
    var after := WithChild(tree, name, i, 1, tree[name].count + 1)[child := AllNode(0, NO_CHILDREN)];
    assert NodeOk(tree, name) && LinkOk(tree, name, i) && CountOk(tree, name, {});
    MakeChildLeaves(tree, name, i);
    ChildParent(name, i);
    NonNullUpdate(tree[name].children, i, 1);
    NoNonNull(NO_CHILDREN);
    forall other | other in after
      ensures NodeOk(after, other) && CountOk(after, other, {}) && FullOk(after, other, {child})
    {
      if other != child {
        assert NodeOk(tree, other) && CountOk(tree, other, {}) && FullOk(tree, other, {name});
        if other.0 > 0 {
          forall j: nat | j < ALLNODESIZE
            ensures LinkOk(after, other, j)
          {
            assert LinkOk(tree, other, j);
            ChildParent(other, j);
          }
        }
      } else if child.0 > 0 {
        forall j: nat | j < ALLNODESIZE
          ensures LinkOk(after, child, j)
        {
          ChildParent(child, j);
          assert Child(child, j) in tree ==> NodeOk(tree, Child(child, j));
        }
      }
    }
  }

  lemma MakeChildLeaves(tree: Tree, name: Name, i: nat)
    requires name in tree && name.0 > 0 && i < |tree[name].children| && Child(name, i) !in tree
    ensures SameLeaves(tree, WithChild(tree, name, i, 1, tree[name].count + 1)[Child(name, i) := AllNode(0, NO_CHILDREN)])
  {
  }

  /** Leaving a node that was there, or is not empty any more. */
  lemma NotEmpty(tree: Tree, name: Name, i: nat, child: Name)
    requires TreeOk(tree, {name}, {}) && name in tree && i < ALLNODESIZE && |tree[name].children| == ALLNODESIZE
    requires tree[name].children[i] != 0
    ensures TreeOk(tree, {child}, {})
  {
    NoNonNull(tree[name].children);
    forall other | other in tree
      ensures NodeOk(tree, other) && CountOk(tree, other, {}) && FullOk(tree, other, {child})
    {
      assert NodeOk(tree, other) && CountOk(tree, other, {}) && FullOk(tree, other, {name});
    }
  }

  /** The tree with all nodes of the path down to `name`. */
  ghost predicate MadeTo(tree: Tree, after: Tree, clock: nat, name: Name)
  {
    && name == OnPath(clock, name.0) && name in after && |after[name].children| == ALLNODESIZE
    && TreeOk(after, {name}, {}) && SameLeaves(tree, after)
  }

  /** Down to the node where the leaf of `clock` belongs, making nodes on the way. */
  method MakePath(tree: Tree, clock: nat) returns (after: Tree)
    requires TreeOk(tree, {}, {}) && clock < CLOCKS
    ensures MadeTo(tree, after, clock, OnPath(clock, 0))
  {
    after := tree;
    var ptr := ROOT;
    var level: nat := TOP_LEVEL;
    PathStart(tree, clock);
    hide MadeTo, Digit, OnPath, WithChild;
    while level > 0
      invariant level <= TOP_LEVEL && ptr.0 == level && MadeTo(tree, after, clock, ptr)
    {
      var currindex := Digit(clock, level);
      PathHere(tree, after, clock, ptr);
      var child := Child(ptr, currindex);
      if after[ptr].children[currindex] == 0 {
        PathMade(tree, after, clock, ptr);
        after := WithChild(after, ptr, currindex, 1, after[ptr].count + 1)[child := AllNode(0, NO_CHILDREN)];
      } else {
        PathGoesOn(tree, after, clock, ptr);
      }
      ptr, level := child, level - 1;
    }
    PathEnds(tree, after, clock, ptr);
  }

  lemma PathStart(tree: Tree, clock: nat)
    requires TreeOk(tree, {}, {}) && clock < CLOCKS
    ensures MadeTo(tree, tree, clock, ROOT)
  {
    RootOnPath(clock);
    LessEmpty(tree, ROOT);
    assert NodeOk(tree, ROOT);
  }

  lemma PathHere(tree: Tree, after: Tree, clock: nat, name: Name)
    requires MadeTo(tree, after, clock, name)
    ensures name in after && |after[name].children| == ALLNODESIZE
  {
  }

  lemma PathMade(tree: Tree, after: Tree, clock: nat, name: Name)
    requires MadeTo(tree, after, clock, name) && 0 < name.0 && after[name].children[Digit(clock, name.0)] == 0
    ensures var i := Digit(clock, name.0);
            MadeTo(tree, WithChild(after, name, i, 1, after[name].count + 1)[Child(name, i) := AllNode(0, NO_CHILDREN)], clock, Child(name, i))
  {
    var i := Digit(clock, name.0);
    PathStep(clock, name.0 - 1);
    hide Above, TreeOk, SameLeaves, Digit;
    MakeChild(after, name, i);
    SameThrough(tree, after, WithChild(after, name, i, 1, after[name].count + 1)[Child(name, i) := AllNode(0, NO_CHILDREN)]);
  }

  lemma PathGoesOn(tree: Tree, after: Tree, clock: nat, name: Name)
    requires MadeTo(tree, after, clock, name) && 0 < name.0 && after[name].children[Digit(clock, name.0)] != 0
    ensures MadeTo(tree, after, clock, Child(name, Digit(clock, name.0)))
  {
    var i := Digit(clock, name.0);
    PathStep(clock, name.0 - 1);
    hide Above, TreeOk, SameLeaves, Digit;
    ChildThere(after, {name}, name, i);
    NodeThere(after, {name}, Child(name, i));
    NotEmpty(after, name, i, Child(name, i));
  }

  lemma PathEnds(tree: Tree, after: Tree, clock: nat, name: Name)
    requires MadeTo(tree, after, clock, name) && name.0 == 0
    ensures MadeTo(tree, after, clock, OnPath(clock, 0))
  {
  }

  lemma RootOnPath(clock: nat)
    requires clock < CLOCKS
    ensures OnPath(clock, TOP_LEVEL) == ROOT
  {
    assert Pow16(TOP_LEVEL + 1) == CLOCKS;
    NothingAbove(clock, TOP_LEVEL + 1);
  }

  lemma {:induction false} NothingAbove(c: nat, level: nat)
    requires c < Pow16(level)
    ensures Above(c, level) == 0
    decreases level
  {
    if level > 0 {
      NothingAbove(c / ALLNODESIZE, level - 1);
    }
  }

  lemma LessEmpty(tree: Tree, name: Name)
    requires TreeOk(tree, {}, {})
    ensures TreeOk(tree, {name}, {}) && SameLeaves(tree, tree)
  {
    forall other | other in tree
      ensures NodeOk(tree, other) && CountOk(tree, other, {}) && FullOk(tree, other, {name})
    {
      assert NodeOk(tree, other) && CountOk(tree, other, {}) && FullOk(tree, other, {});
    }
  }

  lemma NodeThere(tree: Tree, empty: set<Name>, name: Name)
    requires TreeOk(tree, empty, {}) && name in tree
    ensures |tree[name].children| == ALLNODESIZE
  {
    assert NodeOk(tree, name);
  }

  lemma ChildThere(tree: Tree, empty: set<Name>, name: Name, i: nat)
    requires TreeOk(tree, empty, {}) && name in tree && name.0 > 0 && i < ALLNODESIZE && |tree[name].children| == ALLNODESIZE
    requires tree[name].children[i] != 0
    ensures Child(name, i) in tree
  {
    assert NodeOk(tree, name) && LinkOk(tree, name, i);
  }

  lemma SameThrough(a: Tree, b: Tree, c: Tree)
    requires SameLeaves(a, b) && SameLeaves(b, c)
    ensures SameLeaves(a, c)
  {
    forall d: nat
      ensures Leaf(c, d) == Leaf(a, d)
    {
      assert Leaf(c, d) == Leaf(b, d);
    }
  }

  /** Only the leaf of `clock` changes. */
  ghost predicate LeafSet(before: Tree, after: Tree, clock: nat, leaf: nat)
  {
    forall c: nat :: Leaf(after, c) == if c == clock then leaf else Leaf(before, c)
  }

  lemma ChildWritten(tree: Tree, name: Name, i: nat, v: nat, count: int)
    requires name in tree && i < |tree[name].children|
    ensures var after := WithChild(tree, name, i, v, count);
            && after.Keys == tree.Keys && after[name] == AllNode(count, tree[name].children[i := v])
            && forall n :: n in tree && n != name ==> after[n] == tree[n]
  {
  }

  /** Leaves do not matter to the links. */
  lemma SameLinks(tree: Tree, after: Tree, name: Name, other: Name)
    requires name in tree && name.0 == 0 && after.Keys == tree.Keys
    requires forall n :: n in tree && n != name ==> after[n].children == tree[n].children
    requires |after[name].children| == ALLNODESIZE
    requires other in tree && NodeOk(tree, other)
    ensures NodeOk(after, other)
  {
    forall j: nat | j < ALLNODESIZE && other.0 > 0
      ensures LinkOk(after, other, j)
    {
      assert LinkOk(tree, other, j);
    }
  }

  /** Storing a leaf; the count goes up if there was none. */
  lemma StoreLeaf(tree: Tree, clock: nat, leaf: nat)
    requires TreeOk(tree, {OnPath(clock, 0)}, {}) && OnPath(clock, 0) in tree && |tree[OnPath(clock, 0)].children| == ALLNODESIZE
    requires leaf != 0
    ensures var name, i := OnPath(clock, 0), Digit(clock, 0);
            var after := WithChild(tree, name, i, leaf, tree[name].count + if tree[name].children[i] == 0 then 1 else 0);
            TreeOk(after, {}, {}) && LeafSet(tree, after, clock, leaf)
  {
    var name, i := OnPath(clock, 0), Digit(clock, 0);
    var count := tree[name].count + if tree[name].children[i] == 0 then 1 else 0;
    var after := WithChild(tree, name, i, leaf, count);
    ChildWritten(tree, name, i, leaf, count);
    LeafAt(tree, after, clock, leaf);
    assert name.0 == 0 && CountOk(tree, name, {});
    assert tree[name].count == NonNull(tree[name].children);
    assert after[name].children[i] == leaf;
    hide *;
    NonNullUpdate(tree[name].children, i, leaf);
    HasNonNull(after[name].children, i);
    StoredNode(tree, after, name);
  }

  lemma StoredNode(tree: Tree, after: Tree, name: Name)
    requires TreeOk(tree, {name}, {}) && name in tree && name.0 == 0 && after.Keys == tree.Keys
    requires forall n :: n in tree && n != name ==> after[n] == tree[n]
    requires |after[name].children| == ALLNODESIZE && after[name].count == NonNull(after[name].children) > 0
    ensures TreeOk(after, {}, {})
  {
    hide NonNull, NodeOk;
    forall other | other in after
      ensures NodeOk(after, other) && CountOk(after, other, {}) && FullOk(after, other, {})
    {
      assert NodeOk(tree, other) && CountOk(tree, other, {}) && FullOk(tree, other, {name});
      SameLinks(tree, after, name, other);
    }
  }

  /** The leaves of a node are told apart by the last digit. */
  lemma LeafAt(tree: Tree, after: Tree, clock: nat, leaf: nat)
    requires OnPath(clock, 0) in tree && |tree[OnPath(clock, 0)].children| == ALLNODESIZE
    requires OnPath(clock, 0) in after && after[OnPath(clock, 0)].children == tree[OnPath(clock, 0)].children[Digit(clock, 0) := leaf]
    requires after.Keys == tree.Keys && forall name :: name in tree && name != OnPath(clock, 0) ==> after[name] == tree[name]
    ensures LeafSet(tree, after, clock, leaf)
  {
    forall c: nat
      ensures Leaf(after, c) == if c == clock then leaf else Leaf(tree, c)
    {
      assert Above(c, 1) == c / ALLNODESIZE && Above(clock, 1) == clock / ALLNODESIZE;
    }
  }

  /** Taking a leaf away; its node now has a count one too high, and may be empty. */
  lemma ClearedLeaf(tree: Tree, clock: nat)
    requires TreeOk(tree, {}, {}) && Leaf(tree, clock) != 0
    ensures var name, i := OnPath(clock, 0), Digit(clock, 0);
            && name in tree && |tree[name].children| == ALLNODESIZE
            && var after := WithChild(tree, name, i, 0, tree[name].count);
            TreeOk(after, {name}, {name}) && LeafSet(tree, after, clock, 0)
  {
    var name, i := OnPath(clock, 0), Digit(clock, 0);
    assert NodeOk(tree, name) && CountOk(tree, name, {});
    var after := WithChild(tree, name, i, 0, tree[name].count);
    ChildWritten(tree, name, i, 0, tree[name].count);
    LeafAt(tree, after, clock, 0);
    assert name.0 == 0;
    hide NonNull, Above, Leaf, LeafSet, Digit, OnPath, NodeOk, WithChild;
    NonNullUpdate(tree[name].children, i, 0);
    forall other | other in after
      ensures NodeOk(after, other) && CountOk(after, other, {name}) && FullOk(after, other, {name})
    {
      assert NodeOk(tree, other) && CountOk(tree, other, {}) && FullOk(tree, other, {});
      SameLinks(tree, after, name, other);
    }
  }

  /** The count put right. */
  lemma CountDown(tree: Tree, name: Name)
    requires TreeOk(tree, {name}, {name}) && name in tree
    ensures var after := tree[name := AllNode(tree[name].count - 1, tree[name].children)];
            && TreeOk(after, {name}, {}) && SameLeaves(tree, after)
            && (after[name].count == 0 <==> NonNull(after[name].children) == 0)
            && (after[name].count != 0 || name == ROOT ==> TreeOk(after, {}, {}))
  {
    hide NonNull, Above;
    var after := tree[name := AllNode(tree[name].count - 1, tree[name].children)];
    assert CountOk(tree, name, {name});
    forall other | other in after
      ensures NodeOk(after, other) && CountOk(after, other, {}) && FullOk(after, other, {name})
      ensures after[name].count != 0 || name == ROOT ==> FullOk(after, other, {})
    {
      assert NodeOk(tree, other) && CountOk(tree, other, {name}) && FullOk(tree, other, {name});
      forall j: nat | j < ALLNODESIZE && other.0 > 0
        ensures LinkOk(after, other, j)
      {
        assert LinkOk(tree, other, j);
      }
    }
    forall c: nat
      ensures Leaf(after, c) == Leaf(tree, c)
    {
    }
  }

  lemma NoChildOf(tree: Tree, name: Name, other: Name)
    requires name in tree && NodeOk(tree, name) && forall i: nat :: i < ALLNODESIZE ==> tree[name].children[i] == 0
    requires other in tree
    ensures Parent(other) != name
  {
    var d := other.1 % ALLNODESIZE;
    assert name.0 > 0 ==> LinkOk(tree, name, d);
    assert other == (other.0, ALLNODESIZE * Parent(other).1 + d);
  }

  /** An empty node goes, and leaves its parent with a count one too high. */
  lemma RemoveNode(tree: Tree, name: Name)
    requires TreeOk(tree, {name}, {}) && name in tree && name != ROOT && NonNull(tree[name].children) == 0
    ensures var p, i := Parent(name), name.1 % ALLNODESIZE;
            && p in tree && |tree[p].children| == ALLNODESIZE
            && var after := WithChild(tree, p, i, 0, tree[p].count) - {name};
            p in after && TreeOk(after, {p}, {p}) && SameLeaves(tree, after)
  {
    RemoveNodeLeaves(tree, name);
    hide Above, NonNull, Leaf, SameLeaves;
    var p, i := Parent(name), name.1 % ALLNODESIZE;
    assert NodeOk(tree, name) && NodeOk(tree, p) && CountOk(tree, p, {});
    assert Child(p, i) == name;
    assert LinkOk(tree, p, i);
    var after := WithChild(tree, p, i, 0, tree[p].count) - {name};
    NonNullUpdate(tree[p].children, i, 0);
    NoNonNull(tree[name].children);
    ChildParent(p, i);
    forall other | other in after
      ensures NodeOk(after, other) && CountOk(after, other, {p}) && FullOk(after, other, {p})
    {
      assert NodeOk(tree, other) && CountOk(tree, other, {}) && FullOk(tree, other, {name});
      NoChildOf(tree, name, other);
      forall j: nat | j < ALLNODESIZE && other.0 > 0
        ensures LinkOk(after, other, j)
      {
        assert LinkOk(tree, other, j);
        ChildParent(other, j);
      }
    }
  }

  lemma RemoveNodeLeaves(tree: Tree, name: Name)
    requires TreeOk(tree, {name}, {}) && name in tree && name != ROOT && NonNull(tree[name].children) == 0
    ensures var p, i := Parent(name), name.1 % ALLNODESIZE;
            && p in tree && |tree[p].children| == ALLNODESIZE
            && SameLeaves(tree, WithChild(tree, p, i, 0, tree[p].count) - {name})
  {
    hide Above;
    assert NodeOk(tree, name) && NodeOk(tree, Parent(name));
    NoNonNull(tree[name].children);
  }

  /** Puts the count of a node right and removes it, and so on upwards, if it has become empty. */
  method DecrementCount(tree: Tree, name: Name) returns (after: Tree)
    requires TreeOk(tree, {name}, {name}) && name in tree
    ensures TreeOk(after, {}, {}) && SameLeaves(tree, after)
    decreases TOP_LEVEL - name.0
  {
    CountDown(tree, name);
    after := tree[name := AllNode(tree[name].count - 1, tree[name].children)];
    if after[name].count == 0 && name != ROOT {
      RemoveNode(after, name);
      assert NodeOk(tree, name);
      var p := Parent(name);
      hide TreeOk, SameLeaves;
      var before := after;
      after := WithChild(after, p, name.1 % ALLNODESIZE, 0, after[p].count) - {name};
      SameThrough(tree, before, after);
      var up := DecrementCount(after, p);
      SameThrough(tree, after, up);
      after := up;
    }
  }

  /** Removes the leaf of `clock` and whatever is empty without it. */
  method RemoveLeaf(tree: Tree, clock: nat) returns (after: Tree)
    requires TreeOk(tree, {}, {}) && Leaf(tree, clock) != 0
    ensures TreeOk(after, {}, {}) && LeafSet(tree, after, clock, 0)
  {
    var name, i := OnPath(clock, 0), Digit(clock, 0);
    ClearedLeaf(tree, clock);
    var cleared := WithChild(tree, name, i, 0, tree[name].count);
    after := DecrementCount(cleared, name);
  }

  /** The tree is empty exactly if the root has no child. */
  lemma EmptyTree(tree: Tree)
    requires TreeOk(tree, {}, {})
    ensures tree[ROOT].count == 0 <==> forall c: nat :: c < CLOCKS ==> Leaf(tree, c) == 0
  {
    assert NodeOk(tree, ROOT) && CountOk(tree, ROOT, {});
    NoNonNull(tree[ROOT].children);
    if tree[ROOT].count == 0 {
      forall c: nat | c < CLOCKS
        ensures Leaf(tree, c) == 0
      {
        if Leaf(tree, c) != 0 {
          RootOnPath(c);
          PathExists(tree, {}, {}, c, TOP_LEVEL);
        }
      }
    } else {
      var c := SomeLeaf(tree, ROOT);
      Below(c, TOP_LEVEL + 1);
      assert Pow16(TOP_LEVEL + 1) == CLOCKS;
    }
  }

  lemma {:induction false} Below(c: nat, level: nat)
    requires Above(c, level) == 0
    ensures c < Pow16(level)
    decreases level
  {
    if level > 0 {
      Below(c / ALLNODESIZE, level - 1);
    }
  }

  /** Below every node that is not empty there is a leaf. */
  lemma {:induction false} SomeLeaf(tree: Tree, name: Name) returns (c: nat)
    requires TreeOk(tree, {}, {}) && name in tree && NonNull(tree[name].children) > 0
    ensures Leaf(tree, c) != 0 && Above(c, name.0 + 1) == name.1
    decreases name.0
  {
    assert NodeOk(tree, name);
    var i := SomeNonNull(tree[name].children);
    if name.0 == 0 {
      c := ALLNODESIZE * name.1 + i;
      LeafOf(tree, name, i);
    } else {
      assert LinkOk(tree, name, i);
      assert FullOk(tree, Child(name, i), {});
      c := SomeLeaf(tree, Child(name, i));
      hide Above;
      AboveStep(c, name.0);
    }
  }

  lemma LeafOf(tree: Tree, name: Name, i: nat)
    requires name in tree && name.0 == 0 && i < |tree[name].children| == ALLNODESIZE
    ensures Above(ALLNODESIZE * name.1 + i, 1) == name.1
    ensures Leaf(tree, ALLNODESIZE * name.1 + i) == tree[name].children[i]
  {
    assert Above(ALLNODESIZE * name.1 + i, 1) == (ALLNODESIZE * name.1 + i) / ALLNODESIZE;
  }

  /** A root without children. */
  lemma EmptyRoot(children: seq<nat>)
    requires |children| == ALLNODESIZE && forall i: nat :: i < ALLNODESIZE ==> children[i] == 0
    ensures var tree := map[ROOT := AllNode(0, children)];
            TreeOk(tree, {}, {}) && forall c: nat :: Leaf(tree, c) == 0
  {
    var tree := map[ROOT := AllNode(0, children)];
    NoNonNull(children);
    forall i: nat | i < ALLNODESIZE
      ensures LinkOk(tree, ROOT, i)
    {
    }
  }
}
