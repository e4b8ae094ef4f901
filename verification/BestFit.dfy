/** The searches of the allocator for the best fitting chunk among the tree bins. */
module BestFit {
  import opened TreeBins
  import opened Tries
  import opened Multisets

  // ----- The bins -----

  /** The last bin has no upper bound, and branches on all bits. */
  function LoOf(i: nat): nat
  {
    if i == NTREEBINS - 1 then 0 else MinSize(i)
  }

  function WidthOf(i: nat): nat
  {
    if i >= NTREEBINS - 1 then SIZE_T_BITSIZE else i / 2 + TREEBIN_SHIFT - 1
  }

  function LeftShiftForTreeIndex(i: nat): nat
  {
    if i >= NTREEBINS - 1 then 0 else SIZE_T_BITSIZE - 1 - (i / 2 + TREEBIN_SHIFT - 2)
  }

  /** The open bits of a size, at the top of a word. */
  function SizeBits(s: nat, i: nat): nat
  {
    s * Pow2(LeftShiftForTreeIndex(i)) % SIZE_LIMIT
  }

  predicate LargeSize(s: nat)
  {
    256 <= s < 0x100_0000_0000
  }

  ghost predicate SizesOf(t: Trie, i: nat)
  {
    forall s: nat :: HasSize(t, s) ==> LargeSize(s) && ComputeTreeIndex(s) == i
  }

  ghost predicate BinOk(t: Trie, i: nat)
  {
    Ordered(t, LoOf(i), WidthOf(i)) && SizesOf(t, i)
  }

  /** Every bin is a trie of its sizes, and the map marks those that are not empty. */
  ghost predicate BinsOk(bins: seq<Trie>, treemap: set<nat>)
  {
    && |bins| == NTREEBINS
    && (forall i: nat :: i < NTREEBINS ==> BinOk(bins[i], i))
    && forall i: nat :: i in treemap <==> i < NTREEBINS && bins[i].Node?
  }

  lemma WrapShift(x: nat, q: nat)
    requires x < SIZE_LIMIT
    ensures (x + q * SIZE_LIMIT) % SIZE_LIMIT == x
  {
  }

  /** The shift brings the highest open bit of the size to the top and the fixed bits out. */
  lemma BitsAtTop(s: nat)
    requires LargeSize(s)
    ensures var i := ComputeTreeIndex(s); i < NTREEBINS && AtTop(SizeBits(s, i), s, LoOf(i), WidthOf(i))
  {
    hide Pow2, ComputeTreeIndex, MinSize, SizeOfBits;
    IndexBounds(s);
    var i := ComputeTreeIndex(s);
    Pow2Values();
    if i == NTREEBINS - 1 {
      NoShift(s);
    } else {
      ShiftOut(s, i / 2, i % 2, i);
    }
  }

  lemma NoShift(s: nat)
    requires s < SIZE_LIMIT
    ensures SizeBits(s, NTREEBINS - 1) == s * Pow2(0) && Pow2(0) == 1
  {
  }

  lemma ShiftOut(s: nat, k: nat, bit: nat, i: nat)
    requires bit < 2 && i == 2 * k + bit && i < NTREEBINS - 1 && MinSize(i) <= s < MinSize(i + 1)
    ensures AtTop(SizeBits(s, i), s, LoOf(i), WidthOf(i))
  {
    hide Pow2, MinSize;
    Parts(k, bit);
    BinSpan(k, bit);
    Doubles(k + 7);
    Pow2Values();
    Pow2Add(k + 7, 57 - k);
    var h, p := Pow2(k + 7), Pow2(57 - k);
    ShiftOutBits(s, MinSize(i), h, p, 2 + bit);
  }

  lemma ShiftOutBits(s: nat, lo: nat, h: nat, p: nat, q: nat)
    requires lo == q * h && lo <= s < lo + h && h * p == SIZE_LIMIT && p > 0
    ensures s * p % SIZE_LIMIT == (s - lo) * p
  {
    Scaled(s - lo, h, p);
    assert s * p == (s - lo) * p + lo * p;
    assert lo * p == q * (h * p);
    WrapShift((s - lo) * p, q);
  }

  // ----- What a search has found and what it may still find -----

  /** The node `v` is part of the trie. */
  ghost predicate NodeOf(t: Trie, v: Trie): (r: bool)
    ensures r ==> v.Node?
  {
    t.Node? && (t == v || NodeOf(t.left, v) || NodeOf(t.right, v))
  }

  ghost predicate AtMost(t: Trie, s: nat)
  {
    forall r: nat :: HasSize(t, r) ==> r <= s
  }

  ghost predicate AtLeast(t: Trie, s: nat)
  {
    forall r: nat :: HasSize(t, r) ==> s <= r
  }

  /** No size of `whole` from `nb` on is better than `v`, in `t`, in `rest`, or no better than any in `rest`. */
  ghost predicate Open(whole: Trie, nb: nat, v: Trie, t: Trie, rest: Trie)
  {
    forall s: nat :: HasSize(whole, s) && nb <= s ==>
                  (v.Node? && v.size <= s) || HasSize(t, s) || HasSize(rest, s) || (rest.Node? && AtMost(rest, s))
  }

  /** The remainder that the code keeps, with its unsigned start value. */
  function Remainder(v: Trie, nb: nat): int
  {
    if v.Nil? then SIZE_LIMIT - nb else v.size - nb
  }

  function Unsigned(x: int): nat
  {
    x % SIZE_LIMIT
  }

  /** A chunk that is too small wraps around to a remainder that never wins. */
  lemma BetterFit(size: nat, nb: nat, v: Trie)
    requires size < SIZE_LIMIT && 0 < nb < SIZE_LIMIT && (v.Node? ==> nb <= v.size < SIZE_LIMIT)
    ensures Unsigned(size - nb) < Remainder(v, nb) <==> nb <= size && (v.Node? ==> size < v.size)
  {
  }

  function LeftmostChild(t: Trie): Trie
    requires t.Node?
  {
    if t.left.Node? then t.left else t.right
  }

  lemma {:induction false} NodeOfNodeOf(t: Trie, u: Trie, v: Trie)
    requires NodeOf(t, u) && NodeOf(u, v)
    ensures NodeOf(t, v)
  {
    if t != u {
      if NodeOf(t.left, u) {
        NodeOfNodeOf(t.left, u, v);
      } else {
        NodeOfNodeOf(t.right, u, v);
      }
    }
  }

  lemma {:induction false} NodeOfHasSize(t: Trie, v: Trie)
    requires NodeOf(t, v)
    ensures v.Node? && HasSize(t, v.size)
  {
    if t != v {
      if NodeOf(t.left, v) {
        NodeOfHasSize(t.left, v);
      } else {
        NodeOfHasSize(t.right, v);
      }
    }
  }

  lemma ChildNodes(t: Trie, u: Trie)
    requires NodeOf(t, u)
    ensures u.left.Node? ==> NodeOf(t, u.left)
    ensures u.right.Node? ==> NodeOf(t, u.right)
  {
    if u.left.Node? {
      assert NodeOf(u.left, u.left) && NodeOf(u, u.left);
      NodeOfNodeOf(t, u, u.left);
    }
    if u.right.Node? {
      assert NodeOf(u.right, u.right) && NodeOf(u, u.right);
      NodeOfNodeOf(t, u, u.right);
    }
  }

  /** What lies on the two sides of a node. */
  lemma Sides(t: Trie, lo: nat, w: nat)
    requires t.Node? && Ordered(t, lo, w) && w > 0
    ensures forall s: nat :: HasSize(t.left, s) ==> s < lo + Pow2(w - 1)
    ensures forall s: nat :: HasSize(t.right, s) ==> lo + Pow2(w - 1) <= s < lo + Pow2(w)
    ensures lo + Pow2(w - 1) < lo + Pow2(w)
  {
    Doubles(w - 1);
    forall s: nat | HasSize(t.left, s)
      ensures s < lo + Pow2(w - 1)
    {
      SizeRange(t.left, lo, w - 1, s);
    }
    forall s: nat | HasSize(t.right, s)
      ensures lo + Pow2(w - 1) <= s < lo + Pow2(w)
    {
      SizeRange(t.right, lo + Pow2(w - 1), w - 1, s);
    }
  }

  /** `after` is `v`, or `t` if that fits better. */
  ghost predicate Bettered(nb: nat, v: Trie, t: Trie, after: Trie)
    requires t.Node?
  {
    && (v.Node? ==> after.Node? && after.size <= v.size)
    && (nb <= t.size ==> after.Node? && after.size <= t.size)
    && (after == v || (after == t && nb <= t.size))
  }

  /** The search goes left, and remembers what is on the right. */
  lemma OpenLeft(whole: Trie, nb: nat, v: Trie, after: Trie, t: Trie, rest: Trie, lo: nat, w: nat)
    requires t.Node? && Ordered(t, lo, w) && w > 0 && Open(whole, nb, v, t, rest) && AtLeast(rest, lo + Pow2(w))
    requires Bettered(nb, v, t, after)
    ensures Open(whole, nb, after, t.left, if t.right.Node? then t.right else rest)
    ensures AtLeast(if t.right.Node? then t.right else rest, lo + Pow2(w - 1))
  {
    hide Ordered, Pow2;
    Sides(t, lo, w);
    assert rest.Node? ==> HasSize(rest, rest.size);
    var left := if t.right.Node? then t.right else rest;
    forall s: nat | HasSize(whole, s) && nb <= s
      ensures (after.Node? && after.size <= s) || HasSize(t.left, s) || HasSize(left, s) || (left.Node? && AtMost(left, s))
    {
      if HasSize(t, s) {
        assert s == t.size || HasSize(t.left, s) || HasSize(t.right, s);
      }
    }
  }

  /** The search goes right; what is on the left is too small. */
  lemma OpenRight(whole: Trie, nb: nat, v: Trie, after: Trie, t: Trie, rest: Trie, lo: nat, w: nat)
    requires t.Node? && Ordered(t, lo, w) && w > 0 && Open(whole, nb, v, t, rest) && nb >= lo + Pow2(w - 1)
    requires Bettered(nb, v, t, after)
    ensures Open(whole, nb, after, t.right, rest)
  {
    hide Ordered, Pow2;
    Sides(t, lo, w);
    forall s: nat | HasSize(whole, s) && nb <= s
      ensures (after.Node? && after.size <= s) || HasSize(t.right, s) || HasSize(rest, s) || (rest.Node? && AtMost(rest, s))
    {
      if HasSize(t, s) {
        assert s == t.size || HasSize(t.left, s) || HasSize(t.right, s);
      }
    }
  }

  /** The search along the bits of `nb`: the best node met, and the subtree in which to go on. */
  method SearchBin(root: Trie, nb: nat, sizeBits: nat, ghost lo0: nat, ghost w0: nat) returns (v: Trie, t: Trie, ghost lo: nat, ghost w: nat)
    requires root.Node? && Ordered(root, lo0, w0) && AtTop(sizeBits, nb, lo0, w0) && 0 < nb < SIZE_LIMIT
    requires forall s: nat :: HasSize(root, s) ==> s < SIZE_LIMIT
    ensures v.Node? ==> NodeOf(root, v) && nb <= v.size
    ensures t.Node? ==> NodeOf(root, t) && Ordered(t, lo, w)
    ensures Open(root, nb, v, Nil, t)
    ensures (v.Node? && v.size == nb) || AtLeast(t, nb)
  {
    hide Ordered, AtTop, TopBit, Shift, Unsigned, Pow2, NodeOf, Open, HasSize, AtLeast, AtMost;
    v, t, lo, w := Nil, root, lo0, w0;
    var k := sizeBits;
    var rst: Trie := Nil;
    ghost var rlo: nat, rw: nat := 0, 0;
    StartSearch(root, nb, lo + Pow2(w));
    while true
      invariant t.Node? && NodeOf(root, t) && Ordered(t, lo, w) && AtTop(k, nb, lo, w)
      invariant v.Node? ==> NodeOf(root, v) && nb < v.size < SIZE_LIMIT
      invariant rst.Node? ==> NodeOf(root, rst) && Ordered(rst, rlo, rw)
      invariant AtLeast(rst, lo + Pow2(w)) && Open(root, nb, v, t, rst)
      decreases t
    {
      NodeOfHasSize(root, t);
      BetterFit(t.size, nb, v);
      ghost var before := v;
      if Unsigned(t.size - nb) < Remainder(v, nb) {
        v := t;
        if Remainder(v, nb) == 0 {
          ExactFit(root, nb, v, t);
          return;
        }
      }
      InTop(k, nb, lo, w);
      SomeWidth(t, lo, w, nb);
      OpenNode(t, lo, w);
      NextBit(k, nb, lo, w);
      BitValues(k);
      ChildNodes(root, t);
      var rt := t.right;
      if TopBit(k) == 1 {
        OpenRight(root, nb, before, v, t, rst, lo, w);
        DoubledRange(lo, w);
        lo := lo + Pow2(w - 1);
        t := rt;
      } else {
        OpenLeft(root, nb, before, v, t, rst, lo, w);
        if rt.Node? {
          rst, rlo, rw := rt, lo + Pow2(w - 1), w - 1;
        }
        t := t.left;
      }
      w := w - 1;
      k := Shift(k);
      if t.Nil? {
        RestOpen(root, nb, v, rst, k, lo, w);
        t, lo, w := rst, rlo, rw;
        return;
      }
    }
  }

  lemma StartSearch(root: Trie, nb: nat, bound: nat)
    requires root.Node?
    ensures NodeOf(root, root) && Open(root, nb, Nil, root, Nil) && AtLeast(Nil, bound)
  {
  }

  lemma ExactFit(root: Trie, nb: nat, v: Trie, t: Trie)
    requires v.Node? && v.size == nb
    ensures Open(root, nb, v, Nil, t)
  {
  }

  lemma DoubledRange(lo: nat, w: nat)
    requires w > 0
    ensures lo + Pow2(w) == lo + Pow2(w - 1) + Pow2(w - 1)
  {
  }

  /** What was left aside fits, since it lies beyond the part that `nb` belongs to. */
  lemma RestOpen(root: Trie, nb: nat, v: Trie, rest: Trie, k: nat, lo: nat, w: nat)
    requires AtTop(k, nb, lo, w) && AtLeast(rest, lo + Pow2(w)) && Open(root, nb, v, Nil, rest)
    ensures AtLeast(rest, nb)
  {
  }

  // ----- The leftmost path -----

  /** The same, without a subtree left aside: no size is better than `v`, in `t`, or no better than any in `t`. */
  lemma LeftmostStep(whole: Trie, nb: nat, v: Trie, after: Trie, t: Trie, lo: nat, w: nat)
    requires t.Node? && Ordered(t, lo, w) && Open(whole, nb, v, Nil, t) && Bettered(nb, v, t, after)
    requires (v.Node? && v.size == nb) || AtLeast(t, nb)
    ensures Open(whole, nb, after, Nil, LeftmostChild(t))
    ensures (after.Node? && after.size == nb) || AtLeast(LeftmostChild(t), nb)
  {
    if w > 0 {
      Sides(t, lo, w);
    }
    OpenNode(t, lo, w);
    hide Ordered, Pow2;
    var c := LeftmostChild(t);
    assert HasSize(t, t.size);
    forall s: nat | HasSize(t, s)
      ensures s == t.size || HasSize(c, s) || (c.Node? && AtMost(c, s))
    {
      assert s == t.size || HasSize(t.left, s) || HasSize(t.right, s);
    }
    assert forall s: nat :: HasSize(c, s) ==> HasSize(t, s);
    if !(v.Node? && v.size == nb) {
      assert nb <= t.size;
      assert AtLeast(c, nb);
    }
    forall s: nat | HasSize(whole, s) && nb <= s
      ensures (after.Node? && after.size <= s) || HasSize(c, s) || (c.Node? && AtMost(c, s))
    {
      assert (v.Node? && v.size <= s) || HasSize(t, s) || AtMost(t, s);
    }
  }

  lemma LeftmostOrdered(t: Trie, lo: nat, w: nat) returns (clo: nat, cw: nat)
    requires t.Node? && Ordered(t, lo, w)
    ensures Ordered(LeftmostChild(t), clo, cw)
  {
    if t.left.Node? {
      clo, cw := lo, w - 1;
    } else if w > 0 {
      clo, cw := lo + Pow2(w - 1), w - 1;
    } else {
      clo, cw := lo, w;
    }
  }

  /** The smallest size of a subtree is on its leftmost path. */
  method SearchLeftmost(whole: Trie, nb: nat, v0: Trie, t0: Trie, ghost lo0: nat, ghost w0: nat) returns (v: Trie)
    requires 0 < nb < SIZE_LIMIT && forall s: nat :: HasSize(whole, s) ==> s < SIZE_LIMIT
    requires v0.Node? ==> NodeOf(whole, v0) && nb <= v0.size
    requires t0.Node? ==> NodeOf(whole, t0) && Ordered(t0, lo0, w0)
    requires Open(whole, nb, v0, Nil, t0) && ((v0.Node? && v0.size == nb) || AtLeast(t0, nb))
    ensures v.Node? ==> NodeOf(whole, v) && nb <= v.size
    ensures Open(whole, nb, v, Nil, Nil)
  {
    hide Ordered, Unsigned, NodeOf, Open, HasSize, AtLeast, AtMost, LeftmostChild;
    v := v0;
    var t := t0;
    ghost var lo, w := lo0, w0;
    if v.Node? {
      NodeOfHasSize(whole, v);
    }
    while t.Node?
      invariant v.Node? ==> NodeOf(whole, v) && nb <= v.size < SIZE_LIMIT
      invariant t.Node? ==> NodeOf(whole, t) && Ordered(t, lo, w)
      invariant Open(whole, nb, v, Nil, t) && ((v.Node? && v.size == nb) || AtLeast(t, nb))
      decreases t
    {
      NodeOfHasSize(whole, t);
      BetterFit(t.size, nb, v);
      ghost var before := v;
      if Unsigned(t.size - nb) < Remainder(v, nb) {
        v := t;
      }
      LeftmostStep(whole, nb, before, v, t, lo, w);
      lo, w := LeftmostOrdered(t, lo, w);
      ChildNodes(whole, t);
      t := NextLeft(t);
    }
  }

  method NextLeft(t: Trie) returns (c: Trie)
    requires t.Node?
    ensures c == LeftmostChild(t) && (c == t.left || c == t.right)
  {
    c := LeftmostChild(t);
  }

  // ----- All bins -----

  ghost predicate InBins(bins: seq<Trie>, s: nat)
  {
    exists i: nat :: i < |bins| && HasSize(bins[i], s)
  }

  /** `v` is a best fitting node for `nb`: none if no chunk is large enough. */
  ghost predicate Best(bins: seq<Trie>, nb: nat, v: Trie)
  {
    && (forall s: nat :: InBins(bins, s) && nb <= s ==> v.Node? && v.size <= s)
    && (v.Node? ==> nb <= v.size && exists i: nat :: i < |bins| && NodeOf(bins[i], v))
  }

  lemma BinSizes(bins: seq<Trie>, treemap: set<nat>, i: nat, s: nat)
    requires BinsOk(bins, treemap) && i < NTREEBINS && HasSize(bins[i], s)
    ensures LargeSize(s) && ComputeTreeIndex(s) == i && i in treemap
  {
    assert BinOk(bins[i], i);
    assert SizesOf(bins[i], i);
  }

  /** The best fit of the first bin that has a fit is the best of all. */
  lemma FirstFitBest(bins: seq<Trie>, treemap: set<nat>, nb: nat, i: nat, v: Trie)
    requires BinsOk(bins, treemap) && i < NTREEBINS
    requires v.Node? && NodeOf(bins[i], v) && nb <= v.size && Open(bins[i], nb, v, Nil, Nil)
    requires forall j: nat, s: nat :: j < i && HasSize(bins[j], s) ==> s < nb
    ensures Best(bins, nb, v)
  {
    hide Ordered, ComputeTreeIndex;
    NodeOfHasSize(bins[i], v);
    BinSizes(bins, treemap, i, v.size);
    forall s: nat | InBins(bins, s) && nb <= s
      ensures v.size <= s
    {
      var j: nat :| j < |bins| && HasSize(bins[j], s);
      BinSizes(bins, treemap, j, s);
      if s < v.size {
        IndexMonotone(s, v.size);
      }
    }
  }

  lemma EarlierBins(bins: seq<Trie>, treemap: set<nat>, nb: nat)
    requires BinsOk(bins, treemap) && LargeSize(nb)
    ensures ComputeTreeIndex(nb) < NTREEBINS
    ensures forall j: nat, s: nat :: j < ComputeTreeIndex(nb) && HasSize(bins[j], s) ==> s < nb
    ensures forall j: nat, s: nat :: ComputeTreeIndex(nb) < j < NTREEBINS && HasSize(bins[j], s) ==> nb < s
  {
    hide ComputeTreeIndex, Ordered;
    IndexBounds(nb);
    forall j: nat, s: nat | j < NTREEBINS && HasSize(bins[j], s) && j != ComputeTreeIndex(nb)
      ensures if j < ComputeTreeIndex(nb) then s < nb else nb < s
    {
      BinSizes(bins, treemap, j, s);
      if s <= nb {
        IndexMonotone(s, nb);
      }
      if nb <= s {
        IndexMonotone(nb, s);
      }
    }
  }

  lemma WholeBin(bins: seq<Trie>, treemap: set<nat>, i: nat, nb: nat)
    requires BinsOk(bins, treemap) && i < NTREEBINS && bins[i].Node?
    requires forall s: nat :: HasSize(bins[i], s) ==> nb <= s
    ensures NodeOf(bins[i], bins[i]) && Ordered(bins[i], LoOf(i), WidthOf(i))
    ensures Open(bins[i], nb, Nil, Nil, bins[i]) && AtLeast(bins[i], nb)
    ensures forall s: nat :: HasSize(bins[i], s) ==> s < SIZE_LIMIT
  {
    assert BinOk(bins[i], i);
  }

  lemma BinNode(bins: seq<Trie>, treemap: set<nat>, i: nat, nb: nat)
    requires BinsOk(bins, treemap) && i < NTREEBINS
    ensures Ordered(bins[i], LoOf(i), WidthOf(i))
    ensures forall s: nat :: HasSize(bins[i], s) ==> s < SIZE_LIMIT
    ensures bins[i].Nil? ==> Open(bins[i], nb, Nil, Nil, Nil)
  {
    assert BinOk(bins[i], i);
  }

  /** The bin of `nb` has no fit, and no later bin has a chunk. */
  lemma NoFit(bins: seq<Trie>, treemap: set<nat>, nb: nat, idx: nat)
    requires BinsOk(bins, treemap) && LargeSize(nb) && idx == ComputeTreeIndex(nb)
    requires idx < NTREEBINS && Open(bins[idx], nb, Nil, Nil, Nil)
    requires forall j: nat :: j in treemap ==> j <= idx
    ensures Best(bins, nb, Nil)
  {
    hide Ordered, ComputeTreeIndex;
    EarlierBins(bins, treemap, nb);
    forall s: nat | InBins(bins, s)
      ensures s < nb
    {
      var j: nat :| j < |bins| && HasSize(bins[j], s);
      BinSizes(bins, treemap, j, s);
    }
  }

  /** The bin of `nb` has no fit, and `i` is the next bin with a chunk. */
  lemma NoEarlierFit(bins: seq<Trie>, treemap: set<nat>, nb: nat, idx: nat, i: nat)
    requires BinsOk(bins, treemap) && LargeSize(nb) && idx == ComputeTreeIndex(nb)
    requires idx < i < NTREEBINS && Open(bins[idx], nb, Nil, Nil, Nil)
    requires forall j: nat :: j in treemap && idx < j ==> i <= j
    ensures forall j: nat, s: nat :: j < i && HasSize(bins[j], s) ==> s < nb
  {
    hide Ordered, ComputeTreeIndex;
    EarlierBins(bins, treemap, nb);
    forall j: nat, s: nat | j < i && HasSize(bins[j], s)
      ensures s < nb
    {
      BinSizes(bins, treemap, j, s);
    }
  }

  /** A fit in the trie makes the search find one. */
  lemma StillFits(whole: Trie, nb: nat, v: Trie, before: Trie, t: Trie)
    requires Open(whole, nb, v, Nil, Nil) && (before.Node? || t.Node?)
    requires before.Node? ==> NodeOf(whole, before) && nb <= before.size
    requires t.Node? ==> NodeOf(whole, t)
    requires (before.Node? && before.size == nb) || AtLeast(t, nb)
    ensures v.Node?
  {
    var u := if before.Node? then before else t;
    NodeOfHasSize(whole, u);
    assert t.Node? ==> HasSize(t, t.size);
  }

  /** The smallest element. */
  method LeastBit(bits: set<nat>) returns (i: nat)
    requires bits != {}
    ensures i in bits && forall j :: j in bits ==> i <= j
  {
    i :| i in bits;
    var rest := bits - {i};
    while rest != {}
      invariant i in bits && rest <= bits && forall j :: j in bits ==> j in rest || i <= j
      decreases rest
    {
      var j :| j in rest;
      rest := rest - {j};
      if j < i {
        i := j;
      }
    }
  }

  class TreeBinState {
    var treebins: seq<Trie>
    var treemap: set<nat>

    ghost predicate Valid()
      reads this
    {
      BinsOk(treebins, treemap)
    }

    constructor ()
      ensures Valid() && AllChunks(treebins) == multiset{}
    {
      treebins := seq(NTREEBINS, _ => Nil);
      treemap := {};
      new;
      NoChunks(treebins);
    }

    /** A smallest chunk of at least `nb` bytes in the tree bins, if there is one. */
    method TmallocLarge(nb: nat) returns (v: Trie)
      requires Valid() && LargeSize(nb)
      ensures Best(treebins, nb, v)
    {
      hide Ordered, ComputeTreeIndex, NodeOf, Open, HasSize, AtLeast, AtTop, SizeBits, BinOk, LoOf, WidthOf, Best, InBins;
      EarlierBins(treebins, treemap, nb);
      BitsAtTop(nb);
      var idx := ComputeTreeIndex(nb);
      v := Nil;
      var t := treebins[idx];
      ghost var lo, w := LoOf(idx), WidthOf(idx);
      BinNode(treebins, treemap, idx, nb);
      if t.Node? {
        v, t, lo, w := SearchBin(t, nb, SizeBits(nb, idx), lo, w);
      }
      if v.Nil? && t.Nil? {
        var leftBits := set j | j in treemap && idx < j;
        assert forall j: nat :: j in treemap && idx < j ==> j in leftBits;
        if leftBits == {} {
          NoFit(treebins, treemap, nb, idx);
          return;
        }
        var i := LeastBit(leftBits);
        t := treebins[i];
        WholeBin(treebins, treemap, i, nb);
        v := SearchLeftmost(treebins[i], nb, v, t, LoOf(i), WidthOf(i));
        NoEarlierFit(treebins, treemap, nb, idx, i);
        StillFits(treebins[i], nb, v, Nil, t);
        FirstFitBest(treebins, treemap, nb, i, v);
      } else {
        ghost var before := v;
        v := SearchLeftmost(treebins[idx], nb, v, t, lo, w);
        StillFits(treebins[idx], nb, v, before, t);
        FirstFitBest(treebins, treemap, nb, idx, v);
      }
    }

    /** A smallest chunk of all in the tree bins; every one is large enough for a small request. */
    method TmallocSmall(nb: nat) returns (v: Trie)
      requires Valid() && 0 < nb < 256 && treemap != {}
      ensures v.Node? && Best(treebins, nb, v)
    {
      hide Ordered, ComputeTreeIndex, NodeOf, Open, HasSize, AtLeast, BinOk, LoOf, WidthOf, Best, InBins;
      var i := LeastBit(treemap);
      AllFit(treebins, treemap, nb, i);
      WholeBin(treebins, treemap, i, nb);
      v := SearchLeftmost(treebins[i], nb, Nil, treebins[i], LoOf(i), WidthOf(i));
      StillFits(treebins[i], nb, v, Nil, treebins[i]);
      FirstFitBest(treebins, treemap, nb, i, v);
    }

    /** Puts a chunk into the bin of its size. */
    method InsertLargeChunk(addr: nat, size: nat)
      requires Valid() && LargeSize(size)
      modifies this
      ensures Valid() && AllChunks(treebins) == AllChunks(old(treebins)) + multiset{Chunk(addr, size)}
    {
      hide Ordered, ComputeTreeIndex, SizeBits, LoOf, WidthOf, Chunks;
      BitsAtTop(size);
      var i := ComputeTreeIndex(size);
      var t := treebins[i];
      var u := Insert(t, size, addr, SizeBits(size, i));
      BinInsert(t, i, size, addr);
      ReplaceBin(treebins, i, u, multiset{Chunk(addr, size)}, multiset{});
      treebins := treebins[i := u];
      treemap := treemap + {i};
    }

    /** Takes a chunk out of the bin of its size. */
    method UnlinkLargeChunk(addr: nat, size: nat)
      requires Valid() && LargeSize(size) && Chunk(addr, size) in AllChunks(treebins)
      modifies this
      ensures Valid() && AllChunks(treebins) + multiset{Chunk(addr, size)} == AllChunks(old(treebins))
    {
      hide Ordered, ComputeTreeIndex, SizeBits, LoOf, WidthOf, Chunks, AllChunks;
      BitsAtTop(size);
      var i := ComputeTreeIndex(size);
      ChunkInBin(treebins, treemap, Chunk(addr, size));
      var t := treebins[i];
      var u := Unlink(t, size, addr, SizeBits(size, i));
      BinUnlink(t, i, size, addr);
      ReplaceBin(treebins, i, u, multiset{}, multiset{Chunk(addr, size)});
      treebins := treebins[i := u];
      if u.Nil? {
        treemap := treemap - {i};
      }
    }
  }

  lemma AllFit(bins: seq<Trie>, treemap: set<nat>, nb: nat, i: nat)
    requires BinsOk(bins, treemap) && nb < 256 && i in treemap && forall j :: j in treemap ==> i <= j
    ensures i < NTREEBINS && bins[i].Node?
    ensures forall s: nat :: HasSize(bins[i], s) ==> nb <= s
    ensures forall j: nat, s: nat :: j < i && HasSize(bins[j], s) ==> s < nb
  {
    hide Ordered, ComputeTreeIndex;
    forall j: nat, s: nat | j < NTREEBINS && HasSize(bins[j], s)
      ensures nb <= s && i <= j
    {
      BinSizes(bins, treemap, j, s);
    }
  }

  // ----- The chunks of all bins -----

  ghost function AllChunks(bins: seq<Trie>): multiset<Chunk>
  {
    if bins == [] then multiset{} else Chunks(bins[0]) + AllChunks(bins[1..])
  }

  lemma {:induction false} NoChunks(bins: seq<Trie>)
    requires forall i :: 0 <= i < |bins| ==> bins[i] == Nil
    ensures AllChunks(bins) == multiset{}
  {
    if bins != [] {
      NoChunks(bins[1..]);
    }
  }

  lemma {:induction false} ReplaceBin(bins: seq<Trie>, i: nat, u: Trie, added: multiset<Chunk>, removed: multiset<Chunk>)
    requires i < |bins| && Chunks(u) + removed == Chunks(bins[i]) + added
    ensures AllChunks(bins[i := u]) + removed == AllChunks(bins) + added
  {
    hide Chunks;
    var after := bins[i := u];
    assert AllChunks(bins) == Chunks(bins[0]) + AllChunks(bins[1..]);
    assert AllChunks(after) == Chunks(after[0]) + AllChunks(after[1..]);
    if i == 0 {
      assert after[1..] == bins[1..];
      Rearrange(Chunks(bins[0]), Chunks(u), AllChunks(bins[1..]), added, removed);
    } else {
      ReplaceBin(bins[1..], i - 1, u, added, removed);
      assert after[1..] == bins[1..][i - 1 := u];
      Reassociate(Chunks(bins[0]), AllChunks(bins[1..]), AllChunks(after[1..]), added, removed);
    }
  }

  lemma {:induction false} SomeBin(bins: seq<Trie>, c: Chunk) returns (i: nat)
    requires c in AllChunks(bins)
    ensures i < |bins| && c in Chunks(bins[i])
  {
    hide Chunks;
    if c in Chunks(bins[0]) {
      i := 0;
    } else {
      i := SomeBin(bins[1..], c);
      i := i + 1;
    }
  }

  lemma ChunkInBin(bins: seq<Trie>, treemap: set<nat>, c: Chunk)
    requires BinsOk(bins, treemap) && c in AllChunks(bins)
    ensures ComputeTreeIndex(c.size) < NTREEBINS && c in Chunks(bins[ComputeTreeIndex(c.size)])
  {
    hide ComputeTreeIndex, Ordered;
    var i := SomeBin(bins, c);
    ChunkSize(bins[i], c);
    BinSizes(bins, treemap, i, c.size);
  }

  lemma BinInsert(t: Trie, i: nat, size: nat, addr: nat)
    requires BinOk(t, i) && LargeSize(size) && i == ComputeTreeIndex(size)
    ensures var u := Insert(t, size, addr, SizeBits(size, i));
            u.Node? && BinOk(u, i) && Chunks(u) == Chunks(t) + multiset{Chunk(addr, size)}
  {
    hide Ordered, ComputeTreeIndex, SizeBits, LoOf, WidthOf, Chunks;
    BitsAtTop(size);
    InsertKeeps(t, size, addr, SizeBits(size, i), LoOf(i), WidthOf(i));
    forall s: nat
      ensures HasSize(Insert(t, size, addr, SizeBits(size, i)), s) <==> HasSize(t, s) || s == size
    {
      InsertSizes(t, size, addr, SizeBits(size, i), s);
    }
  }

  lemma BinUnlink(t: Trie, i: nat, size: nat, addr: nat)
    requires BinOk(t, i) && LargeSize(size) && i == ComputeTreeIndex(size) && Chunk(addr, size) in Chunks(t)
    ensures var u := Unlink(t, size, addr, SizeBits(size, i));
            t.Node? && BinOk(u, i) && Chunks(u) + multiset{Chunk(addr, size)} == Chunks(t)
  {
    hide Ordered, ComputeTreeIndex, SizeBits, LoOf, WidthOf, Chunks;
    BitsAtTop(size);
    UnlinkKeeps(t, size, addr, SizeBits(size, i), LoOf(i), WidthOf(i));
    ChunkSize(t, Chunk(addr, size));
  }
}
