/**
 The trie of one bin: chunks of large sizes, branching on the bits of the size from the
 highest bit that the bin leaves open. Chunks of one size form a ring off one node.
 */
module Tries {
  import opened TreeBins
  import opened Arithmetic

  /** A ring lists the addresses of its chunks from the tree node on, along the fd links. */
  datatype Trie = Nil | Node(size: nat, ring: seq<nat>, left: Trie, right: Trie)

  datatype Chunk = Chunk(addr: nat, size: nat)

  predicate HasSize(t: Trie, s: nat)
  {
    t.Node? && (t.size == s || HasSize(t.left, s) || HasSize(t.right, s))
  }

  ghost function RingChunks(ring: seq<nat>, size: nat): multiset<Chunk>
  {
    if ring == [] then multiset{} else multiset{Chunk(ring[0], size)} + RingChunks(ring[1..], size)
  }

  ghost function Chunks(t: Trie): multiset<Chunk>
  {
    if t.Nil? then multiset{} else RingChunks(t.ring, t.size) + Chunks(t.left) + Chunks(t.right)
  }

  /**
   Sizes are in [lo, lo + 2^w); those with the next bit clear are on the left, those with
   it set on the right, but for the one at the node; each size is at one node.
   */
  ghost predicate Ordered(t: Trie, lo: nat, w: nat)
  {
    t.Nil? ||
    (&& lo <= t.size < lo + Pow2(w) && t.ring != []
     && !HasSize(t.left, t.size) && !HasSize(t.right, t.size)
     && if w == 0 then t.left.Nil? && t.right.Nil? else Ordered(t.left, lo, w - 1) && Ordered(t.right, lo + Pow2(w - 1), w - 1))
  }

  lemma MakeNode(size: nat, ring: seq<nat>, left: Trie, right: Trie, lo: nat, w: nat)
    requires lo <= size < lo + Pow2(w) && ring != [] && !HasSize(left, size) && !HasSize(right, size)
    requires if w == 0 then left.Nil? && right.Nil? else Ordered(left, lo, w - 1) && Ordered(right, lo + Pow2(w - 1), w - 1)
    ensures Ordered(Node(size, ring, left, right), lo, w)
  {
  }

  lemma OpenNode(t: Trie, lo: nat, w: nat)
    requires t.Node? && Ordered(t, lo, w)
    ensures lo <= t.size < lo + Pow2(w) && t.ring != [] && !HasSize(t.left, t.size) && !HasSize(t.right, t.size)
    ensures if w == 0 then t.left.Nil? && t.right.Nil? else Ordered(t.left, lo, w - 1) && Ordered(t.right, lo + Pow2(w - 1), w - 1)
  {
  }

  lemma NodeSizes(size: nat, ring: seq<nat>, left: Trie, right: Trie)
    ensures forall s :: HasSize(Node(size, ring, left, right), s) <==> size == s || HasSize(left, s) || HasSize(right, s)
    ensures forall s :: !HasSize(Nil, s)
  {
  }

  lemma NodeChunks(size: nat, ring: seq<nat>, left: Trie, right: Trie)
    ensures Chunks(Node(size, ring, left, right)) == RingChunks(ring, size) + Chunks(left) + Chunks(right)
    ensures Chunks(Nil) == multiset{}
  {
  }

  lemma {:induction false} SizeRange(t: Trie, lo: nat, w: nat, s: nat)
    requires Ordered(t, lo, w) && HasSize(t, s)
    ensures lo <= s < lo + Pow2(w)
  {
    if t.size != s {
      assert Pow2(w) == 2 * Pow2(w - 1);
      if HasSize(t.left, s) {
        SizeRange(t.left, lo, w - 1, s);
      } else {
        SizeRange(t.right, lo + Pow2(w - 1), w - 1, s);
      }
    }
  }

  // ----- Following the bits of a size -----

  /** `k` holds the `w` open bits of `s`, shifted to the top of a word. */
  ghost predicate AtTop(k: nat, s: nat, lo: nat, w: nat)
  {
    lo <= s < lo + Pow2(w) && w <= SIZE_T_BITSIZE && k == (s - lo) * Pow2(SIZE_T_BITSIZE - w)
  }

  function TopBit(k: nat): nat
  {
    k / TOP_BIT % 2
  }

  function Shift(k: nat): nat
  {
    k * 2 % SIZE_LIMIT
  }

  lemma Scaled(a: nat, b: nat, c: nat)
    ensures a < b && c > 0 ==> a * c < b * c
    ensures a >= b ==> a * c >= b * c
  {
    if a < b {
      assert b * c == a * c + (b - a) * c;
      if c > 0 {
        AtLeastOnce(c, b - a);
      }
    } else {
      assert a * c == b * c + (a - b) * c;
    }
  }

  /** The top bit tells the side, and shifting it out leaves the bits open below. */
  lemma NextBit(k: nat, s: nat, lo: nat, w: nat)
    requires AtTop(k, s, lo, w) && w > 0
    ensures TopBit(k) == 1 <==> s >= lo + Pow2(w - 1)
    ensures TopBit(k) == 0 <==> s < lo + Pow2(w - 1)
    ensures AtTop(Shift(k), s, if TopBit(k) == 1 then lo + Pow2(w - 1) else lo, w - 1)
  {
    var r, h, p := s - lo, Pow2(w - 1), Pow2(SIZE_T_BITSIZE - w);
    Pow2Values();
    Doubles(w - 1);
    Pow2Add(w - 1, SIZE_T_BITSIZE - w);
    Doubles(SIZE_T_BITSIZE - w);
    assert h * p == TOP_BIT;
    Scaled(r, h, p);
    Scaled(r, 2 * h, p);
    NextBitOf(k, r, h, p);
  }

  lemma NextBitOf(k: nat, r: nat, h: nat, p: nat)
    requires k == r * p && h * p == TOP_BIT && r < 2 * h && p > 0
    ensures TopBit(k) == if r >= h then 1 else 0
    ensures Shift(k) == (if r >= h then r - h else r) * (2 * p)
  {
    Scaled(r, h, p);
    Scaled(r, 2 * h, p);
    assert 2 * h * p == SIZE_LIMIT;
    if r >= h {
      assert (r - h) * (2 * p) == 2 * (r * p) - 2 * (h * p);
    } else {
      assert r * (2 * p) == 2 * (r * p);
    }
  }

  // ----- insert_large_chunk -----

  function Insert(t: Trie, size: nat, addr: nat, k: nat): Trie
    decreases t
  {
    if t.Nil? then Node(size, [addr], Nil, Nil)
    else if t.size == size then t.(ring := if t.ring == [] then [addr] else [t.ring[0], addr] + t.ring[1..])
    else if TopBit(k) == 1 then t.(right := Insert(t.right, size, addr, Shift(k)))
    else t.(left := Insert(t.left, size, addr, Shift(k)))
  }

  lemma {:induction false} InsertSizes(t: Trie, size: nat, addr: nat, k: nat, s: nat)
    ensures HasSize(Insert(t, size, addr, k), s) <==> HasSize(t, s) || s == size
    decreases t
  {
    if t.Node? && t.size != size {
      InsertSizes(t.right, size, addr, Shift(k), s);
      InsertSizes(t.left, size, addr, Shift(k), s);
    }
  }

  /** Insertion keeps the trie and adds exactly the chunk. */
  lemma {:induction false} InsertKeeps(t: Trie, size: nat, addr: nat, k: nat, lo: nat, w: nat)
    requires Ordered(t, lo, w) && AtTop(k, size, lo, w)
    ensures Ordered(Insert(t, size, addr, k), lo, w)
    ensures Chunks(Insert(t, size, addr, k)) == Chunks(t) + multiset{Chunk(addr, size)}
    decreases t
  {
    hide AtTop, TopBit, Shift, Ordered, HasSize, Chunks, RingChunks, Pow2;
    InTop(k, size, lo, w);
    if t.Nil? {
      NodeSizes(size, [addr], Nil, Nil);
      NodeChunks(size, [addr], Nil, Nil);
      OneInRing(addr, size);
      NilOrdered(lo, w);
      MakeNode(size, [addr], Nil, Nil, lo, w);
    } else {
      OpenNode(t, lo, w);
      NodeChunks(t.size, t.ring, t.left, t.right);
      if t.size == size {
        RingInsert(t.ring, addr, size);
        MakeNode(size, [t.ring[0], addr] + t.ring[1..], t.left, t.right, lo, w);
        NodeChunks(size, [t.ring[0], addr] + t.ring[1..], t.left, t.right);
      } else {
        SomeWidth(t, lo, w, size);
        NextBit(k, size, lo, w);
        if TopBit(k) == 1 {
          var right := Insert(t.right, size, addr, Shift(k));
          InsertKeeps(t.right, size, addr, Shift(k), lo + Pow2(w - 1), w - 1);
          InsertSizes(t.right, size, addr, Shift(k), t.size);
          MakeNode(t.size, t.ring, t.left, right, lo, w);
          NodeChunks(t.size, t.ring, t.left, right);
        } else {
          BitValues(k);
          var left := Insert(t.left, size, addr, Shift(k));
          InsertKeeps(t.left, size, addr, Shift(k), lo, w - 1);
          InsertSizes(t.left, size, addr, Shift(k), t.size);
          MakeNode(t.size, t.ring, left, t.right, lo, w);
          NodeChunks(t.size, t.ring, left, t.right);
        }
      }
    }
  }

  lemma NilOrdered(lo: nat, w: nat)
    ensures Ordered(Nil, lo, w)
    ensures w > 0 ==> Ordered(Nil, lo, w - 1) && Ordered(Nil, lo + Pow2(w - 1), w - 1)
  {
  }

  lemma OneInRing(addr: nat, size: nat)
    ensures RingChunks([addr], size) == multiset{Chunk(addr, size)}
  {
    assert [addr][1..] == [];
  }

  lemma InTop(k: nat, s: nat, lo: nat, w: nat)
    requires AtTop(k, s, lo, w)
    ensures lo <= s < lo + Pow2(w)
  {
  }

  lemma BitValues(k: nat)
    ensures TopBit(k) == 0 || TopBit(k) == 1
  {
  }

  /** Two sizes need an open bit. */
  lemma SomeWidth(t: Trie, lo: nat, w: nat, s: nat)
    requires Ordered(t, lo, w) && t.Node? && lo <= s < lo + Pow2(w) && s != t.size
    ensures w > 0
  {
  }

  lemma RingInsert(ring: seq<nat>, addr: nat, size: nat)
    requires ring != []
    ensures RingChunks([ring[0], addr] + ring[1..], size) == RingChunks(ring, size) + multiset{Chunk(addr, size)}
  {
    var r := [ring[0], addr] + ring[1..];
    assert r[1..] == [addr] + ring[1..];
    assert r[1..][1..] == ring[1..];
    assert RingChunks(r, size) == multiset{Chunk(ring[0], size)} + RingChunks(r[1..], size);
    assert RingChunks(r[1..], size) == multiset{Chunk(addr, size)} + RingChunks(ring[1..], size);
  }

  // ----- unlink_large_chunk -----

  /** The rightmost leaf, going left only where there is no right child, and the trie without it. */
  function TakeLeaf(t: Trie): (r: (Trie, Trie))
    requires t.Node?
    ensures r.0.Node? && r.0.left.Nil? && r.0.right.Nil?
  {
    if t.right.Node? then
      var r := TakeLeaf(t.right);
      (r.0, t.(right := r.1))
    else if t.left.Node? then
      var r := TakeLeaf(t.left);
      (r.0, t.(left := r.1))
    else (t, Nil)
  }

  /** The node is replaced by the rightmost leaf below it, if there is one. */
  function RemoveNode(t: Trie): Trie
    requires t.Node?
  {
    if t.right.Node? then
      var r := TakeLeaf(t.right);
      Node(r.0.size, r.0.ring, t.left, r.1)
    else if t.left.Node? then
      var r := TakeLeaf(t.left);
      Node(r.0.size, r.0.ring, r.1, t.right)
    else Nil
  }

  /** A chunk leaves a ring of several; the node itself is replaced by the last of the ring. */
  function RingWithout(ring: seq<nat>, addr: nat): seq<nat>
    requires |ring| > 1
  {
    if ring[0] == addr then [ring[|ring| - 1]] + ring[1..|ring| - 1]
    else [ring[0]] + Without(ring[1..], addr)
  }

  function Without(ring: seq<nat>, addr: nat): seq<nat>
  {
    if ring == [] then [] else if ring[0] == addr then ring[1..] else [ring[0]] + Without(ring[1..], addr)
  }

  function Unlink(t: Trie, size: nat, addr: nat, k: nat): Trie
    decreases t
  {
    if t.Nil? then Nil
    else if t.size == size then if |t.ring| > 1 then t.(ring := RingWithout(t.ring, addr)) else RemoveNode(t)
    else if TopBit(k) == 1 then t.(right := Unlink(t.right, size, addr, Shift(k)))
    else t.(left := Unlink(t.left, size, addr, Shift(k)))
  }

  /** The leaf taken is a node of the trie, and the rest is a trie of the others. */
  lemma {:induction false} TakeLeafKeeps(t: Trie, lo: nat, w: nat)
    requires t.Node? && Ordered(t, lo, w)
    ensures var r := TakeLeaf(t);
            && Ordered(r.1, lo, w)
            && HasSize(t, r.0.size) && r.0.ring != []
            && Chunks(t) == RingChunks(r.0.ring, r.0.size) + Chunks(r.1)
    ensures forall s :: HasSize(TakeLeaf(t).1, s) <==> HasSize(t, s) && s != TakeLeaf(t).0.size
  {
    hide Ordered, HasSize, Chunks, RingChunks, Pow2;
    OpenNode(t, lo, w);
    NodeSizes(t.size, t.ring, t.left, t.right);
    NodeChunks(t.size, t.ring, t.left, t.right);
    if t.right.Node? {
      var r := TakeLeaf(t.right);
      TakeLeafKeeps(t.right, lo + Pow2(w - 1), w - 1);
      OneSide(t, lo, w, r.0.size);
      MakeNode(t.size, t.ring, t.left, r.1, lo, w);
      NodeSizes(t.size, t.ring, t.left, r.1);
      NodeChunks(t.size, t.ring, t.left, r.1);
    } else if t.left.Node? {
      var r := TakeLeaf(t.left);
      TakeLeafKeeps(t.left, lo, w - 1);
      MakeNode(t.size, t.ring, r.1, t.right, lo, w);
      NodeSizes(t.size, t.ring, r.1, t.right);
      NodeChunks(t.size, t.ring, r.1, t.right);
    } else {
      NilOrdered(lo, w);
    }
  }

  /** A size on the right is nowhere else. */
  lemma OneSide(t: Trie, lo: nat, w: nat, s: nat)
    requires t.Node? && Ordered(t, lo, w) && w > 0
    ensures HasSize(t.right, s) ==> !HasSize(t.left, s) && s != t.size
    ensures HasSize(t.left, s) ==> !HasSize(t.right, s) && s != t.size
  {
    if HasSize(t.right, s) {
      SizeRange(t.right, lo + Pow2(w - 1), w - 1, s);
    }
    if HasSize(t.left, s) {
      SizeRange(t.left, lo, w - 1, s);
    }
  }

  lemma RemoveNodeKeeps(t: Trie, lo: nat, w: nat)
    requires t.Node? && Ordered(t, lo, w)
    ensures Ordered(RemoveNode(t), lo, w)
    ensures Chunks(t) == RingChunks(t.ring, t.size) + Chunks(RemoveNode(t))
    ensures forall s :: HasSize(RemoveNode(t), s) ==> HasSize(t, s)
  {
    hide Ordered, HasSize, Chunks, RingChunks, Pow2;
    OpenNode(t, lo, w);
    NodeSizes(t.size, t.ring, t.left, t.right);
    NodeChunks(t.size, t.ring, t.left, t.right);
    if t.right.Node? {
      var r := TakeLeaf(t.right);
      TakeLeafKeeps(t.right, lo + Pow2(w - 1), w - 1);
      SizeRange(t, lo, w, r.0.size);
      OneSide(t, lo, w, r.0.size);
      MakeNode(r.0.size, r.0.ring, t.left, r.1, lo, w);
      NodeSizes(r.0.size, r.0.ring, t.left, r.1);
      NodeChunks(r.0.size, r.0.ring, t.left, r.1);
    } else if t.left.Node? {
      var r := TakeLeaf(t.left);
      TakeLeafKeeps(t.left, lo, w - 1);
      SizeRange(t, lo, w, r.0.size);
      MakeNode(r.0.size, r.0.ring, r.1, t.right, lo, w);
      NodeSizes(r.0.size, r.0.ring, r.1, t.right);
      NodeChunks(r.0.size, r.0.ring, r.1, t.right);
    } else {
      NilOrdered(lo, w);
    }
  }

  // ----- The chunk that goes -----

  lemma {:induction false} ChunkSize(t: Trie, c: Chunk)
    requires c in Chunks(t)
    ensures HasSize(t, c.size)
  {
    if c in RingChunks(t.ring, t.size) {
      RingSize(t.ring, t.size, c);
    } else if c in Chunks(t.left) {
      ChunkSize(t.left, c);
    } else {
      ChunkSize(t.right, c);
    }
  }

  lemma {:induction false} RingSize(ring: seq<nat>, size: nat, c: Chunk)
    ensures c in RingChunks(ring, size) <==> c.size == size && c.addr in ring
  {
    if ring != [] {
      RingSize(ring[1..], size, c);
      assert ring == [ring[0]] + ring[1..];
    }
  }

  lemma {:induction false} WithoutChunks(ring: seq<nat>, addr: nat, size: nat)
    requires addr in ring
    ensures RingChunks(Without(ring, addr), size) + multiset{Chunk(addr, size)} == RingChunks(ring, size)
    ensures |Without(ring, addr)| == |ring| - 1
  {
    if ring[0] != addr {
      WithoutChunks(ring[1..], addr, size);
      var rest := Without(ring[1..], addr);
      assert ([ring[0]] + rest)[1..] == rest;
    }
  }

  lemma {:induction false} RingSnoc(ring: seq<nat>, addr: nat, size: nat)
    ensures RingChunks(ring + [addr], size) == RingChunks(ring, size) + multiset{Chunk(addr, size)}
  {
    if ring == [] {
      OneInRing(addr, size);
      assert [] + [addr] == [addr];
    } else {
      RingSnoc(ring[1..], addr, size);
      assert (ring + [addr])[1..] == ring[1..] + [addr];
    }
  }

  lemma RingWithoutChunks(ring: seq<nat>, addr: nat, size: nat)
    requires |ring| > 1 && addr in ring
    ensures RingChunks(RingWithout(ring, addr), size) + multiset{Chunk(addr, size)} == RingChunks(ring, size)
    ensures RingWithout(ring, addr) != []
  {
    var n := |ring| - 1;
    if ring[0] == addr {
      var middle := ring[1..n];
      assert ring[1..] == middle + [ring[n]];
      RingSnoc(middle, ring[n], size);
      assert ([ring[n]] + middle)[1..] == middle;
    } else {
      assert addr in ring[1..];
      WithoutChunks(ring[1..], addr, size);
      var rest := Without(ring[1..], addr);
      assert ([ring[0]] + rest)[1..] == rest;
    }
  }

  /** The chunk is at the root. */
  lemma UnlinkHere(t: Trie, addr: nat, lo: nat, w: nat)
    requires t.Node? && Ordered(t, lo, w) && Chunk(addr, t.size) in Chunks(t)
    ensures var u := if |t.ring| > 1 then t.(ring := RingWithout(t.ring, addr)) else RemoveNode(t);
            && Ordered(u, lo, w)
            && Chunks(u) + multiset{Chunk(addr, t.size)} == Chunks(t)
            && forall s :: HasSize(u, s) ==> HasSize(t, s)
  {
    hide Ordered, HasSize, Chunks, RingChunks, Pow2, RemoveNode, RingWithout;
    InNodeRing(t, addr, lo, w);
    OpenNode(t, lo, w);
    NodeChunks(t.size, t.ring, t.left, t.right);
    if |t.ring| > 1 {
      var ring := RingWithout(t.ring, addr);
      RingWithoutChunks(t.ring, addr, t.size);
      MakeNode(t.size, ring, t.left, t.right, lo, w);
      NodeSizes(t.size, t.ring, t.left, t.right);
      NodeSizes(t.size, ring, t.left, t.right);
      NodeChunks(t.size, ring, t.left, t.right);
    } else {
      RemoveNodeKeeps(t, lo, w);
      assert t.ring == [addr];
      OneInRing(addr, t.size);
    }
  }

  /** One side of a node replaced by a trie with some of its sizes. */
  lemma ReplaceSide(t: Trie, left: Trie, right: Trie, lo: nat, w: nat)
    requires t.Node? && Ordered(t, lo, w) && w > 0
    requires Ordered(left, lo, w - 1) && Ordered(right, lo + Pow2(w - 1), w - 1)
    requires forall s :: HasSize(left, s) ==> HasSize(t.left, s)
    requires forall s :: HasSize(right, s) ==> HasSize(t.right, s)
    ensures Ordered(Node(t.size, t.ring, left, right), lo, w)
    ensures forall s :: HasSize(Node(t.size, t.ring, left, right), s) ==> HasSize(t, s)
  {
    hide Ordered, HasSize, Pow2;
    OpenNode(t, lo, w);
    MakeNode(t.size, t.ring, left, right, lo, w);
    NodeSizes(t.size, t.ring, t.left, t.right);
    NodeSizes(t.size, t.ring, left, right);
  }

  /** Unlinking keeps the trie and takes away exactly the chunk. */
  lemma {:induction false} UnlinkKeeps(t: Trie, size: nat, addr: nat, k: nat, lo: nat, w: nat)
    requires Ordered(t, lo, w) && AtTop(k, size, lo, w) && Chunk(addr, size) in Chunks(t)
    ensures Ordered(Unlink(t, size, addr, k), lo, w)
    ensures Chunks(Unlink(t, size, addr, k)) + multiset{Chunk(addr, size)} == Chunks(t)
    ensures forall s :: HasSize(Unlink(t, size, addr, k), s) ==> HasSize(t, s)
    decreases t
  {
    hide AtTop, TopBit, Shift, Ordered, HasSize, Chunks, RingChunks, Pow2, RemoveNode, RingWithout;
    ChunkSize(t, Chunk(addr, size));
    HasSizeNode(t, size);
    if t.size == size {
      UnlinkHere(t, addr, lo, w);
    } else {
      OpenNode(t, lo, w);
      NodeChunks(t.size, t.ring, t.left, t.right);
      InTop(k, size, lo, w);
      SomeWidth(t, lo, w, size);
      NextBit(k, size, lo, w);
      ChunkSide(t, Chunk(addr, size), lo, w);
      BitValues(k);
      if TopBit(k) == 1 {
        var right := Unlink(t.right, size, addr, Shift(k));
        UnlinkKeeps(t.right, size, addr, Shift(k), lo + Pow2(w - 1), w - 1);
        ReplaceSide(t, t.left, right, lo, w);
        NodeChunks(t.size, t.ring, t.left, right);
      } else {
        var left := Unlink(t.left, size, addr, Shift(k));
        UnlinkKeeps(t.left, size, addr, Shift(k), lo, w - 1);
        ReplaceSide(t, left, t.right, lo, w);
        NodeChunks(t.size, t.ring, left, t.right);
      }
    }
  }

  lemma HasSizeNode(t: Trie, s: nat)
    requires HasSize(t, s)
    ensures t.Node?
  {
  }

  lemma InNodeRing(t: Trie, addr: nat, lo: nat, w: nat)
    requires t.Node? && Ordered(t, lo, w) && Chunk(addr, t.size) in Chunks(t)
    ensures addr in t.ring
  {
    var c := Chunk(addr, t.size);
    if c in Chunks(t.left) {
      ChunkSize(t.left, c);
    }
    if c in Chunks(t.right) {
      ChunkSize(t.right, c);
    }
    RingSize(t.ring, t.size, c);
  }

  /** A chunk of another size is on the side that its bit tells. */
  lemma ChunkSide(t: Trie, c: Chunk, lo: nat, w: nat)
    requires t.Node? && Ordered(t, lo, w) && w > 0 && c in Chunks(t) && c.size != t.size
    ensures c.size >= lo + Pow2(w - 1) ==> c in Chunks(t.right)
    ensures c.size < lo + Pow2(w - 1) ==> c in Chunks(t.left)
  {
    hide Ordered, HasSize, Chunks, RingChunks, Pow2;
    OpenNode(t, lo, w);
    NodeChunks(t.size, t.ring, t.left, t.right);
    RingSize(t.ring, t.size, c);
    if c in Chunks(t.left) {
      ChunkSize(t.left, c);
      SizeRange(t.left, lo, w - 1, c.size);
    }
    if c in Chunks(t.right) {
      ChunkSize(t.right, c);
      SizeRange(t.right, lo + Pow2(w - 1), w - 1, c.size);
    }
  }
}
