/**
 The allocator over one fixed segment: allocation from the small bins, the tree bins, the
 designated victim and the top chunk, and release with coalescing on both sides.
 */
module Mspaces {
  import opened TreeBins
  import opened Tries
  import opened Multisets
  import opened BestFit
  import opened SmallBins
  import opened Tiles
  import opened HeapSteps

  const CHUNK_OVERHEAD: nat := 8
  const MIN_REQUEST: nat := MIN_CHUNK_SIZE - CHUNK_OVERHEAD - 1
  const MAX_SMALL_REQUEST: nat := 240
  /** From a chunk to its memory. */
  const CHUNK_MEM: nat := 16
  const MAX_REQUEST: nat := SIZE_LIMIT - 128
  const MAX_SIZE_T: nat := SIZE_LIMIT - 1
  /** Segments are smaller than the sizes that the tree index resolves. */
  const SEGMENT_LIMIT: nat := 0x100_0000_0000

  function PadRequest(bytes: nat): nat
  {
    (bytes + CHUNK_OVERHEAD + CHUNK_ALIGN - 1) / CHUNK_ALIGN * CHUNK_ALIGN
  }

  /** The chunk size for a request. */
  function ChunkSizeFor(bytes: nat): nat
  {
    if bytes < MIN_REQUEST then MIN_CHUNK_SIZE else PadRequest(bytes)
  }

  lemma PadFits(bytes: nat)
    ensures bytes + CHUNK_OVERHEAD <= ChunkSizeFor(bytes) && ChunkSizeOk(ChunkSizeFor(bytes))
    ensures bytes <= MAX_SMALL_REQUEST ==> ChunkSizeFor(bytes) < 256
    ensures bytes > MAX_SMALL_REQUEST ==> ChunkSizeFor(bytes) == PadRequest(bytes) >= 256
    ensures MIN_REQUEST <= bytes ==> ChunkSizeFor(bytes) < bytes + CHUNK_OVERHEAD + CHUNK_ALIGN
  {
  }

  // ----- Where the free chunks are -----

  /** The designated victim, if there is one. */
  ghost function Victim(dv: nat, dvsize: nat): multiset<Chunk>
  {
    if dvsize == 0 then multiset{} else multiset{Chunk(dv, dvsize)}
  }

  /** Every free chunk is in a bin or is the victim, but for the loose ones. */
  ghost predicate Binned(tiles: seq<Tile>, small: multiset<Chunk>, large: multiset<Chunk>, dv: nat, dvsize: nat, loose: multiset<Chunk>)
  {
    Those(tiles, false) == small + large + Victim(dv, dvsize) + loose && (dvsize == 0 ==> dv == 0)
  }

  ghost predicate Segment(tiles: seq<Tile>, base: nat, top: nat, topsize: nat, limit: nat)
  {
    0 < base && 0 < topsize && top + topsize == limit && limit < SEGMENT_LIMIT
  }

  /** The position of a chunk among the tiles. */
  lemma TileOf(tiles: seq<Tile>, inuse: bool, c: Chunk) returns (i: nat)
    requires c in Those(tiles, inuse)
    ensures i < |tiles| && tiles[i] == Tile(c.addr, c.size, inuse)
  {
    IsOneOf(tiles, inuse, c);
    i :| i < |tiles| && tiles[i] == Tile(c.addr, c.size, inuse);
  }

  /** Sizes of tiles. */
  lemma TileSize(tiles: seq<Tile>, base: nat, top: nat, i: nat)
    requires Tiling(tiles, base, top) && i < |tiles|
    ensures ChunkSizeOk(tiles[i].size) && base <= tiles[i].addr && tiles[i].addr + tiles[i].size <= top
  {
    assert TileOk(tiles, i, top);
    BelowTop(tiles, base, top, i);
    if i > 0 {
      InAddressOrder(tiles, base, top, 0, i);
    }
  }

  lemma SmallOrLarge(size: nat)
    requires ChunkSizeOk(size) && size < SEGMENT_LIMIT
    ensures IsSmall(size) || LargeSize(size)
    ensures IsSmall(size) <==> size < 256
    ensures size % SMALLBIN_SHIFT_SIZE == 0
  {
  }

  // ----- Which chunk serves a request -----

  /** What is taken of a chunk: all of it, if too little would be left. */
  ghost function TakenSize(size: nat, nb: nat): nat
    requires nb <= size
  {
    if size - nb < MIN_CHUNK_SIZE then size else nb
  }

  ghost function Rest(p: nat, size: nat, nb: nat): multiset<Chunk>
    requires nb <= size
  {
    if size - nb < MIN_CHUNK_SIZE then multiset{} else multiset{Chunk(p + nb, size - nb)}
  }

  /**
   A chunk of the bins is preferred to the victim: always if the victim is too small; else
   for a small request if it lies in the bin of that size or in the next one, and for a large
   request if it is smaller than the victim.
   */
  ghost predicate BeatsVictim(dvsize: nat, nb: nat, size: nat)
  {
    dvsize < nb || (if nb < 256 then size < 256 && size <= nb + SmallIndexToSize(1) else size < dvsize)
  }

  /** A smallest chunk of the bins that is large enough, and preferred to the victim. */
  ghost predicate Chosen(bins: multiset<Chunk>, dvsize: nat, nb: nat, c: Chunk)
  {
    c in bins && nb <= c.size && (forall d :: d in bins && nb <= d.size ==> c.size <= d.size) && BeatsVictim(dvsize, nb, c.size)
  }

  /** No chunk of the bins that is large enough is preferred to the victim. */
  ghost predicate PassedOver(bins: multiset<Chunk>, dvsize: nat, nb: nat)
  {
    forall d :: d in bins && nb <= d.size ==> !BeatsVictim(dvsize, nb, d.size)
  }

  /** What serves a request: a chunk of the bins, or else the victim, or else the top chunk. */
  ghost predicate ServedBy(bins: multiset<Chunk>, dv: nat, dvsize: nat, top: nat, topsize: nat, nb: nat, p: nat, size: nat)
  {
    || (exists whole: nat :: Chosen(bins, dvsize, nb, Chunk(p, whole)) && size == TakenSize(whole, nb))
    || (PassedOver(bins, dvsize, nb) && nb <= dvsize && p == dv && size == TakenSize(dvsize, nb))
    || (PassedOver(bins, dvsize, nb) && dvsize < nb < topsize && p == top && size == nb)
  }

  ghost predicate LeastFit(bins: multiset<Chunk>, nb: nat, size: nat)
  {
    nb <= size && forall d :: d in bins && nb <= d.size ==> size <= d.size
  }

  lemma MakeChosen(after: multiset<Chunk>, bins: multiset<Chunk>, dvsize: nat, nb: nat, c: Chunk)
    requires after + multiset{c} == bins && LeastFit(bins, nb, c.size) && (dvsize < nb || BeatsVictim(dvsize, nb, c.size))
    ensures Chosen(bins, dvsize, nb, c)
  {
    assert c in after + multiset{c};
  }

  lemma ChosenFits(bins: multiset<Chunk>, dvsize: nat, nb: nat, c: Chunk)
    requires Chosen(bins, dvsize, nb, c)
    ensures nb <= TakenSize(c.size, nb) < nb + MIN_CHUNK_SIZE
  {
  }

  lemma NothingPreferred(bins: multiset<Chunk>, dvsize: nat, nb: nat)
    requires forall d :: d in bins ==> d.size < nb
    ensures PassedOver(bins, dvsize, nb)
  {
  }

  /** The comparison of the best fit with the victim, in unsigned arithmetic. */
  lemma VictimTest(dvsize: nat, nb: nat, size: nat)
    requires 256 <= nb <= size < SIZE_LIMIT && dvsize < SIZE_LIMIT
    ensures size - nb < Unsigned(dvsize - nb) ==> BeatsVictim(dvsize, nb, size)
    ensures size - nb >= Unsigned(dvsize - nb) ==> nb <= dvsize <= size
  {
  }

  lemma LeastLoses(bins: multiset<Chunk>, dvsize: nat, nb: nat, size: nat)
    requires LeastFit(bins, nb, size) && 256 <= nb <= dvsize <= size
    ensures PassedOver(bins, dvsize, nb)
  {
  }

  // ----- What the bins hold -----

  /** A chunk of the bins lies in the small bin of its size, or is large. */
  lemma BinnedChunk(smallbins: seq<seq<nat>>, smallmap: set<nat>, treebins: seq<Trie>, treemap: set<nat>, c: Chunk)
    requires SmallOk(smallbins, smallmap) && BinsOk(treebins, treemap) && c in SmallChunks(smallbins) + AllChunks(treebins)
    ensures if c in SmallChunks(smallbins) then exists k: nat :: k in smallmap && k < NSMALLBINS && c.size == SmallIndexToSize(k)
            else c.size >= 256 && InBins(treebins, c.size)
  {
    if c in SmallChunks(smallbins) {
      InFrom(smallbins, 0, c);
    } else {
      var i := SomeBin(treebins, c);
      ChunkSize(treebins[i], c);
      BinSizes(treebins, treemap, i, c.size);
    }
  }

  /** The first small bin in use from the size on has a smallest chunk of all bins. */
  lemma SmallFirst(smallbins: seq<seq<nat>>, smallmap: set<nat>, treebins: seq<Trie>, treemap: set<nat>, nb: nat, i: nat)
    requires SmallOk(smallbins, smallmap) && BinsOk(treebins, treemap) && ChunkSizeOk(nb)
    requires i in smallmap && SmallIndex(nb) <= i && forall k: nat :: k in smallmap && SmallIndex(nb) <= k ==> i <= k
    ensures LeastFit(SmallChunks(smallbins) + AllChunks(treebins), nb, SmallIndexToSize(i))
  {
    hide Ordered, BinsOk;
    forall d | d in SmallChunks(smallbins) + AllChunks(treebins) && nb <= d.size
      ensures SmallIndexToSize(i) <= d.size
    {
      BinnedChunk(smallbins, smallmap, treebins, treemap, d);
    }
  }

  lemma NextPreferred(smallbins: seq<seq<nat>>, smallmap: set<nat>, dvsize: nat, nb: nat, i: nat)
    requires SmallOk(smallbins, smallmap) && ChunkSizeOk(nb) && nb < 256 && i in smallmap && SmallIndex(nb) <= i <= SmallIndex(nb) + 1
    ensures BeatsVictim(dvsize, nb, SmallIndexToSize(i)) && SmallIndexToSize(i) - nb < MIN_CHUNK_SIZE
  {
  }

  /** With no small chunk large enough, the best fit of the tree bins is a smallest chunk of all bins. */
  lemma TreeFirst(smallbins: seq<seq<nat>>, smallmap: set<nat>, treebins: seq<Trie>, treemap: set<nat>, nb: nat, v: Trie)
    requires SmallOk(smallbins, smallmap) && BinsOk(treebins, treemap) && Best(treebins, nb, v) && v.Node?
    requires forall k: nat :: k in smallmap ==> SmallIndexToSize(k) < nb
    ensures LeastFit(SmallChunks(smallbins) + AllChunks(treebins), nb, v.size)
  {
    hide Ordered, BinsOk, InBins;
    forall d | d in SmallChunks(smallbins) + AllChunks(treebins) && nb <= d.size
      ensures v.size <= d.size
    {
      BinnedChunk(smallbins, smallmap, treebins, treemap, d);
    }
  }

  lemma NoSmallAbove(smallmap: set<nat>, smallbins: seq<seq<nat>>, nb: nat)
    requires SmallOk(smallbins, smallmap) && nb >= 256
    ensures forall k: nat :: k in smallmap ==> SmallIndexToSize(k) < nb
  {
  }

  /** The victim is large enough, and no bin of the size or the next one is in use. */
  lemma VictimPreferred(smallbins: seq<seq<nat>>, smallmap: set<nat>, treebins: seq<Trie>, treemap: set<nat>, dvsize: nat, nb: nat)
    requires SmallOk(smallbins, smallmap) && BinsOk(treebins, treemap) && ChunkSizeOk(nb) && nb < 256 && nb <= dvsize
    requires SmallIndex(nb) !in smallmap && SmallIndex(nb) + 1 !in smallmap
    ensures PassedOver(SmallChunks(smallbins) + AllChunks(treebins), dvsize, nb)
  {
    hide Ordered, BinsOk;
    forall d | d in SmallChunks(smallbins) + AllChunks(treebins) && nb <= d.size
      ensures !BeatsVictim(dvsize, nb, d.size)
    {
      BinnedChunk(smallbins, smallmap, treebins, treemap, d);
    }
  }

  /** The victim, if there is one, lies directly before or after the chunk. */
  predicate Beside(dv: nat, dvsize: nat, p: nat, size: nat)
  {
    dvsize > 0 && (dv + dvsize == p || p + size == dv)
  }

  class Mspace {
    const base: nat
    const limit: nat
    const small: SmallBinState
    const trees: TreeBinState
    var head: map<nat, Head>
    var foot: map<nat, nat>
    var top: nat
    var topsize: nat
    var dv: nat
    var dvsize: nat
    ghost var tiles: seq<Tile>

    /** The heap invariant, with some free chunks just taken out of their bins. */
    ghost predicate Holds(loose: multiset<Chunk>)
      reads this, small, trees
    {
      && small.Valid() && trees.Valid()
      && Consistent(head, foot, tiles, base, top, topsize) && Segment(tiles, base, top, topsize, limit)
      && Binned(tiles, SmallChunks(small.bins), AllChunks(trees.treebins), dv, dvsize, loose)
    }

    /** The heap invariant. */
    ghost predicate Valid()
      reads this, small, trees
    {
      Holds(multiset{})
    }

    /** The chunks in the small bins and in the tree bins. */
    ghost function Bins(): multiset<Chunk>
      reads small, trees
    {
      SmallChunks(small.bins) + AllChunks(trees.treebins)
    }

    /** The live blocks. */
    ghost function Live(): multiset<Chunk>
      reads this
    {
      Those(tiles, true)
    }

    /** One segment with all its space in the top chunk. */
    constructor (start: nat, end: nat)
      requires 0 < start < end < SEGMENT_LIMIT
      ensures Valid() && Live() == multiset{} && fresh(small) && fresh(trees)
    {
      base, limit := start, end;
      small := new SmallBinState();
      trees := new TreeBinState();
      head := map[start := Head(end - start, false, true)];
      foot := map[];
      top, topsize := start, end - start;
      dv, dvsize := 0, 0;
      tiles := [];
    }

    // ----- Bins -----

    method InsertChunk(addr: nat, size: nat, ghost loose: multiset<Chunk>)
      requires Holds(loose + multiset{Chunk(addr, size)})
      modifies small, trees
      ensures Holds(loose) && Bins() == old(Bins()) + multiset{Chunk(addr, size)}
    {
      hide Consistent, Those, SmallChunks, AllChunks;
      LooseSize(tiles, base, top, topsize, limit, head, foot, SmallChunks(small.bins), AllChunks(trees.treebins), dv, dvsize,
                loose + multiset{Chunk(addr, size)}, Chunk(addr, size));
      SmallOrLarge(size);
      if IsSmall(size) {
        small.InsertSmallChunk(addr, size);
      } else {
        trees.InsertLargeChunk(addr, size);
      }
    }

    method UnlinkChunk(addr: nat, size: nat, ghost loose: multiset<Chunk>)
      requires Holds(loose) && Chunk(addr, size) in SmallChunks(small.bins) + AllChunks(trees.treebins)
      modifies small, trees
      ensures Holds(loose + multiset{Chunk(addr, size)}) && Bins() + multiset{Chunk(addr, size)} == old(Bins())
    {
      hide Consistent, Those, SmallChunks, AllChunks;
      BinSide(small.bins, small.smallmap, trees.treebins, trees.treemap, Chunk(addr, size));
      if IsSmall(size) {
        small.UnlinkSmallChunk(addr, size);
      } else {
        trees.UnlinkLargeChunk(addr, size);
      }
    }

    /** A new designated victim; the old one, known to be small, goes to its bin. */
    method ReplaceDv(p: nat, s: nat)
      requires Holds(multiset{Chunk(p, s)}) && (dvsize != 0 ==> IsSmall(dvsize))
      modifies this`dv, this`dvsize, small
      ensures Valid() && dv == p && dvsize == s
      ensures Bins() == old(Bins()) + Victim(old(dv), old(dvsize))
    {
      hide Consistent, Those, SmallChunks, AllChunks;
      LooseSize(tiles, base, top, topsize, limit, head, foot, SmallChunks(small.bins), AllChunks(trees.treebins), dv, dvsize,
                multiset{Chunk(p, s)}, Chunk(p, s));
      if dvsize != 0 {
        LooseSize(tiles, base, top, topsize, limit, head, foot, SmallChunks(small.bins), AllChunks(trees.treebins), dv, dvsize,
                  multiset{Chunk(p, s)}, Chunk(dv, dvsize));
        SmallOrLarge(dvsize);
        small.InsertSmallChunk(dv, dvsize);
      }
      dv, dvsize := p, s;
    }

    // ----- Taking chunks -----

    /** A free chunk outside the bins goes into use whole. */
    method TakeChunk(p: nat, size: nat)
      requires Holds(multiset{Chunk(p, size)})
      modifies this`head, this`tiles
      ensures Valid() && Live() == old(Live()) + multiset{Chunk(p, size)}
    {
      hide Tiling, Headers, Those, SmallChunks, AllChunks, SetInuseAndPinuse;
      ghost var i := TileOf(tiles, false, Chunk(p, size));
      TakeWhole(head, foot, tiles, base, top, topsize, i);
      ghost var binned := SmallChunks(small.bins) + AllChunks(trees.treebins) + Victim(dv, dvsize);
      Cancel(Those(Splice(tiles, i, i + 1, [tiles[i].(inuse := true)]), false), binned + multiset{}, multiset{Chunk(p, size)});
      tiles := Splice(tiles, i, i + 1, [tiles[i].(inuse := true)]);
      head := SetInuseAndPinuse(head, p, size);
    }

    /** The front of a free chunk outside the bins goes into use; the rest stays outside the bins. */
    method SplitChunk(p: nat, size: nat, nb: nat)
      requires Holds(multiset{Chunk(p, size)}) && ChunkSizeOk(nb) && nb + MIN_CHUNK_SIZE <= size
      modifies this`head, this`foot, this`tiles
      ensures Holds(multiset{Chunk(p + nb, size - nb)}) && Live() == old(Live()) + multiset{Chunk(p, nb)}
    {
      hide Tiling, Headers, Those, SmallChunks, AllChunks, SetSizeOfFree, SetSizeOfInuse, Halves;
      ghost var i := TileOf(tiles, false, Chunk(p, size));
      TakeSplit(head, foot, tiles, base, top, topsize, i, nb);
      var r, rsize := p + nb, size - nb;
      ghost var binned := SmallChunks(small.bins) + AllChunks(trees.treebins) + Victim(dv, dvsize);
      Exchange(Those(Splice(tiles, i, i + 1, Halves(tiles[i], nb)), false), Those(tiles, false), binned,
               multiset{Chunk(p, size)}, multiset{Chunk(r, rsize)});
      tiles := Splice(tiles, i, i + 1, Halves(tiles[i], nb));
      head := SetSizeOfFree(SetSizeOfInuse(head, p, nb), r, rsize);
      foot := foot[r + rsize := rsize];
    }

    /** The front of the top chunk goes into use. */
    method SplitTop(nb: nat) returns (p: nat)
      requires Valid() && ChunkSizeOk(nb) && nb < topsize
      modifies this`head, this`top, this`topsize, this`tiles
      ensures p == old(top) && Valid() && Live() == old(Live()) + multiset{Chunk(p, nb)}
      ensures top == p + nb && topsize == old(topsize) - nb
    {
      hide Tiling, Headers, Those, SmallChunks, AllChunks, SetSizeOfFree, SetSizeOfInuse;
      TakeTop(head, foot, tiles, base, top, topsize, nb);
      p := top;
      var rsize := topsize - nb;
      tiles := tiles + [Tile(top, nb, true)];
      head := SetSizeOfInuse(SetSizeOfFree(head, top + nb, rsize), top, nb);
      top, topsize := top + nb, rsize;
    }

    /** The victim serves the request, split if enough is left. */
    method TakeFromVictim(nb: nat) returns (p: nat, ghost size: nat)
      requires Valid() && ChunkSizeOk(nb) && nb <= dvsize
      modifies this`head, this`foot, this`tiles, this`dv, this`dvsize
      ensures p == old(dv) && Valid() && Live() == old(Live()) + multiset{Chunk(p, size)}
      ensures size == TakenSize(old(dvsize), nb) && Victim(dv, dvsize) == Rest(p, old(dvsize), nb)
    {
      hide Consistent, Those, SmallChunks, AllChunks, Binned, Segment;
      VictimLoose(tiles, SmallChunks(small.bins), AllChunks(trees.treebins), dv, dvsize);
      p := dv;
      var dvs := dvsize;
      var rsize := dvsize - nb;
      dv, dvsize := 0, 0;
      if rsize >= MIN_CHUNK_SIZE {
        SplitChunk(p, dvs, nb);
        LooseVictim(tiles, SmallChunks(small.bins), AllChunks(trees.treebins), p + nb, rsize);
        dv, dvsize := p + nb, rsize;
        size := nb;
      } else {
        TakeChunk(p, dvs);
        size := dvs;
      }
    }

    /** A chunk just taken out of its bin serves the request; what is left becomes the victim. */
    method TakeToVictim(p: nat, size: nat, nb: nat) returns (ghost taken: nat)
      requires Holds(multiset{Chunk(p, size)}) && ChunkSizeOk(nb) && nb <= size && (dvsize != 0 ==> IsSmall(dvsize))
      modifies this`head, this`foot, this`tiles, this`dv, this`dvsize, small
      ensures Valid() && Live() == old(Live()) + multiset{Chunk(p, taken)} && taken == TakenSize(size, nb)
      ensures size - nb < MIN_CHUNK_SIZE ==> dv == old(dv) && dvsize == old(dvsize) && Bins() == old(Bins())
      ensures size - nb >= MIN_CHUNK_SIZE ==> dv == p + nb && dvsize == size - nb && Bins() == old(Bins()) + Victim(old(dv), old(dvsize))
    {
      hide Consistent, Those, SmallChunks, AllChunks, Binned, Segment, Victim;
      var rsize := size - nb;
      if rsize < MIN_CHUNK_SIZE {
        TakeChunk(p, size);
        taken := size;
      } else {
        SplitChunk(p, size, nb);
        ReplaceDv(p + nb, rsize);
        taken := nb;
      }
    }

    /** The same for a large request: what is left goes to a bin. */
    method TakeToBin(p: nat, size: nat, nb: nat) returns (ghost taken: nat)
      requires Holds(multiset{Chunk(p, size)}) && ChunkSizeOk(nb) && nb <= size
      modifies this`head, this`foot, this`tiles, small, trees
      ensures Valid() && Live() == old(Live()) + multiset{Chunk(p, taken)} && taken == TakenSize(size, nb)
      ensures Bins() == old(Bins()) + Rest(p, size, nb)
    {
      hide Consistent, Those, SmallChunks, AllChunks, Binned, Segment;
      var rsize := size - nb;
      if rsize < MIN_CHUNK_SIZE {
        TakeChunk(p, size);
        taken := size;
      } else {
        SplitChunk(p, size, nb);
        assert multiset{} + multiset{Chunk(p + nb, rsize)} == multiset{Chunk(p + nb, rsize)};
        InsertChunk(p + nb, rsize, multiset{});
        taken := nb;
      }
    }

    // ----- mspace_malloc -----

    method PopSmall(i: nat) returns (p: nat)
      requires Valid() && i in small.smallmap
      modifies small
      ensures Holds(multiset{Chunk(p, SmallIndexToSize(i))})
      ensures Bins() + multiset{Chunk(p, SmallIndexToSize(i))} == old(Bins())
    {
      hide Consistent, Those, SmallChunks, AllChunks;
      p := small.UnlinkFirstSmallChunk(i);
    }

    method PopTree(v: Trie) returns (p: nat)
      requires Valid() && InSomeBin(trees.treebins, v)
      modifies small, trees
      ensures Holds(multiset{Chunk(p, v.size)}) && Bins() + multiset{Chunk(p, v.size)} == old(Bins())
    {
      hide Consistent, Those, SmallChunks, AllChunks;
      NodeChunk(trees.treebins, trees.treemap, v);
      p := v.ring[0];
      UnlinkChunk(p, v.size, multiset{});
      assert multiset{} + multiset{Chunk(p, v.size)} == multiset{Chunk(p, v.size)};
    }

    /** No chunk in a bin is large enough. */
    ghost predicate BinsBelow(nb: nat)
      reads small, trees
    {
      forall c :: c in SmallChunks(small.bins) + AllChunks(trees.treebins) ==> c.size < nb
    }

    /**
     The chunk `p` of size `whole` left the bins for the request: `size` bytes of it are in
     use now, and what is left of it, if anything, is the new victim and the old one is binned.
     */
    twostate predicate TookFromBins(nb: nat, p: nat, size: nat, whole: nat)
      reads this, small, trees
    {
      && p != 0 && Chosen(old(Bins()), old(dvsize), nb, Chunk(p, whole)) && size == TakenSize(whole, nb)
      && Live() == old(Live()) + multiset{Chunk(p, size)}
      && if whole - nb < MIN_CHUNK_SIZE then
           dv == old(dv) && dvsize == old(dvsize) && Bins() + multiset{Chunk(p, whole)} == old(Bins())
         else
           && dv == p + nb && dvsize == whole - nb
           && Bins() + multiset{Chunk(p, whole)} == old(Bins()) + Victim(old(dv), old(dvsize))
    }

    /** A chunk just popped from a bin serves a request that the victim is too small for. */
    method TakePopped(p: nat, whole: nat, nb: nat, ghost bins: multiset<Chunk>) returns (ghost size: nat)
      requires Holds(multiset{Chunk(p, whole)}) && ChunkSizeOk(nb) && nb <= whole && dvsize < nb < 256
      requires Bins() + multiset{Chunk(p, whole)} == bins && LeastFit(bins, nb, whole)
      modifies this`head, this`foot, this`tiles, this`dv, this`dvsize, small
      ensures Valid() && p != 0 && Chosen(bins, old(dvsize), nb, Chunk(p, whole)) && size == TakenSize(whole, nb)
      ensures Live() == old(Live()) + multiset{Chunk(p, size)}
      ensures whole - nb < MIN_CHUNK_SIZE ==> dv == old(dv) && dvsize == old(dvsize) && Bins() + multiset{Chunk(p, whole)} == bins
      ensures whole - nb >= MIN_CHUNK_SIZE ==>
                && dv == p + nb && dvsize == whole - nb
                && Bins() + multiset{Chunk(p, whole)} == bins + Victim(old(dv), old(dvsize))
    {
      hide Consistent, Those, SmallChunks, AllChunks, Binned, Segment, Victim, Chosen, SmallOk, BeatsVictim, LeastFit;
      VictimSmall(multiset{Chunk(p, whole)});
      MakeChosen(Bins(), bins, dvsize, nb, Chunk(p, whole));
      TakenNonNull(p, whole);
      size := TakeToVictim(p, whole, nb);
    }

    /** From the bin of the size or from the next one, with nothing left over. */
    method TakeFitting(i: nat, nb: nat) returns (p: nat, ghost size: nat)
      requires Valid() && ChunkSizeOk(nb) && nb < 256 && i in small.smallmap && SmallIndex(nb) <= i <= SmallIndex(nb) + 1
      requires SmallIndex(nb) in small.smallmap ==> i == SmallIndex(nb)
      modifies this`head, this`foot, this`tiles, small
      ensures Valid() && p != 0 && TookFromBins(nb, p, size, SmallIndexToSize(i))
    {
      hide Consistent, Those, SmallChunks, AllChunks, Binned, Segment, BinsOk, Victim, Chosen, SmallOk, BeatsVictim, LeastFit;
      ghost var bins := Bins();
      SmallFirst(small.bins, small.smallmap, trees.treebins, trees.treemap, nb, i);
      NextPreferred(small.bins, small.smallmap, dvsize, nb, i);
      p := PopSmall(i);
      size := SmallIndexToSize(i);
      MakeChosen(Bins(), bins, dvsize, nb, Chunk(p, size));
      TakenNonNull(p, size);
      TakeChunk(p, SmallIndexToSize(i));
    }

    /** From the next small bin in use. */
    method TakeNextSmall(i: nat, nb: nat) returns (p: nat, ghost size: nat)
      requires Valid() && ChunkSizeOk(nb) && dvsize < nb < 256 && i in small.smallmap && SmallIndex(nb) <= i
      requires forall k: nat :: k in small.smallmap && SmallIndex(nb) <= k ==> i <= k
      modifies this`head, this`foot, this`tiles, this`dv, this`dvsize, small
      ensures Valid() && p != 0 && TookFromBins(nb, p, size, SmallIndexToSize(i))
    {
      hide Consistent, Those, SmallChunks, AllChunks, Binned, Segment, BinsOk, Victim, Chosen, SmallOk, BeatsVictim, LeastFit;
      ghost var bins := Bins();
      SmallFirst(small.bins, small.smallmap, trees.treebins, trees.treemap, nb, i);
      p := PopSmall(i);
      size := TakePopped(p, SmallIndexToSize(i), nb, bins);
    }

    /** tmalloc_small: from the tree bins, when no small bin can serve the request. */
    method TakeSmallest(nb: nat) returns (p: nat, ghost size: nat, ghost whole: nat)
      requires Valid() && ChunkSizeOk(nb) && dvsize < nb < 256 && trees.treemap != {}
      requires forall k: nat :: k in small.smallmap ==> SmallIndexToSize(k) < nb
      modifies this`head, this`foot, this`tiles, this`dv, this`dvsize, small, trees
      ensures Valid() && p != 0 && TookFromBins(nb, p, size, whole)
    {
      hide Consistent, Those, SmallChunks, AllChunks, Binned, Segment, Best, BinsOk, Victim, Chosen, SmallOk, BeatsVictim, LeastFit;
      ghost var bins := Bins();
      var v := trees.TmallocSmall(nb);
      BestInBin(trees.treebins, nb, v);
      TreeFirst(small.bins, small.smallmap, trees.treebins, trees.treemap, nb, v);
      p := PopTree(v);
      whole := v.size;
      size := TakePopped(p, v.size, nb, bins);
    }

    /** A small request, from the small bins and then from the smallest chunk of the tree bins. */
    method MallocSmall(nb: nat) returns (p: nat, ghost size: nat, ghost whole: nat)
      requires Valid() && ChunkSizeOk(nb) && nb < 256
      modifies this`head, this`foot, this`tiles, this`dv, this`dvsize, small, trees
      ensures Valid()
      ensures p != 0 ==> TookFromBins(nb, p, size, whole)
      ensures p == 0 ==> PassedOver(old(Bins()), old(dvsize), nb) && Unchanged(old(tiles), old(dv), old(dvsize), old(Bins()))
    {
      hide Holds, SmallChunks, AllChunks, PassedOver, BinsOk, Chosen, Victim;
      SizeIndex(nb);
      SmallIsOk();
      p, size, whole := 0, 0, 0;
      var idx := SmallIndex(nb);
      if idx in small.smallmap || idx + 1 in small.smallmap {
        var i := if idx in small.smallmap then idx else idx + 1;
        whole := SmallIndexToSize(i);
        p, size := TakeFitting(i, nb);
      } else if nb > dvsize {
        var leftBits := set j | j in small.smallmap && idx < j;
        if leftBits != {} {
          var i := LeastBit(leftBits);
          assert forall j: nat :: j in small.smallmap && idx < j ==> j in leftBits;
          whole := SmallIndexToSize(i);
          p, size := TakeNextSmall(i, nb);
        } else {
          assert forall j: nat :: j in small.smallmap && idx < j ==> j in leftBits;
          if trees.treemap != {} {
            p, size, whole := TakeSmallest(nb);
          } else {
            NoBinFits(small.bins, small.smallmap, trees.treebins, trees.treemap, nb);
            NothingPreferred(Bins(), dvsize, nb);
          }
        }
      } else {
        VictimPreferred(small.bins, small.smallmap, trees.treebins, trees.treemap, dvsize, nb);
      }
    }

    lemma SmallIsOk()
      requires Valid()
      ensures SmallOk(small.bins, small.smallmap) && BinsOk(trees.treebins, trees.treemap)
    {
    }

    ghost predicate Unchanged(t: seq<Tile>, victim: nat, victimSize: nat, bins: multiset<Chunk>)
      reads this, small, trees
    {
      tiles == t && dv == victim && dvsize == victimSize && Bins() == bins
    }

    /** A chunk outside the bins has an address. */
    lemma TakenNonNull(p: nat, size: nat)
      requires Holds(multiset{Chunk(p, size)})
      ensures p != 0 && ChunkSizeOk(size)
    {
      LooseSize(tiles, base, top, topsize, limit, head, foot, SmallChunks(small.bins), AllChunks(trees.treebins), dv, dvsize,
                multiset{Chunk(p, size)}, Chunk(p, size));
    }

    /** A victim below a small size is small. */
    lemma VictimSmall(loose: multiset<Chunk>)
      requires Holds(loose)
      ensures dvsize < 256 && dvsize != 0 ==> IsSmall(dvsize)
    {
    }

    /** A large request from the tree bins, unless the victim fits better. */
    method MallocLarge(nb: nat) returns (p: nat, ghost size: nat, ghost whole: nat)
      requires Valid() && ChunkSizeOk(nb) && nb >= 256 && nb < SIZE_LIMIT
      modifies this`head, this`foot, this`tiles, small, trees
      ensures Valid()
      ensures p != 0 ==> Chosen(old(Bins()), dvsize, nb, Chunk(p, whole)) && size == TakenSize(whole, nb)
      ensures p != 0 ==> Live() == old(Live()) + multiset{Chunk(p, size)}
      ensures p != 0 ==> Bins() + multiset{Chunk(p, whole)} == old(Bins()) + Rest(p, whole, nb)
      ensures p == 0 ==> PassedOver(old(Bins()), dvsize, nb) && Unchanged(old(tiles), dv, dvsize, old(Bins()))
    {
      hide Consistent, Those, SmallChunks, AllChunks, Binned, Segment, Best, BinsOk, SmallOk, Chosen, PassedOver, BeatsVictim, LeastFit;
      ghost var bins := Bins();
      whole := 0;
      if nb >= SEGMENT_LIMIT || trees.treemap == {} {
        NoLargeFits(small.bins, small.smallmap, trees.treebins, trees.treemap, nb);
        NothingPreferred(bins, dvsize, nb);
        return 0, 0, 0;
      }
      var v := trees.TmallocLarge(nb);
      if v.Nil? {
        NoLargeFits(small.bins, small.smallmap, trees.treebins, trees.treemap, nb);
        NothingPreferred(bins, dvsize, nb);
        return 0, 0, 0;
      }
      BestInBin(trees.treebins, nb, v);
      var rsize := v.size - nb;
      NodeChunk(trees.treebins, trees.treemap, v);
      NoSmallAbove(small.smallmap, small.bins, nb);
      TreeFirst(small.bins, small.smallmap, trees.treebins, trees.treemap, nb, v);
      VictimAndTop();
      VictimTest(dvsize, nb, v.size);
      if rsize < Unsigned(dvsize - nb) {
        p := PopTree(v);
        whole := v.size;
        MakeChosen(Bins(), bins, dvsize, nb, Chunk(p, whole));
        TakenNonNull(p, v.size);
        size := TakeToBin(p, v.size, nb);
      } else {
        LeastLoses(bins, dvsize, nb, v.size);
        return 0, 0, 0;
      }
    }

    /** Neither a free chunk nor the top chunk can serve a request of `nb` bytes. */
    ghost predicate NothingFits(nb: nat)
      reads this
    {
      topsize <= nb && forall c :: c in Those(tiles, false) ==> c.size < nb
    }

    /**
     mspace_malloc, without help of the system: a block of memory, two words into its chunk,
     or 0. It fails only if nothing is large enough.
     */
    method Malloc(bytes: nat) returns (mem: nat, ghost size: nat)
      requires Valid() && bytes < SIZE_LIMIT
      modifies this`head, this`foot, this`top, this`topsize, this`tiles, this`dv, this`dvsize, small, trees
      ensures Valid()
      ensures mem != 0 ==> mem > CHUNK_MEM && Live() == old(Live()) + multiset{Chunk(mem - CHUNK_MEM, size)}
      ensures mem != 0 ==> bytes + CHUNK_OVERHEAD <= size && ChunkSizeFor(bytes) <= size < ChunkSizeFor(bytes) + MIN_CHUNK_SIZE
      ensures mem != 0 ==>
                ServedBy(old(Bins()), old(dv), old(dvsize), old(top), old(topsize), ChunkSizeFor(bytes), mem - CHUNK_MEM, size)
      ensures mem == 0 ==> tiles == old(tiles) && Live() == old(Live())
      ensures mem == 0 ==> NothingFits(if bytes >= MAX_REQUEST then MAX_SIZE_T else ChunkSizeFor(bytes))
    {
      hide Consistent, Those, SmallChunks, AllChunks, Binned, Segment, BinsBelow, NothingFits, Chosen, PassedOver, Victim, Rest;
      PadFits(bytes);
      var p, nb: nat := 0, 0;
      size := 0;
      ghost var whole: nat := 0;
      if bytes <= MAX_SMALL_REQUEST {
        nb := if bytes < MIN_REQUEST then MIN_CHUNK_SIZE else PadRequest(bytes);
        p, size, whole := MallocSmall(nb);
      } else if bytes >= MAX_REQUEST {
        nb := MAX_SIZE_T;
        HugeBelow();
        NothingPreferred(Bins(), dvsize, nb);
      } else {
        nb := PadRequest(bytes);
        p, size, whole := MallocLarge(nb);
      }
      if p == 0 {
        p, size := MallocRest(nb);
        if p == 0 {
          return 0, 0;
        }
      } else {
        ChosenFits(old(Bins()), old(dvsize), nb, Chunk(p, whole));
      }
      mem := p + CHUNK_MEM;
    }

    /** From the victim, and then from the top chunk. */
    method MallocRest(nb: nat) returns (p: nat, ghost size: nat)
      requires Valid() && (ChunkSizeOk(nb) || nb == MAX_SIZE_T) && PassedOver(Bins(), dvsize, nb)
      modifies this`head, this`foot, this`top, this`topsize, this`tiles, this`dv, this`dvsize
      ensures Valid()
      ensures p != 0 ==> Live() == old(Live()) + multiset{Chunk(p, size)}
      ensures p != 0 && nb <= old(dvsize) ==>
                && p == old(dv) && size == TakenSize(old(dvsize), nb) && Victim(dv, dvsize) == Rest(p, old(dvsize), nb)
                && top == old(top) && topsize == old(topsize)
      ensures p != 0 && nb > old(dvsize) ==>
                && p == old(top) && nb < old(topsize) && size == nb && top == p + nb && topsize == old(topsize) - nb
                && dv == old(dv) && dvsize == old(dvsize)
      ensures p == 0 ==> tiles == old(tiles) && NothingFits(nb)
      ensures nb == MAX_SIZE_T ==> p == 0
    {
      hide Consistent, Those, SmallChunks, AllChunks, Binned, Segment;
      VictimAndTop();
      if nb <= dvsize {
        p, size := TakeFromVictim(nb);
      } else if nb < topsize {
        p := SplitTop(nb);
        size := nb;
      } else {
        p, size := 0, 0;
        RestBelow(tiles, SmallChunks(small.bins), AllChunks(trees.treebins), dv, dvsize, nb);
      }
    }

    /** Sizes and addresses of the victim and of the top chunk. */
    lemma VictimAndTop()
      requires Valid()
      ensures topsize < SEGMENT_LIMIT && dvsize < SEGMENT_LIMIT && top > 0 && (dvsize > 0 ==> dv > 0)
    {
      if tiles != [] {
        TileSize(tiles, base, top, 0);
      }
      if dvsize > 0 {
        LooseSize(tiles, base, top, topsize, limit, head, foot, SmallChunks(small.bins), AllChunks(trees.treebins), dv, dvsize,
                  multiset{}, Chunk(dv, dvsize));
      }
    }

    lemma HugeBelow()
      requires Valid()
      ensures BinsBelow(MAX_SIZE_T)
    {
      forall c | c in SmallChunks(small.bins) + AllChunks(trees.treebins)
        ensures c.size < MAX_SIZE_T
      {
        BinSide(small.bins, small.smallmap, trees.treebins, trees.treemap, c);
      }
    }

    // ----- mspace_free -----

    /** Headers and tiles of a chunk released together with its free neighbours. */
    method WriteFree(ghost i: nat, p: nat, size: nat)
      requires Consistent(head, foot, tiles, base, top, topsize)
      requires i < |tiles| && tiles[i].inuse && End(tiles, i) < |tiles|
      requires p == tiles[First(tiles, i)].addr && p + size == tiles[End(tiles, i)].addr
      modifies this`head, this`foot, this`tiles
      ensures Consistent(head, foot, tiles, base, top, topsize)
      ensures size > 0 && Those(tiles, false) + Absorbed(old(tiles), i) == Those(old(tiles), false) + multiset{Chunk(p, size)}
      ensures Live() + multiset{Chunk(old(tiles)[i].addr, old(tiles)[i].size)} == old(Live())
    {
      hide Tiling, Headers, Those, SetPinuse, SetSizeOfFree, Absorbed, First, End, Splice;
      Release(head, foot, tiles, base, top, topsize, i);
      ghost var lo, hi := First(tiles, i), End(tiles, i);
      tiles := Splice(tiles, lo, hi, [Tile(p, size, false)]);
      head := SetPinuse(SetSizeOfFree(head, p, size), p + size, false);
      foot := foot[p + size := size];
    }

    /** The last chunk, with the free chunk before it, goes back to the top chunk. */
    method WriteTop(ghost i: nat, p: nat)
      requires Consistent(head, foot, tiles, base, top, topsize)
      requires i < |tiles| && tiles[i].inuse && End(tiles, i) == |tiles| && p == tiles[First(tiles, i)].addr
      modifies this`head, this`top, this`topsize, this`tiles
      ensures Consistent(head, foot, tiles, base, top, topsize)
      ensures p < old(top) && top == p && topsize == old(topsize) + (old(top) - p)
      ensures Those(tiles, false) + Absorbed(old(tiles), i) == Those(old(tiles), false)
      ensures Live() + multiset{Chunk(old(tiles)[i].addr, old(tiles)[i].size)} == old(Live())
    {
      hide Tiling, Headers, Those, SetSizeOfFree, Absorbed, First, End;
      ReleaseTop(head, foot, tiles, base, top, topsize, i);
      var tsize := topsize + (top - p);
      head := SetSizeOfFree(head, p, tsize);
      tiles := tiles[..First(tiles, i)];
      top, topsize := p, tsize;
    }

    /** What is released is a loose chunk. */
    method ReleaseToLoose(ghost i: nat, p: nat, size: nat, ghost loose: multiset<Chunk>)
      requires Holds(loose) && i < |tiles| && tiles[i].inuse && End(tiles, i) < |tiles| && loose == Absorbed(tiles, i)
      requires p == tiles[First(tiles, i)].addr && p + size == tiles[End(tiles, i)].addr
      modifies this`head, this`foot, this`tiles
      ensures Holds(multiset{Chunk(p, size)})
      ensures Live() + multiset{Chunk(old(tiles)[i].addr, old(tiles)[i].size)} == old(Live())
    {
      hide Consistent, Those, SmallChunks, AllChunks, First, End, Absorbed, Victim;
      ghost var before := Those(tiles, false);
      WriteFree(i, p, size);
      Exchange(Those(tiles, false), before, SmallChunks(small.bins) + AllChunks(trees.treebins) + Victim(dv, dvsize),
               loose, multiset{Chunk(p, size)});
    }

    /** The victim is among the chunks merged, and what is released is the new victim. */
    method ReleaseToVictim(ghost i: nat, p: nat, size: nat, ghost loose: multiset<Chunk>)
      requires Holds(loose) && i < |tiles| && tiles[i].inuse && End(tiles, i) < |tiles|
      requires dvsize > 0 && loose + Victim(dv, dvsize) == Absorbed(tiles, i)
      requires p == tiles[First(tiles, i)].addr && p + size == tiles[End(tiles, i)].addr
      modifies this`head, this`foot, this`tiles, this`dv, this`dvsize
      ensures Valid() && dv == p && dvsize == size
      ensures Live() + multiset{Chunk(old(tiles)[i].addr, old(tiles)[i].size)} == old(Live())
    {
      hide Consistent, Those, SmallChunks, AllChunks, First, End, Absorbed;
      ghost var before := Those(tiles, false);
      WriteFree(i, p, size);
      Exchange(Those(tiles, false), before, SmallChunks(small.bins) + AllChunks(trees.treebins),
               loose + Victim(dv, dvsize), multiset{Chunk(p, size)});
      dv, dvsize := p, size;
    }

    /** What is released goes to the top chunk; a victim merged on the way is no victim any more. */
    method ReleaseToTop(ghost i: nat, p: nat, ghost loose: multiset<Chunk>)
      requires Holds(loose) && i < |tiles| && tiles[i].inuse && End(tiles, i) == |tiles| && p == tiles[First(tiles, i)].addr
      requires p == dv ==> dvsize > 0 && loose + Victim(dv, dvsize) == Absorbed(tiles, i)
      requires p != dv ==> loose == Absorbed(tiles, i)
      modifies this`head, this`top, this`topsize, this`tiles, this`dv, this`dvsize
      ensures Valid() && top == p
      ensures if p == old(dv) then dv == 0 && dvsize == 0 else dv == old(dv) && dvsize == old(dvsize)
      ensures Live() + multiset{Chunk(old(tiles)[i].addr, old(tiles)[i].size)} == old(Live())
    {
      hide Consistent, Those, SmallChunks, AllChunks, First, End, Absorbed;
      ghost var before, binned := Those(tiles, false), SmallChunks(small.bins) + AllChunks(trees.treebins);
      WriteTop(i, p);
      if p == dv {
        Exchange(Those(tiles, false), before, binned, loose + Victim(dv, dvsize), multiset{});
        dv, dvsize := 0, 0;
      } else {
        Exchange(Those(tiles, false), before, binned + Victim(dv, dvsize), loose, multiset{});
      }
    }

    /** A free chunk is the victim, or loose, or in a bin. */
    lemma FreeWhere(k: nat, loose: multiset<Chunk>)
      requires Holds(loose) && k < |tiles| && !tiles[k].inuse && tiles[k].addr > 0
      ensures tiles[k].addr == dv ==> dvsize > 0 && tiles[k].size == dvsize
      ensures tiles[k].addr != dv && Chunk(tiles[k].addr, tiles[k].size) !in loose ==>
                Chunk(tiles[k].addr, tiles[k].size) in SmallChunks(small.bins) + AllChunks(trees.treebins)
    {
      hide Headers, Those, SmallChunks, AllChunks, Tiling;
      IsOneOf(tiles, false, Chunk(tiles[k].addr, tiles[k].size));
      if dvsize > 0 {
        assert Chunk(dv, dvsize) in Victim(dv, dvsize);
        var j := TileOf(tiles, false, Chunk(dv, dvsize));
        if j != k {
          Apart(tiles, base, top, j, k);
        }
      }
    }

    /** A live chunk is not the victim. */
    lemma LiveApart(i: nat, loose: multiset<Chunk>)
      requires Holds(loose) && i < |tiles| && tiles[i].inuse
      ensures tiles[i].addr != dv && tiles[i].addr > 0
    {
      hide Headers, Those, SmallChunks, AllChunks, Tiling;
      TileSize(tiles, base, top, i);
      if dvsize > 0 {
        assert Chunk(dv, dvsize) in Victim(dv, dvsize);
        var j := TileOf(tiles, false, Chunk(dv, dvsize));
        Apart(tiles, base, top, i, j);
      }
    }

    /** The victim ends where a live chunk starts only if it is the chunk before. */
    lemma VictimBefore(i: nat)
      requires Valid() && i < |tiles| && tiles[i].inuse && dvsize > 0 && dv + dvsize == tiles[i].addr
      ensures !PrevInUse(tiles, i) && tiles[i - 1].addr == dv
    {
      hide Headers, Those, SmallChunks, AllChunks;
      assert Chunk(dv, dvsize) in Victim(dv, dvsize);
      var j := TileOf(tiles, false, Chunk(dv, dvsize));
      assert TileOk(tiles, i, top);
      Apart(tiles, base, top, i, j);
      InAddressOrder(tiles, base, top, if i < j then i else j, if i < j then j else i);
      assert TileOk(tiles, i - 1, top);
      if j != i - 1 {
        Apart(tiles, base, top, i - 1, j);
      }
    }

    /** The victim is below the top chunk. */
    lemma VictimBelowTop(loose: multiset<Chunk>)
      requires Holds(loose)
      ensures dv < top && (dvsize == 0 ==> dv == 0)
    {
      hide Headers, Those, SmallChunks, AllChunks;
      if dvsize > 0 {
        assert Chunk(dv, dvsize) in Victim(dv, dvsize);
        var j := TileOf(tiles, false, Chunk(dv, dvsize));
        BelowTop(tiles, base, top, j);
      } else if tiles != [] {
        BelowTop(tiles, base, top, 0);
      }
    }

    /** Where the free neighbours of a live chunk are. */
    lemma NeighbourChunks(i: nat)
      requires Valid() && i < |tiles| && tiles[i].inuse
      ensures tiles[i].addr != dv
      ensures if PrevInUse(tiles, i) then BeforeChunk(tiles, i) == multiset{}
              else var c := Chunk(tiles[i - 1].addr, tiles[i - 1].size);
                   && BeforeChunk(tiles, i) == multiset{c}
                   && if c.addr == dv then dvsize > 0 && multiset{c} == Victim(dv, dvsize) && c.size == dvsize
                      else c in SmallChunks(small.bins) + AllChunks(trees.treebins)
    {
      hide Headers, Tiling, Those, SmallChunks, AllChunks;
      LiveApart(i, multiset{});
      if !PrevInUse(tiles, i) {
        TileSize(tiles, base, top, i - 1);
        FreeWhere(i - 1, multiset{});
      }
    }

    /** The same for the one after, when the one before may be loose already. */
    lemma NextFree(i: nat, loose: multiset<Chunk>)
      requires Holds(loose) && i + 1 < |tiles| && !tiles[i + 1].inuse && (loose == multiset{} || loose == BeforeChunk(tiles, i))
      ensures var c := Chunk(tiles[i + 1].addr, tiles[i + 1].size);
              && NextChunk(tiles, i) == multiset{c}
              && if c.addr == dv then dvsize > 0 && multiset{c} == Victim(dv, dvsize) && c.size == dvsize
                 else c in SmallChunks(small.bins) + AllChunks(trees.treebins)
    {
      hide Headers, Those, SmallChunks, AllChunks, Tiling;
      TileSize(tiles, base, top, i + 1);
      FreeWhere(i + 1, loose);
      if loose != multiset{} {
        Apart(tiles, base, top, i - 1, i + 1);
      }
    }

    /**
     mspace_free of a live block: it is merged with the free chunks on both sides, and what
     comes out goes to the top chunk, to the victim or to a bin.
     */
    method Free(mem: nat, ghost size: nat)
      requires Valid()
      requires mem != 0 ==> mem > CHUNK_MEM && Chunk(mem - CHUNK_MEM, size) in Live()
      modifies this`head, this`foot, this`top, this`topsize, this`tiles, this`dv, this`dvsize, small, trees
      ensures Valid()
      ensures mem == 0 ==> tiles == old(tiles) && Live() == old(Live())
      ensures mem != 0 ==> Live() + multiset{Chunk(mem - CHUNK_MEM, size)} == old(Live())
      ensures mem == 0 ==> dv == old(dv) && dvsize == old(dvsize) && top == old(top)
      ensures mem != 0 ==> (top != old(top) <==> mem - CHUNK_MEM + size == old(top))
      ensures mem != 0 && !Beside(old(dv), old(dvsize), mem - CHUNK_MEM, size) ==> dv == old(dv) && dvsize == old(dvsize)
      ensures mem != 0 && Beside(old(dv), old(dvsize), mem - CHUNK_MEM, size) ==>
                if top != old(top) then dvsize == 0
                else dv <= mem - CHUNK_MEM && mem - CHUNK_MEM + size <= dv + dvsize
    {
      hide Consistent, Those, SmallChunks, AllChunks, Binned, Segment, First, End, BeforeChunk, NextChunk, Victim;
      if mem == 0 {
        return;
      }
      var p := mem - CHUNK_MEM;
      ghost var i := TileOf(tiles, true, Chunk(p, size));
      Neighbours(head, foot, tiles, base, top, topsize, i);
      NeighbourChunks(i);
      VictimBelowTop(multiset{});
      if dvsize > 0 && dv + dvsize == p {
        VictimBefore(i);
      }
      var psize := head[p].size;
      var next := p + psize;
      ghost var loose: multiset<Chunk> := multiset{};
      if !head[p].pinuse {
        var prevsize := foot[p];
        p, psize := p - prevsize, psize + prevsize;
        if p != dv {
          UnlinkChunk(p, prevsize, multiset{});
          loose := multiset{} + multiset{Chunk(p, prevsize)};
        }
      }
      FreeForward(i, p, psize, next, loose);
    }

    /** What is released goes to a bin. */
    method ReleaseToBin(ghost i: nat, p: nat, size: nat, ghost loose: multiset<Chunk>)
      requires Holds(loose) && i < |tiles| && tiles[i].inuse && End(tiles, i) < |tiles| && loose == Absorbed(tiles, i)
      requires p == tiles[First(tiles, i)].addr && p + size == tiles[End(tiles, i)].addr
      modifies this`head, this`foot, this`tiles, small, trees
      ensures Valid()
      ensures Live() + multiset{Chunk(old(tiles)[i].addr, old(tiles)[i].size)} == old(Live())
    {
      hide Consistent, Those, SmallChunks, AllChunks, First, End, Absorbed, Binned, Segment;
      ReleaseToLoose(i, p, size, loose);
      assert multiset{} + multiset{Chunk(p, size)} == multiset{Chunk(p, size)};
      InsertChunk(p, size, multiset{});
    }

    /** Merging with the chunk after, when the one before is merged already. */
    method FreeForward(ghost i: nat, p: nat, psize: nat, next: nat, ghost loose: multiset<Chunk>)
      requires Holds(loose) && i < |tiles| && tiles[i].inuse
      requires p == tiles[First(tiles, i)].addr && p + psize == next == tiles[i].addr + tiles[i].size
      requires if p == dv then dvsize > 0 && loose == multiset{} && BeforeChunk(tiles, i) == Victim(dv, dvsize)
               else loose == BeforeChunk(tiles, i)
      modifies this`head, this`foot, this`top, this`topsize, this`tiles, this`dv, this`dvsize, small, trees
      ensures Valid()
      ensures next == old(top) ==>
                top == p && if p == old(dv) then dv == 0 && dvsize == 0 else dv == old(dv) && dvsize == old(dvsize)
      ensures next != old(top) ==>
                && top == old(top)
                && if next == old(dv) then dv == p && dvsize == psize + old(dvsize)
                   else if p == old(dv) then dv == p && psize <= dvsize
                   else dv == old(dv) && dvsize == old(dvsize)
      ensures Live() + multiset{Chunk(old(tiles)[i].addr, old(tiles)[i].size)} == old(Live())
    {
      hide Tiling, Headers, Those, SmallChunks, AllChunks, Binned, Segment, First, End, BeforeChunk, NextChunk, Victim;
      Neighbours(head, foot, tiles, base, top, topsize, i);
      VictimBelowTop(loose);
      if head[next].cinuse {
        LiveApart(i + 1, loose);
        if p == dv {
          ReleaseToVictim(i, p, psize, loose);
        } else {
          ReleaseToBin(i, p, psize, loose);
        }
      } else if next == top {
        ReleaseToTop(i, p, loose);
      } else {
        NextFree(i, loose);
        if next == dv {
          ReleaseToVictim(i, p, psize + dvsize, loose);
        } else {
          var nsize := head[next].size;
          UnlinkChunk(next, nsize, loose);
          if p == dv {
            ReleaseToVictim(i, p, psize + nsize, loose + multiset{Chunk(next, nsize)});
          } else {
            ReleaseToBin(i, p, psize + nsize, loose + multiset{Chunk(next, nsize)});
          }
        }
      }
    }
  }

  /** Free chunks are in the bins or the victim. */
  lemma RestBelow(tiles: seq<Tile>, small: multiset<Chunk>, large: multiset<Chunk>, dv: nat, dvsize: nat, nb: nat)
    requires Binned(tiles, small, large, dv, dvsize, multiset{}) && dvsize < nb
    requires forall c :: c in small + large ==> c.size < nb
    ensures forall c :: c in Those(tiles, false) ==> c.size < nb
  {
    forall c | c in Those(tiles, false)
      ensures c.size < nb
    {
      assert c in small + large || c in Victim(dv, dvsize);
    }
  }

  /** The victim is given up. */
  lemma VictimLoose(tiles: seq<Tile>, small: multiset<Chunk>, large: multiset<Chunk>, dv: nat, dvsize: nat)
    requires Binned(tiles, small, large, dv, dvsize, multiset{}) && dvsize > 0
    ensures Binned(tiles, small, large, 0, 0, multiset{Chunk(dv, dvsize)})
  {
    hide Those;
  }

  /** A loose chunk becomes the victim. */
  lemma LooseVictim(tiles: seq<Tile>, small: multiset<Chunk>, large: multiset<Chunk>, p: nat, size: nat)
    requires Binned(tiles, small, large, 0, 0, multiset{Chunk(p, size)}) && size > 0
    ensures Binned(tiles, small, large, p, size, multiset{})
  {
    hide Those;
  }

  /** A loose chunk is a free tile of the segment. */
  lemma LooseSize(tiles: seq<Tile>, base: nat, top: nat, topsize: nat, limit: nat, head: map<nat, Head>, foot: map<nat, nat>,
                  small: multiset<Chunk>, large: multiset<Chunk>, dv: nat, dvsize: nat, loose: multiset<Chunk>, c: Chunk)
    requires Consistent(head, foot, tiles, base, top, topsize) && Segment(tiles, base, top, topsize, limit)
    requires Binned(tiles, small, large, dv, dvsize, loose) && c in small + large + Victim(dv, dvsize) + loose
    ensures ChunkSizeOk(c.size) && c.size < SEGMENT_LIMIT && c.addr > 0 && c in Those(tiles, false)
  {
    var i := TileOf(tiles, false, c);
    TileSize(tiles, base, top, i);
  }

  /** The small bins hold the small chunks and the tree bins the large ones. */
  lemma BinSide(smallbins: seq<seq<nat>>, smallmap: set<nat>, treebins: seq<Trie>, treemap: set<nat>, c: Chunk)
    requires SmallOk(smallbins, smallmap) && BinsOk(treebins, treemap)
    requires c in SmallChunks(smallbins) + AllChunks(treebins)
    ensures IsSmall(c.size) ==> c in SmallChunks(smallbins)
    ensures !IsSmall(c.size) ==> c in AllChunks(treebins) && LargeSize(c.size)
  {
    if c in SmallChunks(smallbins) {
      InFrom(smallbins, 0, c);
    }
    if c in AllChunks(treebins) {
      var i := SomeBin(treebins, c);
      ChunkSize(treebins[i], c);
      BinSizes(treebins, treemap, i, c.size);
    }
  }

  // ----- Nodes and chunks -----

  ghost predicate InSomeBin(bins: seq<Trie>, v: Trie)
  {
    exists i: nat :: i < |bins| && NodeOf(bins[i], v)
  }

  lemma {:induction false} NodeRing(t: Trie, v: Trie, lo: nat, w: nat)
    requires Ordered(t, lo, w) && NodeOf(t, v)
    ensures v.ring != [] && Chunk(v.ring[0], v.size) in Chunks(t)
  {
    hide Ordered, Chunks, RingChunks, HasSize, Pow2;
    OpenNode(t, lo, w);
    NodeChunks(t.size, t.ring, t.left, t.right);
    if t == v {
      RingSize(t.ring, t.size, Chunk(t.ring[0], t.size));
      assert Chunk(v.ring[0], v.size) in RingChunks(t.ring, t.size);
    } else if NodeOf(t.left, v) {
      NodeRing(t.left, v, lo, w - 1);
      assert Chunk(v.ring[0], v.size) in Chunks(t.left);
    } else {
      NodeRing(t.right, v, lo + Pow2(w - 1), w - 1);
      assert Chunk(v.ring[0], v.size) in Chunks(t.right);
    }
  }

  lemma {:induction false} InAllChunks(bins: seq<Trie>, i: nat, c: Chunk)
    requires i < |bins| && c in Chunks(bins[i])
    ensures c in AllChunks(bins)
  {
    if i > 0 {
      InAllChunks(bins[1..], i - 1, c);
    }
  }

  lemma NodeChunk(bins: seq<Trie>, treemap: set<nat>, v: Trie)
    requires BinsOk(bins, treemap) && InSomeBin(bins, v)
    ensures v.Node? && v.ring != [] && Chunk(v.ring[0], v.size) in AllChunks(bins) && LargeSize(v.size)
  {
    var i: nat :| i < |bins| && NodeOf(bins[i], v);
    assert BinOk(bins[i], i);
    NodeRing(bins[i], v, LoOf(i), WidthOf(i));
    InAllChunks(bins, i, Chunk(v.ring[0], v.size));
    NodeOfHasSize(bins[i], v);
    BinSizes(bins, treemap, i, v.size);
  }

  lemma BestInBin(bins: seq<Trie>, nb: nat, v: Trie)
    requires Best(bins, nb, v) && v.Node?
    ensures InSomeBin(bins, v) && nb <= v.size
  {
  }

  // ----- When nothing fits -----

  lemma SizeIndex(nb: nat)
    requires ChunkSizeOk(nb) && nb < 256
    ensures SmallIndex(nb) < NSMALLBINS && SmallIndexToSize(SmallIndex(nb)) == nb
  {
  }

  lemma NoBinFits(smallbins: seq<seq<nat>>, smallmap: set<nat>, treebins: seq<Trie>, treemap: set<nat>, nb: nat)
    requires SmallOk(smallbins, smallmap) && BinsOk(treebins, treemap) && treemap == {}
    requires forall i :: i in smallmap ==> SmallIndexToSize(i) < nb
    ensures forall c :: c in SmallChunks(smallbins) + AllChunks(treebins) ==> c.size < nb
  {
    hide Ordered;
    forall c | c in SmallChunks(smallbins) + AllChunks(treebins)
      ensures c.size < nb
    {
      if c in SmallChunks(smallbins) {
        InFrom(smallbins, 0, c);
      } else {
        var i := SomeBin(treebins, c);
        ChunkSize(treebins[i], c);
        BinSizes(treebins, treemap, i, c.size);
        assert false;
      }
    }
  }

  lemma NoLargeFits(smallbins: seq<seq<nat>>, smallmap: set<nat>, treebins: seq<Trie>, treemap: set<nat>, nb: nat)
    requires SmallOk(smallbins, smallmap) && BinsOk(treebins, treemap) && nb >= 256
    requires nb >= SEGMENT_LIMIT || Best(treebins, nb, Nil) || treemap == {}
    ensures forall c :: c in SmallChunks(smallbins) + AllChunks(treebins) ==> c.size < nb
  {
    hide Ordered, ComputeTreeIndex;
    forall c | c in SmallChunks(smallbins) + AllChunks(treebins)
      ensures c.size < nb
    {
      if c in SmallChunks(smallbins) {
        InFrom(smallbins, 0, c);
      } else {
        var i := SomeBin(treebins, c);
        ChunkSize(treebins[i], c);
        BinSizes(treebins, treemap, i, c.size);
        assert InBins(treebins, c.size);
      }
    }
  }
}
