/** What the heap invariant means to the program, over any sequence of allocations and releases. */
module HeapRuns {
  import opened Multisets
  import opened TreeBins
  import opened Tries
  import opened Tiles
  import opened HeapSteps
  import opened SmallBins
  import opened BestFit
  import opened Mspaces

  // ----- Every chunk is there once -----

  lemma {:induction false} OnceFrom(tiles: seq<Tile>, base: nat, top: nat, k: nat, inuse: bool, c: Chunk)
    requires Tiling(tiles, base, top) && k <= |tiles|
    ensures Those(tiles[k..], inuse)[c] <= 1
    decreases |tiles| - k
  {
    if k < |tiles| {
      hide Tiling;
      OnceFrom(tiles, base, top, k + 1, inuse, c);
      assert tiles[k..][1..] == tiles[k + 1..];
      if c == Chunk(tiles[k].addr, tiles[k].size) && c in Those(tiles[k + 1..], inuse) {
        IsOneOf(tiles[k + 1..], inuse, c);
        var j: nat :| j < |tiles[k + 1..]| && tiles[k + 1..][j] == Tile(c.addr, c.size, inuse);
        assert tiles[k + 1 + j] == Tile(c.addr, c.size, inuse);
        Apart(tiles, base, top, k, k + 1 + j);
      }
    }
  }

  lemma Once(tiles: seq<Tile>, base: nat, top: nat, inuse: bool, c: Chunk)
    requires Tiling(tiles, base, top)
    ensures Those(tiles, inuse)[c] <= 1
  {
    OnceFrom(tiles, base, top, 0, inuse, c);
    assert tiles[0..] == tiles;
  }

  /** Every free chunk is in exactly one place, and what is in a bin or is the victim is a free chunk. */
  lemma FreeInOnePlace(m: Mspace, c: Chunk)
    requires m.Valid()
    ensures c in Those(m.tiles, false) <==> c in SmallChunks(m.small.bins) + AllChunks(m.trees.treebins) + Victim(m.dv, m.dvsize)
    ensures c in Those(m.tiles, false) ==>
              SmallChunks(m.small.bins)[c] + AllChunks(m.trees.treebins)[c] + Victim(m.dv, m.dvsize)[c] == 1
  {
    hide Tiling, Headers, Those, SmallChunks, AllChunks, Victim;
    Once(m.tiles, m.base, m.top, false, c);
  }

  /** No two free chunks are neighbours, and none touches the top chunk. */
  lemma NoFreeNeighbours(m: Mspace, i: nat)
    requires m.Valid() && i < |m.tiles| && !m.tiles[i].inuse
    ensures i + 1 < |m.tiles| && m.tiles[i + 1].inuse && m.tiles[i + 1].addr == m.tiles[i].addr + m.tiles[i].size
    ensures i > 0 ==> m.tiles[i - 1].inuse
  {
    hide Headers, Binned;
    assert TileOk(m.tiles, i, m.top);
    if i > 0 {
      assert TileOk(m.tiles, i - 1, m.top);
    }
  }

  // ----- Memory of live blocks -----

  /** The bytes from `a` to `b` and those from `c` to `d` have none in common. */
  predicate Disjoint(a: nat, b: nat, c: nat, d: nat)
  {
    b <= c || d <= a
  }

  /** The memory that a chunk in use gives to the program: it ends with the first word of the next chunk. */
  predicate MemoryOf(c: Chunk, mem: nat, bytes: nat)
  {
    mem == c.addr + CHUNK_MEM && bytes + CHUNK_OVERHEAD <= c.size
  }

  /** The memory of a live block holds no head word and no foot: a program that stays inside its blocks leaves the tags alone. */
  lemma TagsOutsideBlocks(m: Mspace, i: nat, j: nat, mem: nat, bytes: nat)
    requires m.Valid() && i < |m.tiles| && j < |m.tiles| && m.tiles[i].inuse
    requires MemoryOf(Chunk(m.tiles[i].addr, m.tiles[i].size), mem, bytes)
    ensures m.base < mem && mem + bytes <= m.top + CHUNK_OVERHEAD
    ensures Disjoint(mem, mem + bytes, m.tiles[j].addr + 8, m.tiles[j].addr + 16)
    ensures Disjoint(mem, mem + bytes, m.top + 8, m.top + 16)
    ensures var end := m.tiles[j].addr + m.tiles[j].size;
            !m.tiles[j].inuse ==> Disjoint(mem, mem + bytes, end, end + 8)
  {
    hide Headers, Binned, Tiling;
    TileSize(m.tiles, m.base, m.top, i);
    TileSize(m.tiles, m.base, m.top, j);
    if i != j {
      Apart(m.tiles, m.base, m.top, i, j);
    }
  }

  /** The memory of two live blocks is apart. */
  lemma BlocksApart(m: Mspace, c: Chunk, d: Chunk, mem: nat, bytes: nat, nem: nat, nytes: nat)
    requires m.Valid() && multiset{c, d} <= m.Live()
    requires MemoryOf(c, mem, bytes) && MemoryOf(d, nem, nytes)
    ensures Disjoint(mem, mem + bytes, nem, nem + nytes)
  {
    hide Headers, Binned, Tiling, Those;
    assert c in multiset{c, d} && d in multiset{c, d};
    var i := TileOf(m.tiles, true, c);
    var j := TileOf(m.tiles, true, d);
    Once(m.tiles, m.base, m.top, true, c);
    assert c == d ==> multiset{c, d}[c] == 2;
    if i != j {
      Apart(m.tiles, m.base, m.top, i, j);
    }
  }

  /** From an aligned base on, every chunk is aligned, and so is its memory. */
  lemma {:induction false} Aligned(tiles: seq<Tile>, base: nat, top: nat, k: nat)
    requires Tiling(tiles, base, top) && base % CHUNK_ALIGN == 0 && k < |tiles|
    ensures tiles[k].addr % CHUNK_ALIGN == 0 && (tiles[k].addr + CHUNK_MEM) % CHUNK_ALIGN == 0
  {
    if k > 0 {
      Aligned(tiles, base, top, k - 1);
      assert TileOk(tiles, k - 1, top);
    }
  }

  // ----- Any sequence of requests -----

  datatype Request = Allocate(bytes: nat) | Release(which: nat)
  datatype Block = Block(mem: nat, bytes: nat)

  /** The blocks that the program holds, with their chunks. */
  ghost predicate Held(m: Mspace, blocks: seq<Block>, chunks: seq<Chunk>)
    reads m
  {
    && |chunks| == |blocks| && multiset(chunks) == m.Live()
    && forall k :: 0 <= k < |blocks| ==> MemoryOf(chunks[k], blocks[k].mem, blocks[k].bytes)
  }

  ghost predicate AllApart(blocks: seq<Block>)
  {
    forall a, b :: 0 <= a < b < |blocks| ==>
                     Disjoint(blocks[a].mem, blocks[a].mem + blocks[a].bytes, blocks[b].mem, blocks[b].mem + blocks[b].bytes)
  }

  lemma HeldApart(m: Mspace, blocks: seq<Block>, chunks: seq<Chunk>)
    requires m.Valid() && Held(m, blocks, chunks)
    ensures AllApart(blocks)
  {
    hide Mspace.Holds, Mspace.Live;
    forall a, b | 0 <= a < b < |blocks|
      ensures Disjoint(blocks[a].mem, blocks[a].mem + blocks[a].bytes, blocks[b].mem, blocks[b].mem + blocks[b].bytes)
    {
      TwoOf(chunks, a, b);
      BlocksApart(m, chunks[a], chunks[b], blocks[a].mem, blocks[a].bytes, blocks[b].mem, blocks[b].bytes);
    }
  }

  lemma TwoOf<T>(s: seq<T>, a: nat, b: nat)
    requires a < b < |s|
    ensures multiset{s[a], s[b]} <= multiset(s)
  {
    assert s == s[..a] + [s[a]] + s[a + 1..b] + [s[b]] + s[b + 1..];
  }

  lemma Dropped<T>(s: seq<T>, k: nat)
    requires k < |s|
    ensures multiset(s[..k] + s[k + 1..]) + multiset{s[k]} == multiset(s)
  {
    assert s == s[..k] + [s[k]] + s[k + 1..];
  }

  /** A live chunk has an address. */
  lemma LiveNonNull(m: Mspace, c: Chunk)
    requires m.Valid() && c in m.Live()
    ensures c.addr > 0
  {
    hide Headers, Binned, Tiling, Those;
    var i := TileOf(m.tiles, true, c);
    TileSize(m.tiles, m.base, m.top, i);
  }

  /** One more block, unless the heap has no room for it. */
  method ServeAllocate(m: Mspace, bytes: nat, blocks: seq<Block>, ghost chunks: seq<Chunk>)
    returns (after: seq<Block>, ghost left: seq<Chunk>)
    requires m.Valid() && Held(m, blocks, chunks) && bytes < SIZE_LIMIT
    modifies m, m.small, m.trees
    ensures m.Valid() && Held(m, after, left)
    ensures after == blocks || (|after| == |blocks| + 1 && after[..|blocks|] == blocks && after[|blocks|].bytes == bytes)
  {
    hide Mspace.Holds, Mspace.Live, Mspace.NothingFits, ChunkSizeFor;
    var mem, size := m.Malloc(bytes);
    if mem == 0 {
      return blocks, chunks;
    }
    return blocks + [Block(mem, bytes)], chunks + [Chunk(mem - CHUNK_MEM, size)];
  }

  /** Exactly one block less. */
  method ServeRelease(m: Mspace, which: nat, blocks: seq<Block>, ghost chunks: seq<Chunk>) returns (ghost left: seq<Chunk>)
    requires m.Valid() && Held(m, blocks, chunks) && which < |blocks|
    modifies m, m.small, m.trees
    ensures m.Valid() && Held(m, blocks[..which] + blocks[which + 1..], left)
  {
    hide Mspace.Holds, Mspace.Live;
    ghost var c := chunks[which];
    Dropped(chunks, which);
    assert MemoryOf(c, blocks[which].mem, blocks[which].bytes);
    assert Chunk(blocks[which].mem - CHUNK_MEM, c.size) == c;
    assert c in multiset(chunks);
    LiveNonNull(m, c);
    left := chunks[..which] + chunks[which + 1..];
    m.Free(blocks[which].mem, c.size);
    Cancel(multiset(left), m.Live(), multiset{c});
  }

  /**
   Serves any sequence of requests; a release names one of the blocks held, or else frees a
   null pointer. The heap stays well formed and the blocks held are always apart.
   */
  method Serve(m: Mspace, requests: seq<Request>) returns (blocks: seq<Block>, ghost chunks: seq<Chunk>)
    requires m.Valid() && m.Live() == multiset{}
    requires forall k :: 0 <= k < |requests| && requests[k].Allocate? ==> requests[k].bytes < SIZE_LIMIT
    modifies m, m.small, m.trees
    ensures m.Valid() && Held(m, blocks, chunks) && AllApart(blocks)
  {
    hide Mspace.Holds, Mspace.Live;
    blocks, chunks := [], [];
    for n := 0 to |requests|
      invariant m.Valid() && Held(m, blocks, chunks)
    {
      match requests[n]
      case Allocate(bytes) =>
        blocks, chunks := ServeAllocate(m, bytes, blocks, chunks);
      case Release(which) =>
        if which < |blocks| {
          chunks := ServeRelease(m, which, blocks, chunks);
          blocks := blocks[..which] + blocks[which + 1..];
        } else {
          m.Free(0, 0);
        }
    }
    HeldApart(m, blocks, chunks);
  }
}
