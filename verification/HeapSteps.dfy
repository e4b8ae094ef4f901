/** What taking and releasing chunks does to the tiles and to their headers. */
module HeapSteps {
  import opened Tries
  import opened Tiles

  /** Tiles, headers and the top chunk agree. */
  ghost predicate Consistent(head: map<nat, Head>, foot: map<nat, nat>, tiles: seq<Tile>, base: nat, top: nat, topsize: nat)
  {
    Tiling(tiles, base, top) && Headers(head, foot, tiles, top, topsize)
  }

  // ----- Header writes -----

  function SetPinuse(head: map<nat, Head>, p: nat, pinuse: bool): map<nat, Head>
  {
    if p in head then head[p := head[p].(pinuse := pinuse)] else head
  }

  function SetInuseAndPinuse(head: map<nat, Head>, p: nat, s: nat): map<nat, Head>
  {
    SetPinuse(head[p := Head(s, true, true)], p + s, true)
  }

  function SetSizeOfInuse(head: map<nat, Head>, p: nat, s: nat): map<nat, Head>
  {
    head[p := Head(s, true, true)]
  }

  function SetSizeOfFree(head: map<nat, Head>, p: nat, s: nat): map<nat, Head>
  {
    head[p := Head(s, false, true)]
  }

  // ----- Tags elsewhere -----

  /** The writes touch neither the head word of the tile nor, if it is free, its foot. */
  ghost predicate Untouched(head: map<nat, Head>, foot: map<nat, nat>, after: map<nat, Head>, feet: map<nat, nat>, t: Tile)
  {
    && (t.addr in head ==> t.addr in after && after[t.addr] == head[t.addr])
    && (t.addr + t.size in foot ==> t.addr + t.size in feet && feet[t.addr + t.size] == foot[t.addr + t.size])
  }

  /** The tag of tile `k` of those that replace the tiles from `i` on. */
  ghost predicate MidTagged(head: map<nat, Head>, foot: map<nat, nat>, tiles: seq<Tile>, i: nat, mid: seq<Tile>, k: nat)
    requires i <= |tiles| && k < |mid|
  {
    Tagged(head, foot, mid[k], if k == 0 then PrevInUse(tiles, i) else mid[k - 1].inuse)
  }

  lemma SpliceHeaders(head: map<nat, Head>, foot: map<nat, nat>, after: map<nat, Head>, feet: map<nat, nat>,
                      tiles: seq<Tile>, top: nat, topsize: nat, i: nat, j: nat, mid: seq<Tile>)
    requires Headers(head, foot, tiles, top, topsize) && i <= j <= |tiles| && mid != []
    requires forall k: nat :: k < |tiles| && (k < i || j < k) ==> Untouched(head, foot, after, feet, tiles[k])
    requires forall k: nat :: k < |mid| ==> MidTagged(after, feet, tiles, i, mid, k)
    requires j < |tiles| ==> Tagged(after, feet, tiles[j], mid[|mid| - 1].inuse)
    requires top in after && after[top] == head[top]
    ensures Headers(after, feet, Splice(tiles, i, j, mid), top, topsize)
  {
    var r := Splice(tiles, i, j, mid);
    forall k: nat | k < |r|
      ensures TagOk(after, feet, r, k)
    {
      SpliceTag(head, foot, after, feet, tiles, i, j, mid, k);
    }
  }

  /** The tile before tile `k` after splicing. */
  lemma SplicePrev(tiles: seq<Tile>, i: nat, j: nat, mid: seq<Tile>, k: nat)
    requires i <= j <= |tiles| && mid != [] && k < |Splice(tiles, i, j, mid)|
    ensures var r := Splice(tiles, i, j, mid);
            PrevInUse(r, k) == if k <= i then PrevInUse(tiles, k)
                               else if k - i <= |mid| then mid[k - i - 1].inuse
                               else PrevInUse(tiles, k - |mid| + (j - i))
  {
    var r := Splice(tiles, i, j, mid);
    if k > 0 {
      var l: nat := k - 1;
      assert r[l] == if l < i then tiles[l] else if l < i + |mid| then mid[l - i] else tiles[l - |mid| + (j - i)];
    }
  }

  lemma SpliceTag(head: map<nat, Head>, foot: map<nat, nat>, after: map<nat, Head>, feet: map<nat, nat>,
                  tiles: seq<Tile>, i: nat, j: nat, mid: seq<Tile>, k: nat)
    requires forall l: nat :: l < |tiles| ==> TagOk(head, foot, tiles, l)
    requires i <= j <= |tiles| && mid != [] && k < |Splice(tiles, i, j, mid)|
    requires forall l: nat :: l < |tiles| && (l < i || j < l) ==> Untouched(head, foot, after, feet, tiles[l])
    requires forall l: nat :: l < |mid| ==> MidTagged(after, feet, tiles, i, mid, l)
    requires j < |tiles| ==> Tagged(after, feet, tiles[j], mid[|mid| - 1].inuse)
    ensures TagOk(after, feet, Splice(tiles, i, j, mid), k)
  {
    SplicePrev(tiles, i, j, mid, k);
    var r := Splice(tiles, i, j, mid);
    if k < i {
      assert r[k] == tiles[k];
      OldTag(head, foot, after, feet, tiles, k, PrevInUse(r, k));
    } else if k < i + |mid| {
      assert r[k] == mid[k - i];
      MidTag(after, feet, tiles, i, mid, k - i, PrevInUse(r, k));
    } else {
      var l := k - |mid| + (j - i);
      assert r[k] == tiles[l];
      if l > j {
        OldTag(head, foot, after, feet, tiles, l, PrevInUse(r, k));
      } else {
        assert PrevInUse(r, k) == mid[|mid| - 1].inuse;
      }
    }
  }

  lemma OldTag(head: map<nat, Head>, foot: map<nat, nat>, after: map<nat, Head>, feet: map<nat, nat>, tiles: seq<Tile>, k: nat, pinuse: bool)
    requires k < |tiles| && TagOk(head, foot, tiles, k) && Untouched(head, foot, after, feet, tiles[k])
    requires pinuse == PrevInUse(tiles, k)
    ensures Tagged(after, feet, tiles[k], pinuse)
  {
  }

  lemma MidTag(head: map<nat, Head>, foot: map<nat, nat>, tiles: seq<Tile>, i: nat, mid: seq<Tile>, k: nat, pinuse: bool)
    requires i <= |tiles| && k < |mid| && MidTagged(head, foot, tiles, i, mid, k)
    requires pinuse == if k == 0 then PrevInUse(tiles, i) else mid[k - 1].inuse
    ensures Tagged(head, foot, mid[k], pinuse)
  {
  }

  /** The writes change at most the head words at `p` and `q` and the foot at `e`. */
  ghost predicate WritesAt(head: map<nat, Head>, foot: map<nat, nat>, after: map<nat, Head>, feet: map<nat, nat>, p: nat, q: nat, e: nat)
  {
    && (forall a :: a in head && a != p && a != q ==> a in after && after[a] == head[a])
    && (forall a :: a in foot && a != e ==> a in feet && feet[a] == foot[a])
  }

  /** Tiles away from the tiles `i` to `j` keep their tags under writes at tile `i`, inside it, and at tile `j`. */
  lemma Elsewhere(head: map<nat, Head>, foot: map<nat, nat>, after: map<nat, Head>, feet: map<nat, nat>, p: nat, q: nat, e: nat,
                  tiles: seq<Tile>, base: nat, top: nat, i: nat, j: nat)
    requires Tiling(tiles, base, top) && i < j < |tiles|
    requires WritesAt(head, foot, after, feet, p, q, e)
    requires p == tiles[i].addr && (q == tiles[j].addr || p < q < tiles[i].addr + tiles[i].size) && e == tiles[j].addr
    ensures forall k: nat :: k < |tiles| && (k < i || j < k) ==> Untouched(head, foot, after, feet, tiles[k])
  {
    forall k: nat | k < |tiles| && (k < i || j < k)
      ensures Untouched(head, foot, after, feet, tiles[k])
    {
      Apart(tiles, base, top, i, k);
      Apart(tiles, base, top, j, k);
      Apart(tiles, base, top, j - 1, k);
      assert TileOk(tiles, j - 1, top);
    }
  }

  /** The chunk before a free one is in use. */
  lemma PrevOfFree(tiles: seq<Tile>, base: nat, top: nat, i: nat)
    requires Tiling(tiles, base, top) && i < |tiles| && !tiles[i].inuse
    ensures PrevInUse(tiles, i)
  {
    assert i > 0 ==> TileOk(tiles, i - 1, top);
  }

  // ----- Taking a free chunk whole -----

  lemma TakeWhole(head: map<nat, Head>, foot: map<nat, nat>, tiles: seq<Tile>, base: nat, top: nat, topsize: nat, i: nat)
    requires Consistent(head, foot, tiles, base, top, topsize) && i < |tiles| && !tiles[i].inuse
    ensures var t := tiles[i];
            var u := Splice(tiles, i, i + 1, [t.(inuse := true)]);
            && Consistent(SetInuseAndPinuse(head, t.addr, t.size), foot, u, base, top, topsize)
            && Those(u, false) + multiset{Chunk(t.addr, t.size)} == Those(tiles, false)
            && Those(u, true) == Those(tiles, true) + multiset{Chunk(t.addr, t.size)}
  {
    hide Tiling, Headers, Those, Splice, SetInuseAndPinuse;
    var mid := [tiles[i].(inuse := true)];
    TakeWholeTiling(tiles, base, top, i);
    TakeWholeHeaders(head, foot, tiles, base, top, topsize, i);
    TakenThose(tiles, i, mid);
    ThoseOne(mid[0], true);
    ThoseOne(mid[0], false);
  }

  lemma TakeWholeTiling(tiles: seq<Tile>, base: nat, top: nat, i: nat)
    requires Tiling(tiles, base, top) && i < |tiles| && !tiles[i].inuse
    ensures Tiling(Splice(tiles, i, i + 1, [tiles[i].(inuse := true)]), base, top)
  {
    var mid := [tiles[i].(inuse := true)];
    assert TileOk(tiles, i, top);
    assert FillOk(mid, 0, Start(tiles, i + 1, top), tiles[i + 1].inuse);
    SpliceTiling(tiles, base, top, i, i + 1, mid);
  }

  lemma TakeWholeHeaders(head: map<nat, Head>, foot: map<nat, nat>, tiles: seq<Tile>, base: nat, top: nat, topsize: nat, i: nat)
    requires Consistent(head, foot, tiles, base, top, topsize) && i < |tiles| && !tiles[i].inuse
    ensures var t := tiles[i];
            Headers(SetInuseAndPinuse(head, t.addr, t.size), foot, Splice(tiles, i, i + 1, [t.(inuse := true)]), top, topsize)
  {
    hide Splice;
    var t := tiles[i];
    var mid := [t.(inuse := true)];
    var after := SetInuseAndPinuse(head, t.addr, t.size);
    PrevOfFree(tiles, base, top, i);
    assert TileOk(tiles, i, top);
    BelowTop(tiles, base, top, i);
    BelowTop(tiles, base, top, i + 1);
    Apart(tiles, base, top, i, i + 1);
    assert TagOk(head, foot, tiles, i) && TagOk(head, foot, tiles, i + 1);
    assert WritesAt(head, foot, after, foot, t.addr, tiles[i + 1].addr, tiles[i + 1].addr);
    Elsewhere(head, foot, after, foot, t.addr, tiles[i + 1].addr, tiles[i + 1].addr, tiles, base, top, i, i + 1);
    hide Tiling;
    assert MidTagged(after, foot, tiles, i, mid, 0);
    SpliceHeaders(head, foot, after, foot, tiles, top, topsize, i, i + 1, mid);
  }

  lemma TakenThose(tiles: seq<Tile>, i: nat, mid: seq<Tile>)
    requires i < |tiles|
    ensures forall b :: Those(Splice(tiles, i, i + 1, mid), b) + Those([tiles[i]], b) == Those(tiles, b) + Those(mid, b)
    ensures forall b :: Those([tiles[i]], b) == if tiles[i].inuse == b then multiset{Chunk(tiles[i].addr, tiles[i].size)} else multiset{}
  {
    assert tiles[i..i + 1] == [tiles[i]];
    forall b
      ensures Those(Splice(tiles, i, i + 1, mid), b) + Those([tiles[i]], b) == Those(tiles, b) + Those(mid, b)
      ensures Those([tiles[i]], b) == if tiles[i].inuse == b then multiset{Chunk(tiles[i].addr, tiles[i].size)} else multiset{}
    {
      ThoseSplice(tiles, i, i + 1, mid, b);
      ThoseOne(tiles[i], b);
    }
  }

  // ----- Taking the front of a free chunk -----

  ghost function Halves(t: Tile, nb: nat): (r: seq<Tile>)
    requires nb <= t.size
    ensures |r| == 2
  {
    [Tile(t.addr, nb, true), Tile(t.addr + nb, t.size - nb, false)]
  }

  lemma TakeSplit(head: map<nat, Head>, foot: map<nat, nat>, tiles: seq<Tile>, base: nat, top: nat, topsize: nat, i: nat, nb: nat)
    requires Consistent(head, foot, tiles, base, top, topsize) && i < |tiles| && !tiles[i].inuse
    requires ChunkSizeOk(nb) && nb + MIN_CHUNK_SIZE <= tiles[i].size
    ensures var t := tiles[i];
            var r, rsize := t.addr + nb, t.size - nb;
            var u := Splice(tiles, i, i + 1, Halves(t, nb));
            && ChunkSizeOk(rsize)
            && Consistent(SetSizeOfFree(SetSizeOfInuse(head, t.addr, nb), r, rsize), foot[r + rsize := rsize], u, base, top, topsize)
            && Those(u, false) + multiset{Chunk(t.addr, t.size)} == Those(tiles, false) + multiset{Chunk(r, rsize)}
            && Those(u, true) == Those(tiles, true) + multiset{Chunk(t.addr, nb)}
  {
    hide Tiling, Headers, Those, Splice, SetSizeOfFree, SetSizeOfInuse;
    TakeSplitTiling(tiles, base, top, i, nb);
    TakeSplitHeaders(head, foot, tiles, base, top, topsize, i, nb);
    var mid := Halves(tiles[i], nb);
    TakenThose(tiles, i, mid);
    HalvesThose(tiles[i], nb);
  }

  lemma HalvesThose(t: Tile, nb: nat)
    requires nb <= t.size
    ensures Those(Halves(t, nb), true) == multiset{Chunk(t.addr, nb)}
    ensures Those(Halves(t, nb), false) == multiset{Chunk(t.addr + nb, t.size - nb)}
  {
    hide Those;
    var mid := Halves(t, nb);
    ThoseTwo(mid[0], mid[1], true);
    ThoseTwo(mid[0], mid[1], false);
    ThoseOne(mid[0], true);
    ThoseOne(mid[0], false);
    ThoseOne(mid[1], true);
    ThoseOne(mid[1], false);
  }

  lemma TakeSplitTiling(tiles: seq<Tile>, base: nat, top: nat, i: nat, nb: nat)
    requires Tiling(tiles, base, top) && i < |tiles| && !tiles[i].inuse
    requires ChunkSizeOk(nb) && nb + MIN_CHUNK_SIZE <= tiles[i].size
    ensures ChunkSizeOk(tiles[i].size - nb)
    ensures Tiling(Splice(tiles, i, i + 1, Halves(tiles[i], nb)), base, top)
  {
    var mid := Halves(tiles[i], nb);
    assert TileOk(tiles, i, top);
    assert FillOk(mid, 0, Start(tiles, i + 1, top), tiles[i + 1].inuse);
    assert FillOk(mid, 1, Start(tiles, i + 1, top), tiles[i + 1].inuse);
    SpliceTiling(tiles, base, top, i, i + 1, mid);
  }

  lemma TakeSplitHeaders(head: map<nat, Head>, foot: map<nat, nat>, tiles: seq<Tile>, base: nat, top: nat, topsize: nat, i: nat, nb: nat)
    requires Consistent(head, foot, tiles, base, top, topsize) && i < |tiles| && !tiles[i].inuse
    requires 0 < nb < tiles[i].size
    ensures var t := tiles[i];
            var r, rsize := t.addr + nb, t.size - nb;
            Headers(SetSizeOfFree(SetSizeOfInuse(head, t.addr, nb), r, rsize), foot[r + rsize := rsize],
                    Splice(tiles, i, i + 1, Halves(t, nb)), top, topsize)
  {
    hide Splice;
    var t := tiles[i];
    var r, rsize := t.addr + nb, t.size - nb;
    var mid := Halves(t, nb);
    var after := SetSizeOfFree(SetSizeOfInuse(head, t.addr, nb), r, rsize);
    var feet := foot[r + rsize := rsize];
    PrevOfFree(tiles, base, top, i);
    assert TileOk(tiles, i, top);
    BelowTop(tiles, base, top, i);
    Apart(tiles, base, top, i, i + 1);
    assert TagOk(head, foot, tiles, i) && TagOk(head, foot, tiles, i + 1);
    assert WritesAt(head, foot, after, feet, t.addr, r, tiles[i + 1].addr);
    Elsewhere(head, foot, after, feet, t.addr, r, tiles[i + 1].addr, tiles, base, top, i, i + 1);
    hide Tiling;
    assert MidTagged(after, feet, tiles, i, mid, 0) && MidTagged(after, feet, tiles, i, mid, 1);
    SpliceHeaders(head, foot, after, feet, tiles, top, topsize, i, i + 1, mid);
  }

  // ----- Taking from the top chunk -----

  lemma TakeTop(head: map<nat, Head>, foot: map<nat, nat>, tiles: seq<Tile>, base: nat, top: nat, topsize: nat, nb: nat)
    requires Consistent(head, foot, tiles, base, top, topsize) && ChunkSizeOk(nb) && nb < topsize
    ensures var u := tiles + [Tile(top, nb, true)];
            && Consistent(SetSizeOfInuse(SetSizeOfFree(head, top + nb, topsize - nb), top, nb), foot, u, base, top + nb, topsize - nb)
            && Those(u, false) == Those(tiles, false)
            && Those(u, true) == Those(tiles, true) + multiset{Chunk(top, nb)}
  {
    hide Tiling, Headers, Those;
    var t := Tile(top, nb, true);
    if tiles != [] {
      LastInUse(tiles, base, top);
    }
    GrowTiling(tiles, base, top, nb);
    TakeTopHeaders(head, foot, tiles, base, top, topsize, nb);
    ThoseConcat(tiles, [t], true);
    ThoseConcat(tiles, [t], false);
    ThoseOne(t, true);
    ThoseOne(t, false);
  }

  lemma TakeTopHeaders(head: map<nat, Head>, foot: map<nat, nat>, tiles: seq<Tile>, base: nat, top: nat, topsize: nat, nb: nat)
    requires Consistent(head, foot, tiles, base, top, topsize) && 0 < nb < topsize
    ensures Headers(SetSizeOfInuse(SetSizeOfFree(head, top + nb, topsize - nb), top, nb), foot,
                    tiles + [Tile(top, nb, true)], top + nb, topsize - nb)
  {
    var u := tiles + [Tile(top, nb, true)];
    var after := SetSizeOfInuse(SetSizeOfFree(head, top + nb, topsize - nb), top, nb);
    if tiles != [] {
      LastInUse(tiles, base, top);
    }
    forall k: nat | k < |u|
      ensures TagOk(after, foot, u, k)
    {
      if k < |tiles| {
        BelowTop(tiles, base, top, k);
        assert u[k] == tiles[k] && PrevInUse(u, k) == PrevInUse(tiles, k);
        assert TagOk(head, foot, tiles, k);
      }
    }
  }

  // ----- Releasing a chunk -----

  /** The first tile that goes into the free chunk. */
  ghost function First(tiles: seq<Tile>, i: nat): (lo: nat)
    requires i < |tiles|
    ensures lo <= i
  {
    if PrevInUse(tiles, i) then i else i - 1
  }

  /** One past the last. */
  ghost function End(tiles: seq<Tile>, i: nat): (hi: nat)
    requires i < |tiles|
    ensures i < hi <= |tiles|
  {
    if i + 1 < |tiles| && !tiles[i + 1].inuse then i + 2 else i + 1
  }

  /** The chunk before, if it is free. */
  ghost function BeforeChunk(tiles: seq<Tile>, i: nat): multiset<Chunk>
    requires i < |tiles|
  {
    if PrevInUse(tiles, i) then multiset{} else multiset{Chunk(tiles[i - 1].addr, tiles[i - 1].size)}
  }

  /** The chunk after, if it is free. */
  ghost function NextChunk(tiles: seq<Tile>, i: nat): multiset<Chunk>
    requires i < |tiles|
  {
    if i + 1 < |tiles| && !tiles[i + 1].inuse then multiset{Chunk(tiles[i + 1].addr, tiles[i + 1].size)} else multiset{}
  }

  ghost function Absorbed(tiles: seq<Tile>, i: nat): multiset<Chunk>
    requires i < |tiles|
  {
    BeforeChunk(tiles, i) + NextChunk(tiles, i)
  }

  /** What the boundary tags tell about the neighbours of a chunk in use. */
  lemma Neighbours(head: map<nat, Head>, foot: map<nat, nat>, tiles: seq<Tile>, base: nat, top: nat, topsize: nat, i: nat)
    requires Consistent(head, foot, tiles, base, top, topsize) && i < |tiles| && tiles[i].inuse
    ensures var p, size := tiles[i].addr, tiles[i].size;
            var next := p + size;
            && p in head && head[p] == Head(size, true, PrevInUse(tiles, i))
            && next in head && head[next].pinuse && (next == top <==> i + 1 == |tiles|)
            && (head[next].cinuse ==> NextChunk(tiles, i) == multiset{})
            && (next == top ==> !head[next].cinuse && NextChunk(tiles, i) == multiset{} && End(tiles, i) == |tiles|)
            && (next != top ==>
                  && tiles[i + 1].addr == next && head[next].size == tiles[i + 1].size && head[next].cinuse == tiles[i + 1].inuse
                  && End(tiles, i) < |tiles|
                  && tiles[End(tiles, i)].addr == if tiles[i + 1].inuse then next else next + tiles[i + 1].size)
    ensures var p := tiles[i].addr;
            if PrevInUse(tiles, i) then First(tiles, i) == i
            else i > 0 && !tiles[i - 1].inuse && p in foot && foot[p] == tiles[i - 1].size <= p
                 && tiles[i - 1].addr == p - foot[p] && First(tiles, i) == i - 1
  {
    assert TagOk(head, foot, tiles, i) && TileOk(tiles, i, top);
    if i > 0 {
      assert TagOk(head, foot, tiles, i - 1) && TileOk(tiles, i - 1, top);
    }
    if i + 1 < |tiles| {
      assert TagOk(head, foot, tiles, i + 1) && TileOk(tiles, i + 1, top);
      BelowTop(tiles, base, top, i + 1);
    }
  }

  lemma Merged(tiles: seq<Tile>, base: nat, top: nat, i: nat)
    requires Tiling(tiles, base, top) && i < |tiles| && tiles[i].inuse
    ensures var lo, hi := First(tiles, i), End(tiles, i);
            && tiles[lo].addr <= tiles[i].addr && tiles[i].addr + tiles[i].size <= Start(tiles, hi, top)
            && Start(tiles, hi, top) - tiles[lo].addr ==
               (if lo < i then tiles[i - 1].size else 0) + tiles[i].size + (if hi == i + 2 then tiles[i + 1].size else 0)
            && (hi < |tiles| ==> tiles[hi].inuse) && PrevInUse(tiles, lo)
            && ChunkSizeOk(Start(tiles, hi, top) - tiles[lo].addr)
  {
    assert TileOk(tiles, i, top);
    assert i > 0 ==> TileOk(tiles, i - 1, top);
    assert i > 1 ==> TileOk(tiles, i - 2, top);
    assert i + 1 < |tiles| ==> TileOk(tiles, i + 1, top);
  }

  lemma MergedThose(tiles: seq<Tile>, i: nat)
    requires i < |tiles| && tiles[i].inuse
    ensures var mid := tiles[First(tiles, i)..End(tiles, i)];
            Those(mid, false) == Absorbed(tiles, i) && Those(mid, true) == multiset{Chunk(tiles[i].addr, tiles[i].size)}
  {
    var lo, hi := First(tiles, i), End(tiles, i);
    hide Those, First, End, BeforeChunk, NextChunk;
    var before, here, next := tiles[lo..i], [tiles[i]], tiles[i + 1..hi];
    BeforeThose(tiles, i);
    NextThose(tiles, i);
    ThoseOne(tiles[i], true);
    ThoseOne(tiles[i], false);
    ThreeParts(tiles, lo, i, hi);
    ThoseThree(before, here, next, true);
    ThoseThree(before, here, next, false);
  }

  lemma ThreeParts(tiles: seq<Tile>, lo: nat, i: nat, hi: nat)
    requires lo <= i < hi <= |tiles|
    ensures tiles[lo..hi] == tiles[lo..i] + [tiles[i]] + tiles[i + 1..hi]
  {
  }

  lemma BeforeThose(tiles: seq<Tile>, i: nat)
    requires i < |tiles|
    ensures var before := tiles[First(tiles, i)..i];
            && Those(before, true) == multiset{}
            && Those(before, false) == BeforeChunk(tiles, i)
  {
    if !PrevInUse(tiles, i) {
      assert tiles[i - 1..i] == [tiles[i - 1]];
      ThoseOne(tiles[i - 1], true);
      ThoseOne(tiles[i - 1], false);
    }
  }

  lemma NextThose(tiles: seq<Tile>, i: nat)
    requires i < |tiles|
    ensures var next := tiles[i + 1..End(tiles, i)];
            && Those(next, true) == multiset{}
            && Those(next, false) == NextChunk(tiles, i)
  {
    if i + 1 < |tiles| && !tiles[i + 1].inuse {
      assert tiles[i + 1..i + 2] == [tiles[i + 1]];
      ThoseOne(tiles[i + 1], true);
      ThoseOne(tiles[i + 1], false);
    }
  }

  lemma ThoseThree(a: seq<Tile>, b: seq<Tile>, c: seq<Tile>, inuse: bool)
    ensures Those(a + b + c, inuse) == Those(a, inuse) + Those(b, inuse) + Those(c, inuse)
  {
    ThoseConcat(a + b, c, inuse);
    ThoseConcat(a, b, inuse);
  }

  /** A chunk is released, merged with the free chunks beside it, and the top chunk is not reached. */
  lemma Release(head: map<nat, Head>, foot: map<nat, nat>, tiles: seq<Tile>, base: nat, top: nat, topsize: nat, i: nat)
    requires Consistent(head, foot, tiles, base, top, topsize) && i < |tiles| && tiles[i].inuse && End(tiles, i) < |tiles|
    ensures var lo, hi := First(tiles, i), End(tiles, i);
            var a, size := tiles[lo].addr, tiles[hi].addr - tiles[lo].addr;
            && size > 0
            && var u := Splice(tiles, lo, hi, [Tile(a, size, false)]);
            && Consistent(SetPinuse(SetSizeOfFree(head, a, size), a + size, false), foot[a + size := size], u, base, top, topsize)
            && Those(u, false) + Absorbed(tiles, i) == Those(tiles, false) + multiset{Chunk(a, size)}
            && Those(u, true) + multiset{Chunk(tiles[i].addr, tiles[i].size)} == Those(tiles, true)
  {
    hide Tiling, Headers, Those, Splice, SetPinuse, SetSizeOfFree, First, End, Absorbed, Start, PrevInUse;
    Merged(tiles, base, top, i);
    var lo, hi := First(tiles, i), End(tiles, i);
    StartIs(tiles, hi, top);
    ReleaseTiling(tiles, base, top, i, lo, hi);
    ReleaseHeaders(head, foot, tiles, base, top, topsize, lo, hi);
    ReleaseThose(tiles, i, Tile(tiles[lo].addr, tiles[hi].addr - tiles[lo].addr, false));
  }

  lemma StartIs(tiles: seq<Tile>, k: nat, top: nat)
    requires k < |tiles|
    ensures Start(tiles, k, top) == tiles[k].addr
  {
  }

  lemma ReleaseThose(tiles: seq<Tile>, i: nat, t: Tile)
    requires i < |tiles| && tiles[i].inuse && !t.inuse
    ensures var u := Splice(tiles, First(tiles, i), End(tiles, i), [t]);
            && Those(u, false) + Absorbed(tiles, i) == Those(tiles, false) + multiset{Chunk(t.addr, t.size)}
            && Those(u, true) + multiset{Chunk(tiles[i].addr, tiles[i].size)} == Those(tiles, true)
  {
    hide Those, Splice, First, End, Absorbed;
    MergedThose(tiles, i);
    ThoseSplice(tiles, First(tiles, i), End(tiles, i), [t], true);
    ThoseSplice(tiles, First(tiles, i), End(tiles, i), [t], false);
    ThoseOne(t, true);
    ThoseOne(t, false);
  }

  lemma ReleaseTiling(tiles: seq<Tile>, base: nat, top: nat, i: nat, lo: nat, hi: nat)
    requires Tiling(tiles, base, top) && i < |tiles| && tiles[i].inuse && lo == First(tiles, i) && hi == End(tiles, i) && hi < |tiles|
    ensures tiles[lo].addr <= tiles[hi].addr
    ensures Tiling(Splice(tiles, lo, hi, [Tile(tiles[lo].addr, tiles[hi].addr - tiles[lo].addr, false)]), base, top)
  {
    Merged(tiles, base, top, i);
    var mid := [Tile(tiles[lo].addr, tiles[hi].addr - tiles[lo].addr, false)];
    assert FillOk(mid, 0, Start(tiles, hi, top), tiles[hi].inuse);
    SpliceTiling(tiles, base, top, lo, hi, mid);
  }

  lemma ReleaseHeaders(head: map<nat, Head>, foot: map<nat, nat>, tiles: seq<Tile>, base: nat, top: nat, topsize: nat, lo: nat, hi: nat)
    requires Consistent(head, foot, tiles, base, top, topsize) && lo < hi < |tiles| && PrevInUse(tiles, lo) && tiles[hi].inuse
    ensures var a := tiles[lo].addr;
            && a < tiles[hi].addr
            && var size := tiles[hi].addr - a;
            Headers(SetPinuse(SetSizeOfFree(head, a, size), a + size, false), foot[a + size := size],
                    Splice(tiles, lo, hi, [Tile(a, size, false)]), top, topsize)
  {
    hide Splice;
    Apart(tiles, base, top, lo, hi);
    InAddressOrder(tiles, base, top, lo, hi);
    var a, size := tiles[lo].addr, tiles[hi].addr - tiles[lo].addr;
    var mid := [Tile(a, size, false)];
    var after := SetPinuse(SetSizeOfFree(head, a, size), a + size, false);
    var feet := foot[a + size := size];
    assert WritesAt(head, foot, after, feet, a, tiles[hi].addr, tiles[hi].addr);
    Elsewhere(head, foot, after, feet, a, tiles[hi].addr, tiles[hi].addr, tiles, base, top, lo, hi);
    BelowTop(tiles, base, top, lo);
    BelowTop(tiles, base, top, hi);
    assert TagOk(head, foot, tiles, hi);
    hide Tiling;
    assert MidTagged(after, feet, tiles, lo, mid, 0);
    SpliceHeaders(head, foot, after, feet, tiles, top, topsize, lo, hi, mid);
  }

  /** The last chunk is released into the top chunk. */
  lemma ReleaseTop(head: map<nat, Head>, foot: map<nat, nat>, tiles: seq<Tile>, base: nat, top: nat, topsize: nat, i: nat)
    requires Consistent(head, foot, tiles, base, top, topsize) && i < |tiles| && tiles[i].inuse && End(tiles, i) == |tiles|
    ensures var lo := First(tiles, i);
            var a := tiles[lo].addr;
            && a < top && i + 1 == |tiles|
            && Consistent(SetSizeOfFree(head, a, topsize + (top - a)), foot, tiles[..lo], base, a, topsize + (top - a))
            && Those(tiles[..lo], false) + Absorbed(tiles, i) == Those(tiles, false)
            && Those(tiles[..lo], true) + multiset{Chunk(tiles[i].addr, tiles[i].size)} == Those(tiles, true)
  {
    hide Headers, Those, SetSizeOfFree, Absorbed;
    LastInUse(tiles, base, top);
    var lo := First(tiles, i);
    BelowTop(tiles, base, top, lo);
    Merged(tiles, base, top, i);
    CutTiling(tiles, base, top, lo);
    ReleaseTopHeaders(head, foot, tiles, base, top, topsize, lo);
    hide Tiling;
    CutThose(tiles, i);
  }

  lemma CutThose(tiles: seq<Tile>, i: nat)
    requires i < |tiles| && tiles[i].inuse && End(tiles, i) == |tiles|
    ensures var u := tiles[..First(tiles, i)];
            && Those(u, false) + Absorbed(tiles, i) == Those(tiles, false)
            && Those(u, true) + multiset{Chunk(tiles[i].addr, tiles[i].size)} == Those(tiles, true)
  {
    hide Those, First, Absorbed;
    var lo := First(tiles, i);
    MergedThose(tiles, i);
    assert tiles[lo..] == tiles[lo..End(tiles, i)];
    assert tiles == tiles[..lo] + tiles[lo..];
    ThoseConcat(tiles[..lo], tiles[lo..], true);
    ThoseConcat(tiles[..lo], tiles[lo..], false);
  }

  lemma ReleaseTopHeaders(head: map<nat, Head>, foot: map<nat, nat>, tiles: seq<Tile>, base: nat, top: nat, topsize: nat, lo: nat)
    requires Consistent(head, foot, tiles, base, top, topsize) && lo < |tiles| && tiles[lo].addr < top
    ensures var a := tiles[lo].addr;
            Headers(SetSizeOfFree(head, a, topsize + (top - a)), foot, tiles[..lo], a, topsize + (top - a))
  {
    var a := tiles[lo].addr;
    var after := SetSizeOfFree(head, a, topsize + (top - a));
    forall k: nat | k < lo
      ensures TagOk(after, foot, tiles[..lo], k)
    {
      Apart(tiles, base, top, lo, k);
      assert TagOk(head, foot, tiles, k);
    }
  }
}
