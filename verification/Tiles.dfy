/**
 The chunks of one segment: they tile it from its base up to the top chunk, no two
 free ones are neighbours, and their headers carry the state of their neighbours.
 */
module Tiles {
  import opened Tries

  const MIN_CHUNK_SIZE: nat := 32
  const CHUNK_ALIGN: nat := 8

  datatype Tile = Tile(addr: nat, size: nat, inuse: bool)

  // ----- Tiling -----

  /** Where tile `k` begins; the top chunk begins after the last one. */
  ghost function Start(tiles: seq<Tile>, k: nat, top: nat): nat
  {
    if k < |tiles| then tiles[k].addr else top
  }

  predicate ChunkSizeOk(size: nat)
  {
    size >= MIN_CHUNK_SIZE && size % CHUNK_ALIGN == 0
  }

  /** The tile ends where the next one begins, and if it is free then the next one is in use. */
  ghost predicate TileOk(tiles: seq<Tile>, k: nat, top: nat)
    requires k < |tiles|
  {
    && ChunkSizeOk(tiles[k].size)
    && tiles[k].addr + tiles[k].size == Start(tiles, k + 1, top)
    && (!tiles[k].inuse ==> k + 1 < |tiles| && tiles[k + 1].inuse)
  }

  ghost predicate Tiling(tiles: seq<Tile>, base: nat, top: nat)
  {
    Start(tiles, 0, top) == base && forall k: nat :: k < |tiles| ==> TileOk(tiles, k, top)
  }

  /** Tiles come in the order of their addresses and do not overlap. */
  lemma {:induction false} InAddressOrder(tiles: seq<Tile>, base: nat, top: nat, a: nat, b: nat)
    requires Tiling(tiles, base, top) && a < b <= |tiles|
    ensures tiles[a].addr + tiles[a].size <= Start(tiles, b, top)
    decreases b - a
  {
    assert TileOk(tiles, a, top);
    if a + 1 < b {
      InAddressOrder(tiles, base, top, a + 1, b);
    }
  }

  /** Two different tiles are apart. */
  lemma Apart(tiles: seq<Tile>, base: nat, top: nat, a: nat, b: nat)
    requires Tiling(tiles, base, top) && a < |tiles| && b < |tiles| && a != b
    ensures tiles[a].addr + tiles[a].size <= tiles[b].addr || tiles[b].addr + tiles[b].size <= tiles[a].addr
    ensures tiles[a].addr != tiles[b].addr
    ensures tiles[a].addr + tiles[a].size != tiles[b].addr + tiles[b].size
  {
    InAddressOrder(tiles, base, top, if a < b then a else b, if a < b then b else a);
    assert TileOk(tiles, a, top) && TileOk(tiles, b, top);
  }

  lemma BelowTop(tiles: seq<Tile>, base: nat, top: nat, a: nat)
    requires Tiling(tiles, base, top) && a < |tiles|
    ensures tiles[a].addr + tiles[a].size <= top && tiles[a].addr < top
  {
    InAddressOrder(tiles, base, top, a, |tiles|);
    assert TileOk(tiles, a, top);
  }

  /** Tiles `i` to `j` replaced by `mid`. */
  ghost function Splice(tiles: seq<Tile>, i: nat, j: nat, mid: seq<Tile>): (r: seq<Tile>)
    requires i <= j <= |tiles|
    ensures |r| == |tiles| - (j - i) + |mid|
    ensures forall k :: 0 <= k < |r| ==>
                          r[k] == if k < i then tiles[k] else if k < i + |mid| then mid[k - i] else tiles[k - |mid| + (j - i)]
  {
    tiles[..i] + mid + tiles[j..]
  }

  ghost predicate FillOk(mid: seq<Tile>, k: nat, end: nat, nextInuse: bool)
    requires k < |mid|
  {
    && ChunkSizeOk(mid[k].size)
    && mid[k].addr + mid[k].size == Start(mid, k + 1, end)
    && (!mid[k].inuse ==> if k + 1 < |mid| then mid[k + 1].inuse else nextInuse)
  }

  /** `mid` tiles the addresses from `start` to `end`, before a tile in use as `nextInuse` says. */
  ghost predicate Fills(mid: seq<Tile>, start: nat, end: nat, nextInuse: bool)
  {
    mid != [] && mid[0].addr == start && forall k: nat :: k < |mid| ==> FillOk(mid, k, end, nextInuse)
  }

  lemma SpliceTiling(tiles: seq<Tile>, base: nat, top: nat, i: nat, j: nat, mid: seq<Tile>)
    requires Tiling(tiles, base, top) && i < j <= |tiles|
    requires Fills(mid, tiles[i].addr, Start(tiles, j, top), j < |tiles| && tiles[j].inuse)
    requires i > 0 && !tiles[i - 1].inuse ==> mid[0].inuse
    ensures Tiling(Splice(tiles, i, j, mid), base, top)
  {
    var r := Splice(tiles, i, j, mid);
    forall k: nat | k < |r|
      ensures TileOk(r, k, top)
    {
      SpliceTile(tiles, base, top, i, j, mid, k);
    }
  }

  lemma SpliceTile(tiles: seq<Tile>, base: nat, top: nat, i: nat, j: nat, mid: seq<Tile>, k: nat)
    requires Tiling(tiles, base, top) && i < j <= |tiles| && k < |Splice(tiles, i, j, mid)|
    requires Fills(mid, tiles[i].addr, Start(tiles, j, top), j < |tiles| && tiles[j].inuse)
    requires i > 0 && !tiles[i - 1].inuse ==> mid[0].inuse
    ensures TileOk(Splice(tiles, i, j, mid), k, top)
  {
    var r := Splice(tiles, i, j, mid);
    hide Splice;
    var n := |mid|;
    if k < i {
      assert TileOk(tiles, k, top);
      assert r[k] == tiles[k];
      assert k + 1 < |r| && r[k + 1] == if k + 1 < i then tiles[k + 1] else mid[0];
    } else if k >= i + n {
      var l := k - n + (j - i);
      assert TileOk(tiles, l, top);
      assert r[k] == tiles[l];
      assert k + 1 < |r| ==> r[k + 1] == tiles[l + 1];
    } else {
      assert FillOk(mid, k - i, Start(tiles, j, top), j < |tiles| && tiles[j].inuse);
      assert r[k] == mid[k - i];
      assert k + 1 < |r| ==> r[k + 1] == if k + 1 < i + n then mid[k + 1 - i] else tiles[j];
    }
  }

  /** The last tiles go to the top chunk. */
  lemma CutTiling(tiles: seq<Tile>, base: nat, top: nat, i: nat)
    requires Tiling(tiles, base, top) && i < |tiles| && (i > 0 ==> tiles[i - 1].inuse)
    ensures Tiling(tiles[..i], base, tiles[i].addr)
  {
    forall k: nat | k < i
      ensures TileOk(tiles[..i], k, tiles[i].addr)
    {
      assert TileOk(tiles, k, top);
    }
  }

  /** A chunk cut off the top chunk. */
  lemma GrowTiling(tiles: seq<Tile>, base: nat, top: nat, size: nat)
    requires Tiling(tiles, base, top) && ChunkSizeOk(size) && (tiles != [] ==> tiles[|tiles| - 1].inuse)
    ensures Tiling(tiles + [Tile(top, size, true)], base, top + size)
  {
    var r, newTop := tiles + [Tile(top, size, true)], top + size;
    forall k: nat | k < |r|
      ensures TileOk(r, k, newTop)
    {
      if k < |tiles| {
        assert TileOk(tiles, k, top);
      }
    }
  }

  /** The last tile is in use: no free chunk touches the top chunk. */
  lemma LastInUse(tiles: seq<Tile>, base: nat, top: nat)
    requires Tiling(tiles, base, top) && tiles != []
    ensures tiles[|tiles| - 1].inuse
  {
    assert TileOk(tiles, |tiles| - 1, top);
  }

  // ----- Free chunks and live chunks -----

  ghost function Those(tiles: seq<Tile>, inuse: bool): multiset<Chunk>
  {
    if tiles == [] then multiset{} else One(tiles[0], inuse) + Those(tiles[1..], inuse)
  }

  ghost function One(t: Tile, inuse: bool): multiset<Chunk>
  {
    if t.inuse == inuse then multiset{Chunk(t.addr, t.size)} else multiset{}
  }

  lemma {:induction false} ThoseConcat(a: seq<Tile>, b: seq<Tile>, inuse: bool)
    ensures Those(a + b, inuse) == Those(a, inuse) + Those(b, inuse)
  {
    hide One;
    if a == [] {
      assert a + b == b;
    } else {
      ThoseConcat(a[1..], b, inuse);
      assert (a + b)[1..] == a[1..] + b;
    }
  }

  lemma ThoseSplice(tiles: seq<Tile>, i: nat, j: nat, mid: seq<Tile>, inuse: bool)
    requires i <= j <= |tiles|
    ensures Those(Splice(tiles, i, j, mid), inuse) + Those(tiles[i..j], inuse) == Those(tiles, inuse) + Those(mid, inuse)
  {
    hide Those;
    ThoseConcat(tiles[..i] + mid, tiles[j..], inuse);
    ThoseConcat(tiles[..i], mid, inuse);
    ThoseConcat(tiles[..i] + tiles[i..j], tiles[j..], inuse);
    ThoseConcat(tiles[..i], tiles[i..j], inuse);
    assert tiles == tiles[..i] + tiles[i..j] + tiles[j..];
  }

  lemma ThoseOne(t: Tile, inuse: bool)
    ensures Those([t], inuse) == if t.inuse == inuse then multiset{Chunk(t.addr, t.size)} else multiset{}
  {
    assert [t][1..] == [];
  }

  lemma ThoseTwo(t: Tile, u: Tile, inuse: bool)
    ensures Those([t, u], inuse) == Those([t], inuse) + Those([u], inuse)
  {
    ThoseConcat([t], [u], inuse);
    assert [t] + [u] == [t, u];
  }

  lemma {:induction false} IsOneOf(tiles: seq<Tile>, inuse: bool, c: Chunk)
    ensures c in Those(tiles, inuse) <==> exists i: nat :: i < |tiles| && tiles[i] == Tile(c.addr, c.size, inuse)
  {
    if tiles != [] {
      IsOneOf(tiles[1..], inuse, c);
      if i: nat :| i < |tiles| && tiles[i] == Tile(c.addr, c.size, inuse) {
        if i > 0 {
          assert tiles[1..][i - 1] == Tile(c.addr, c.size, inuse);
        }
      }
      if i: nat :| i < |tiles[1..]| && tiles[1..][i] == Tile(c.addr, c.size, inuse) {
        assert tiles[i + 1] == Tile(c.addr, c.size, inuse);
      }
    }
  }

  // ----- Headers -----

  /** The head word of a chunk: size, in use, previous chunk in use. */
  datatype Head = Head(size: nat, cinuse: bool, pinuse: bool)

  ghost function PrevInUse(tiles: seq<Tile>, k: nat): bool
    requires k <= |tiles|
  {
    k == 0 || tiles[k - 1].inuse
  }

  /** The boundary tags of one tile. */
  ghost predicate Tagged(head: map<nat, Head>, foot: map<nat, nat>, t: Tile, pinuse: bool)
  {
    && t.addr in head && head[t.addr] == Head(t.size, t.inuse, pinuse)
    && (!t.inuse ==> t.addr + t.size in foot && foot[t.addr + t.size] == t.size)
  }

  ghost predicate TagOk(head: map<nat, Head>, foot: map<nat, nat>, tiles: seq<Tile>, k: nat)
    requires k < |tiles|
  {
    Tagged(head, foot, tiles[k], PrevInUse(tiles, k))
  }

  ghost predicate Headers(head: map<nat, Head>, foot: map<nat, nat>, tiles: seq<Tile>, top: nat, topsize: nat)
  {
    && (forall k: nat :: k < |tiles| ==> TagOk(head, foot, tiles, k))
    && top in head && head[top] == Head(topsize, false, true)
  }
}
