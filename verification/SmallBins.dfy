/** The bins of small free chunks: one list per size, and the map of those that are not empty. */
module SmallBins {
  import opened Tries
  import opened Multisets

  const NSMALLBINS: nat := 32
  const SMALLBIN_SHIFT_SIZE: nat := 8

  predicate IsSmall(s: nat)
  {
    s / SMALLBIN_SHIFT_SIZE < NSMALLBINS
  }

  function SmallIndex(s: nat): nat
  {
    s / SMALLBIN_SHIFT_SIZE
  }

  function SmallIndexToSize(i: nat): nat
  {
    i * SMALLBIN_SHIFT_SIZE
  }

  ghost function Listed(list: seq<nat>, size: nat): multiset<Chunk>
  {
    RingChunks(list, size)
  }

  /** The chunks of the bins from `i` on. */
  ghost function ListedFrom(bins: seq<seq<nat>>, i: nat): multiset<Chunk>
    requires i <= |bins|
    decreases |bins| - i
  {
    if i == |bins| then multiset{} else Listed(bins[i], SmallIndexToSize(i)) + ListedFrom(bins, i + 1)
  }

  ghost function SmallChunks(bins: seq<seq<nat>>): multiset<Chunk>
  {
    ListedFrom(bins, 0)
  }

  ghost predicate SmallOk(bins: seq<seq<nat>>, smallmap: set<nat>)
  {
    |bins| == NSMALLBINS && forall i: nat :: i in smallmap <==> i < NSMALLBINS && bins[i] != []
  }

  lemma {:induction false} ReplaceFrom(bins: seq<seq<nat>>, i: nat, k: nat, list: seq<nat>, added: multiset<Chunk>, removed: multiset<Chunk>)
    requires i <= k < |bins|
    requires Listed(list, SmallIndexToSize(k)) + removed == Listed(bins[k], SmallIndexToSize(k)) + added
    ensures ListedFrom(bins[k := list], i) + removed == ListedFrom(bins, i) + added
    decreases k - i
  {
    hide Listed;
    if i < k {
      ReplaceFrom(bins, i + 1, k, list, added, removed);
      Reassociate(Listed(bins[i], SmallIndexToSize(i)), ListedFrom(bins, i + 1), ListedFrom(bins[k := list], i + 1), added, removed);
    } else {
      SameFrom(bins, k + 1, k, list);
      Rearrange(Listed(bins[k], SmallIndexToSize(k)), Listed(list, SmallIndexToSize(k)), ListedFrom(bins, k + 1), added, removed);
    }
  }

  lemma {:induction false} SameFrom(bins: seq<seq<nat>>, i: nat, k: nat, list: seq<nat>)
    requires k < i <= |bins|
    ensures ListedFrom(bins[k := list], i) == ListedFrom(bins, i)
    decreases |bins| - i
  {
    if i < |bins| {
      SameFrom(bins, i + 1, k, list);
    }
  }

  lemma SizeOfIndex(size: nat)
    requires IsSmall(size) && size % SMALLBIN_SHIFT_SIZE == 0
    ensures SmallIndex(size) < NSMALLBINS && SmallIndexToSize(SmallIndex(size)) == size
  {
  }

  lemma IndexOfSize(i: nat)
    ensures SmallIndex(SmallIndexToSize(i)) == i
  {
  }

  lemma {:induction false} InFrom(bins: seq<seq<nat>>, i: nat, c: Chunk)
    requires i <= |bins| && c in ListedFrom(bins, i)
    ensures exists k: nat :: i <= k < |bins| && c.addr in bins[k] && c.size == SmallIndexToSize(k)
    decreases |bins| - i
  {
    if c in Listed(bins[i], SmallIndexToSize(i)) {
      RingSize(bins[i], SmallIndexToSize(i), c);
    } else {
      InFrom(bins, i + 1, c);
      var k: nat :| i + 1 <= k < |bins| && c.addr in bins[k] && c.size == SmallIndexToSize(k);
      assert i <= k;
    }
  }

  lemma {:induction false} FromIn(bins: seq<seq<nat>>, i: nat, k: nat, a: nat)
    requires i <= k < |bins| && a in bins[k]
    ensures Chunk(a, SmallIndexToSize(k)) in ListedFrom(bins, i)
    decreases k - i
  {
    if i == k {
      RingSize(bins[i], SmallIndexToSize(i), Chunk(a, SmallIndexToSize(i)));
    } else {
      FromIn(bins, i + 1, k, a);
    }
  }

  class SmallBinState {
    /** Addresses, from the fd side of the bin on. */
    var bins: seq<seq<nat>>
    var smallmap: set<nat>

    ghost predicate Valid()
      reads this
    {
      SmallOk(bins, smallmap)
    }

    constructor ()
      ensures Valid() && SmallChunks(bins) == multiset{}
    {
      bins := seq(NSMALLBINS, _ => []);
      smallmap := {};
      new;
      NothingListed(bins, 0);
    }

    method InsertSmallChunk(addr: nat, size: nat)
      requires Valid() && IsSmall(size) && size % SMALLBIN_SHIFT_SIZE == 0
      modifies this
      ensures Valid() && SmallChunks(bins) == SmallChunks(old(bins)) + multiset{Chunk(addr, size)}
      ensures bins == old(bins)[SmallIndex(size) := [addr] + old(bins)[SmallIndex(size)]]
    {
      hide Listed, RingChunks;
      SizeOfIndex(size);
      var i := SmallIndex(size);
      var list := [addr] + bins[i];
      ListedHead(addr, bins[i], size);
      ReplaceFrom(bins, 0, i, list, multiset{Chunk(addr, size)}, multiset{});
      bins := bins[i := list];
      smallmap := smallmap + {i};
    }

    /** Takes any chunk out of its list. */
    method UnlinkSmallChunk(addr: nat, size: nat)
      requires Valid() && Chunk(addr, size) in SmallChunks(bins)
      modifies this
      ensures Valid() && SmallChunks(bins) + multiset{Chunk(addr, size)} == SmallChunks(old(bins))
      ensures var i := SmallIndex(size); i < |bins| && bins == old(bins)[i := Without(old(bins)[i], addr)]
    {
      hide Listed, RingChunks;
      InFrom(bins, 0, Chunk(addr, size));
      ghost var k: nat :| k < |bins| && addr in bins[k] && size == SmallIndexToSize(k);
      IndexOfSize(k);
      var i := SmallIndex(size);
      var list := Without(bins[i], addr);
      ListedWithout(bins[i], addr, size);
      ReplaceFrom(bins, 0, i, list, multiset{}, multiset{Chunk(addr, size)});
      bins := bins[i := list];
      if list == [] {
        smallmap := smallmap - {i};
      }
    }

    method UnlinkFirstSmallChunk(i: nat) returns (addr: nat)
      requires Valid() && i in smallmap
      modifies this
      ensures Valid() && SmallChunks(bins) + multiset{Chunk(addr, SmallIndexToSize(i))} == SmallChunks(old(bins))
      ensures Chunk(addr, SmallIndexToSize(i)) in SmallChunks(old(bins))
      ensures [addr] + bins[i] == old(bins)[i] && bins == old(bins)[i := bins[i]]
    {
      addr := bins[i][0];
      FromIn(bins, 0, i, addr);
      var list := bins[i][1..];
      ListedHead(addr, list, SmallIndexToSize(i));
      assert [addr] + list == bins[i];
      ReplaceFrom(bins, 0, i, list, multiset{}, multiset{Chunk(addr, SmallIndexToSize(i))});
      bins := bins[i := list];
      if list == [] {
        smallmap := smallmap - {i};
      }
    }
  }

  lemma ListedWithout(list: seq<nat>, addr: nat, size: nat)
    requires addr in list
    ensures Listed(Without(list, addr), size) + multiset{Chunk(addr, size)} == Listed(list, size)
  {
    WithoutChunks(list, addr, size);
  }

  lemma ListedHead(addr: nat, list: seq<nat>, size: nat)
    ensures Listed([addr] + list, size) == Listed(list, size) + multiset{Chunk(addr, size)}
  {
    assert ([addr] + list)[1..] == list;
  }

  lemma {:induction false} NothingListed(bins: seq<seq<nat>>, i: nat)
    requires i <= |bins| && forall k :: 0 <= k < |bins| ==> bins[k] == []
    ensures ListedFrom(bins, i) == multiset{}
    decreases |bins| - i
  {
    if i < |bins| {
      NothingListed(bins, i + 1);
    }
  }
}
