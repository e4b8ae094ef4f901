/**
 The read-from vectors that one prior execution contributes to a post-crash read:
 the walk over its store list, newest store first, and what that walk leaves out.
 */
module Enumeration {
  import opened Wrappers
  import opened Memory
  import opened Column

  /** Stores of the list that the walk stops at: they touch the read and may have been written back. */
  ghost predicate Relevant(c: Cell, loc: nat, size: nat, w: Write)
  {
    Overlaps(loc, size, w) && (c.range.end == 0 || w.clock <= c.range.end)
  }

  /** The line was written back at this store or later. */
  ghost predicate Closes(c: Cell, w: Write)
  {
    w.clock <= c.range.begin || w.isInit
  }

  /** The walk from the end down to position `j` met a store that closes the window. */
  ghost predicate PastWindow(c: Cell, loc: nat, size: nat, j: nat)
  {
    exists i :: j <= i < |c.stores| && Relevant(c, loc, size, c.stores[i]) && Closes(c, c.stores[i])
  }

  /** The points that the walk down to position `j` tried. */
  ghost predicate Visited(c: Cell, loc: nat, size: nat, j: nat, q: nat)
  {
    exists i :: j <= i < |c.stores| && c.stores[i].clock == q
                && Relevant(c, loc, size, c.stores[i]) && !PastWindow(c, loc, size, i + 1)
  }

  /** Largest sequence number of the initialization stores that touch the read and may have been written back. */
  ghost function InitCut(c: Cell, loc: nat, size: nat, j: nat): (r: nat)
    requires j <= |c.stores|
    ensures forall i :: j <= i < |c.stores| && Relevant(c, loc, size, c.stores[i]) && c.stores[i].isInit ==> c.stores[i].clock <= r
    ensures r == 0 || exists i :: j <= i < |c.stores| && Relevant(c, loc, size, c.stores[i]) && c.stores[i].isInit && c.stores[i].clock == r
    decreases |c.stores| - j
  {
    if j == |c.stores| then 0
    else
      var rest := InitCut(c, loc, size, j + 1);
      if Relevant(c, loc, size, c.stores[j]) && c.stores[j].isInit && rest < c.stores[j].clock then c.stores[j].clock else rest
  }

  /** The interval the walk really explores: an initialization store counts as written back. */
  ghost function Window(c: Cell, loc: nat, size: nat): Range
  {
    var cut := InitCut(c, loc, size, 0);
    if c.range.begin < cut then c.range.(begin := cut) else c.range
  }

  /** A store fills the open slots it covers. */
  ghost function FillOne(v: Slots, e: nat, w: Write, loc: nat): (r: Slots)
    ensures |r| == |v|
    ensures forall i :: 0 <= i < |v| ==> r[i] == if v[i].None? && w.Covers(loc + i) then Some(Source(e, w)) else v[i]
  {
    seq(|v|, i requires 0 <= i < |v| => if v[i].None? && w.Covers(loc + i) then Some(Source(e, w)) else v[i])
  }

  lemma FillStep(v: Slots, e: nat, ws: seq<Write>, j: nat, q: nat, loc: nat)
    requires j < |ws| && ws[j].clock <= q
    ensures FillUpTo(v, e, ws[j..], q, loc) == FillOne(FillUpTo(v, e, ws[j + 1..], q, loc), e, ws[j], loc)
  {
    assert ws[j..][1..] == ws[j + 1..];
  }

  /** A store that covers no byte of the read can be skipped. */
  lemma FillSkip(v: Slots, e: nat, ws: seq<Write>, j: nat, q: nat, loc: nat)
    requires j < |ws| && (q < ws[j].clock || !Overlaps(loc, |v|, ws[j]))
    ensures FillUpTo(v, e, ws[j..], q, loc) == FillUpTo(v, e, ws[j + 1..], q, loc)
  {
    assert ws[j..][1..] == ws[j + 1..];
    var r := FillUpTo(v, e, ws[j..], q, loc);
    forall i | 0 <= i < |v|
      ensures r[i] == FillUpTo(v, e, ws[j + 1..], q, loc)[i]
    {
      assert LastCovering(ws[j..], loc + i, q) == LastCovering(ws[j + 1..], loc + i, q);
    }
  }

  /** Nothing later in the list than point `q` fills anything. */
  lemma {:induction false} FillNothing(v: Slots, e: nat, ws: seq<Write>, q: nat, loc: nat)
    requires forall w :: w in ws && Overlaps(loc, |v|, w) ==> q < w.clock
    ensures FillUpTo(v, e, ws, q, loc) == v
  {
    var r := FillUpTo(v, e, ws, q, loc);
    forall i | 0 <= i < |v|
      ensures r[i] == v[i]
    {
      LastCoveringNone(ws, loc + i, q);
    }
  }

  /** Once every slot is filled the older stores do not matter. */
  lemma {:induction false} FillDone(v: Slots, e: nat, ws: seq<Write>, j: nat, q: nat, loc: nat)
    requires j <= |ws| && Full(FillUpTo(v, e, ws[j..], q, loc))
    ensures FillUpTo(v, e, ws, q, loc) == FillUpTo(v, e, ws[j..], q, loc)
    decreases j
  {
    if j == 0 {
      assert ws[0..] == ws;
    } else {
      assert ws[j - 1..][1..] == ws[j..];
      assert FillUpTo(v, e, ws[j - 1..], q, loc) == FillUpTo(v, e, ws[j..], q, loc);
      FillDone(v, e, ws, j - 1, q, loc);
    }
  }

  lemma {:induction false} FillBetween(v: Slots, e: nat, ws: seq<Write>, p: nat, q: nat, loc: nat)
    requires forall w :: w in ws && Overlaps(loc, |v|, w) ==> (w.clock <= p <==> w.clock <= q)
    ensures FillUpTo(v, e, ws, p, loc) == FillUpTo(v, e, ws, q, loc)
  {
    var x, y := FillUpTo(v, e, ws, p, loc), FillUpTo(v, e, ws, q, loc);
    forall i | 0 <= i < |v|
      ensures x[i] == y[i]
    {
      LastCoveringBetween(ws, loc + i, p, q);
    }
  }

  // ----- The points tried stand for all the points of the window -----

  /** `result` is the seed `v` filled at some point of the window. */
  ghost predicate Extends(e: nat, c: Cell, v: Slots, loc: nat, result: Slots)
  {
    exists p :: Window(c, loc, |v|).Contains(p) && result == FillUpTo(v, e, c.stores, p, loc)
  }

  /** `result` is the seed filled at a point the walk tried, or left as it is when the window stayed open. */
  ghost predicate Tried(e: nat, c: Cell, v: Slots, loc: nat, result: Slots)
  {
    || (exists q: nat :: Visited(c, loc, |v|, 0, q) && result == FillUpTo(v, e, c.stores, q, loc))
    || (!PastWindow(c, loc, |v|, 0) && result == v)
  }

  /** Largest position of a relevant store with a number of at most `p`, below `j`. */
  ghost function NewestUpTo(c: Cell, loc: nat, size: nat, p: nat, j: nat): (r: int)
    requires j <= |c.stores|
    ensures -1 <= r < j
    ensures r >= 0 ==> Relevant(c, loc, size, c.stores[r]) && c.stores[r].clock <= p
    ensures forall i :: r < i < j ==> !(Relevant(c, loc, size, c.stores[i]) && c.stores[i].clock <= p)
  {
    if j == 0 then -1
    else if Relevant(c, loc, size, c.stores[j - 1]) && c.stores[j - 1].clock <= p then j - 1
    else NewestUpTo(c, loc, size, p, j - 1)
  }

  lemma TriedComplete(e: nat, c: Cell, v: Slots, loc: nat, p: nat)
    requires Sorted(c.stores) && Window(c, loc, |v|).Contains(p)
    ensures Tried(e, c, v, loc, FillUpTo(v, e, c.stores, p, loc))
  {
    var i := NewestUpTo(c, loc, |v|, p, |c.stores|);
    if i < 0 {
      FillNothing(v, e, c.stores, p, loc);
    } else {
      var q := c.stores[i].clock;
      FillBetween(v, e, c.stores, p, q, loc);
      assert Visited(c, loc, |v|, 0, q);
    }
  }

  lemma TriedSound(e: nat, c: Cell, v: Slots, loc: nat, result: Slots)
    requires Sorted(c.stores) && Window(c, loc, |v|).NonEmpty() && Tried(e, c, v, loc, result)
    ensures Extends(e, c, v, loc, result)
  {
    var window := Window(c, loc, |v|);
    if q: nat :| Visited(c, loc, |v|, 0, q) && result == FillUpTo(v, e, c.stores, q, loc) {
      if window.begin <= q {
        assert window.Contains(q);
      } else {
        VisitedBelow(c, loc, |v|, q);
        FillBetween(v, e, c.stores, window.begin, q, loc);
        assert window.Contains(window.begin);
      }
    } else {
      FillNothing(v, e, c.stores, window.begin, loc);
      assert window.Contains(window.begin);
    }
  }

  lemma OpenAbove(c: Cell, loc: nat, size: nat, j: nat)
    requires !PastWindow(c, loc, size, j)
    ensures forall k :: j <= k < |c.stores| && Relevant(c, loc, size, c.stores[k]) ==>
                          c.range.begin < c.stores[k].clock && !c.stores[k].isInit
  {
  }

  /** A point tried below the window stands for its lower end. */
  lemma VisitedBelow(c: Cell, loc: nat, size: nat, q: nat)
    requires Sorted(c.stores) && Window(c, loc, size).NonEmpty()
    requires Visited(c, loc, size, 0, q) && q < Window(c, loc, size).begin
    ensures forall w :: w in c.stores && Overlaps(loc, size, w) ==>
                          (w.clock <= Window(c, loc, size).begin <==> w.clock <= q)
  {
    var b := Window(c, loc, size).begin;
    var i :| 0 <= i < |c.stores| && c.stores[i].clock == q
             && Relevant(c, loc, size, c.stores[i]) && !PastWindow(c, loc, size, i + 1);
    OpenAbove(c, loc, size, i + 1);
    assert InitCut(c, loc, size, 0) <= q;
    assert b == c.range.begin;
    forall w | w in c.stores && Overlaps(loc, size, w) && w.clock <= b
      ensures w.clock <= q
    {
      var k :| 0 <= k < |c.stores| && c.stores[k] == w;
    }
  }

  lemma TriedExact(e: nat, c: Cell, v: Slots, loc: nat, result: Slots)
    requires Sorted(c.stores) && Window(c, loc, |v|).NonEmpty()
    ensures Tried(e, c, v, loc, result) <==> Extends(e, c, v, loc, result)
  {
    if Tried(e, c, v, loc, result) {
      TriedSound(e, c, v, loc, result);
    }
    if p :| Window(c, loc, |v|).Contains(p) && result == FillUpTo(v, e, c.stores, p, loc) {
      TriedComplete(e, c, v, loc, p);
    }
  }

  // ----- The walk itself -----

  /** HashSet.add: a vector already present is not added again. */
  function Add(vectors: seq<Slots>, v: Slots): (r: seq<Slots>)
    ensures forall x :: x in r <==> x in vectors || x == v
  {
    if v in vectors then vectors else vectors + [v]
  }

  method AddAll(vectors: seq<Slots>, seeds: seq<Slots>) returns (r: seq<Slots>)
    ensures forall v :: v in r <==> v in vectors || v in seeds
  {
    r := vectors;
    for n := 0 to |seeds|
      invariant forall v :: v in r <==> v in vectors || v in seeds[..n]
    {
      r := Add(r, seeds[n]);
    }
  }

  /** Puts `write` into every open slot it covers; tells whether an open slot is left. */
  method FillSlots(vec: Slots, e: nat, write: Write, rbot: nat) returns (r: Slots, hasNull: bool)
    ensures r == FillOne(vec, e, write, rbot)
    ensures hasNull <==> !Full(r)
  {
    r := vec;
    hasNull := false;
    var writeoffset: int := rbot - write.loc;
    for i := 0 to |vec|
      invariant |r| == |vec| && writeoffset == rbot + i - write.loc
      invariant forall k :: 0 <= k < i ==> r[k] == FillOne(vec, e, write, rbot)[k]
      invariant forall k :: i <= k < |vec| ==> r[k] == vec[k]
      invariant hasNull <==> exists k :: 0 <= k < i && r[k].None?
    {
      if r[i].None? {
        if 0 <= writeoffset < |write.bytes| {
          r := r[i := Some(Source(e, write))];
        } else {
          hasNull := true;
        }
      }
      writeoffset := writeoffset + 1;
    }
  }

  /** The same for every vector collected so far. */
  method FillAll(vectors: seq<Slots>, e: nat, write: Write, rbot: nat) returns (r: seq<Slots>, hasNull: bool)
    ensures |r| == |vectors| && forall k :: 0 <= k < |r| ==> r[k] == FillOne(vectors[k], e, write, rbot)
    ensures hasNull <==> exists v :: v in r && !Full(v)
  {
    r := vectors;
    hasNull := false;
    for n := 0 to |vectors|
      invariant |r| == |vectors|
      invariant forall k :: 0 <= k < n ==> r[k] == FillOne(vectors[k], e, write, rbot)
      invariant forall k :: n <= k < |r| ==> r[k] == vectors[k]
      invariant hasNull <==> exists k :: 0 <= k < n && !Full(r[k])
    {
      var vec, open := FillSlots(r[n], e, write, rbot);
      r := r[n := vec];
      hasNull := hasNull || open;
    }
  }

  /** The vectors collected when the walk has come down to position `j`. */
  ghost predicate Collected(e: nat, c: Cell, seeds: seq<Slots>, loc: nat, size: nat, j: nat, vectors: seq<Slots>)
    requires j <= |c.stores|
  {
    && (forall v :: v in vectors ==>
          exists s, q: nat :: s in seeds && Visited(c, loc, size, j, q) && v == FillUpTo(s, e, c.stores[j..], q, loc))
    && (forall s, q: nat :: s in seeds && Visited(c, loc, size, j, q) ==> FillUpTo(s, e, c.stores[j..], q, loc) in vectors)
  }

  ghost predicate SeedSize(seeds: seq<Slots>, size: nat)
  {
    forall s :: s in seeds ==> |s| == size
  }

  lemma VisitedSkip(c: Cell, loc: nat, size: nat, j: nat)
    requires j < |c.stores| && !Relevant(c, loc, size, c.stores[j])
    ensures PastWindow(c, loc, size, j) <==> PastWindow(c, loc, size, j + 1)
    ensures forall q :: Visited(c, loc, size, j, q) <==> Visited(c, loc, size, j + 1, q)
  {
  }

  /** A store beyond the upper bound, or beside the read, leaves everything as it was. */
  lemma {:induction false} CollectedSkip(
      e: nat, c: Cell, seeds: seq<Slots>, loc: nat, size: nat, j: nat, vectors: seq<Slots>)
    requires Sorted(c.stores) && SeedSize(seeds, size) && j < |c.stores|
    requires Collected(e, c, seeds, loc, size, j + 1, vectors) && !Relevant(c, loc, size, c.stores[j])
    ensures Collected(e, c, seeds, loc, size, j, vectors)
    ensures PastWindow(c, loc, size, j) <==> PastWindow(c, loc, size, j + 1)
  {
    VisitedSkip(c, loc, size, j);
    forall s, q: nat | s in seeds && Visited(c, loc, size, j + 1, q)
      ensures FillUpTo(s, e, c.stores[j..], q, loc) == FillUpTo(s, e, c.stores[j + 1..], q, loc)
    {
      assert q < c.stores[j].clock || !Overlaps(loc, size, c.stores[j]) by {
        var i :| j + 1 <= i < |c.stores| && c.stores[i].clock == q && Relevant(c, loc, size, c.stores[i]);
        assert c.stores[j].clock < c.stores[i].clock;
      }
      FillSkip(s, e, c.stores, j, q, loc);
    }
    forall v | v in vectors
      ensures exists s, q: nat :: s in seeds && Visited(c, loc, size, j, q) && v == FillUpTo(s, e, c.stores[j..], q, loc)
    {
      var s, q: nat :| s in seeds && Visited(c, loc, size, j + 1, q) && v == FillUpTo(s, e, c.stores[j + 1..], q, loc);
      assert Visited(c, loc, size, j, q) && v == FillUpTo(s, e, c.stores[j..], q, loc);
    }
  }

  /** A relevant store fills what is there, after the seeds were copied in once more while the window is open. */
  lemma CollectedStep(e: nat, c: Cell, seeds: seq<Slots>, loc: nat, size: nat, j: nat,
                      before: seq<Slots>, copied: seq<Slots>, after: seq<Slots>)
    requires Sorted(c.stores) && SeedSize(seeds, size) && j < |c.stores|
    requires Collected(e, c, seeds, loc, size, j + 1, before) && Relevant(c, loc, size, c.stores[j])
    requires forall v :: v in copied <==> v in before || (!PastWindow(c, loc, size, j + 1) && v in seeds)
    requires |after| == |copied| && forall k :: 0 <= k < |after| ==> after[k] == FillOne(copied[k], e, c.stores[j], loc)
    ensures Collected(e, c, seeds, loc, size, j, after)
  {
    var ws, w := c.stores, c.stores[j];
    forall s, q: nat | s in seeds && Visited(c, loc, size, j, q)
      ensures FillUpTo(s, e, ws[j..], q, loc) in after
    {
      FillStep(s, e, ws, j, q, loc);
      var base := FillUpTo(s, e, ws[j + 1..], q, loc);
      if q == w.clock {
        FillNothing(s, e, ws[j + 1..], q, loc);
      }
      assert base in copied;
      var k :| 0 <= k < |copied| && copied[k] == base;
      assert after[k] == FillUpTo(s, e, ws[j..], q, loc);
    }
    forall v | v in after
      ensures exists s, q: nat :: s in seeds && Visited(c, loc, size, j, q) && v == FillUpTo(s, e, ws[j..], q, loc)
    {
      var k :| 0 <= k < |after| && after[k] == v;
      var base := copied[k];
      if base in before {
        var s, q: nat :| s in seeds && Visited(c, loc, size, j + 1, q) && base == FillUpTo(s, e, ws[j + 1..], q, loc);
        FillStep(s, e, ws, j, q, loc);
        assert Visited(c, loc, size, j, q);
      } else {
        FillNothing(base, e, ws[j + 1..], w.clock, loc);
        FillStep(base, e, ws, j, w.clock, loc);
        assert Visited(c, loc, size, j, w.clock);
      }
    }
  }

  /** Leaving the walk early, with every slot filled, loses nothing. */
  lemma CollectedDone(e: nat, c: Cell, seeds: seq<Slots>, loc: nat, size: nat, j: nat, vectors: seq<Slots>)
    requires Sorted(c.stores) && SeedSize(seeds, size) && j <= |c.stores|
    requires Collected(e, c, seeds, loc, size, j, vectors) && PastWindow(c, loc, size, j)
    requires j == 0 || forall v :: v in vectors ==> Full(v)
    ensures forall v :: v in vectors <==> exists s :: s in seeds && Tried(e, c, s, loc, v)
  {
    assert PastWindow(c, loc, size, 0);
    VisitedEarlier(c, loc, size, j);
    forall s, q: nat | s in seeds && Visited(c, loc, size, j, q)
      ensures FillUpTo(s, e, c.stores[j..], q, loc) == FillUpTo(s, e, c.stores, q, loc)
    {
      if j == 0 {
        assert c.stores[0..] == c.stores;
      } else {
        FillDone(s, e, c.stores, j, q, loc);
      }
    }
    forall s, v | s in seeds && Tried(e, c, s, loc, v)
      ensures v in vectors
    {
      var q: nat :| Visited(c, loc, |s|, 0, q) && v == FillUpTo(s, e, c.stores, q, loc);
      assert Visited(c, loc, size, j, q);
    }
    forall v | v in vectors
      ensures exists s :: s in seeds && Tried(e, c, s, loc, v)
    {
      var s, q: nat :| s in seeds && Visited(c, loc, size, j, q) && v == FillUpTo(s, e, c.stores[j..], q, loc);
      assert Visited(c, loc, |s|, 0, q);
      assert Tried(e, c, s, loc, v);
    }
  }

  lemma VisitedEarlier(c: Cell, loc: nat, size: nat, j: nat)
    requires PastWindow(c, loc, size, j)
    ensures forall q :: Visited(c, loc, size, j, q) <==> Visited(c, loc, size, 0, q)
  {
  }

  /** At the bottom of the list, with the window still open, the seeds themselves join. */
  lemma CollectedOpen(e: nat, c: Cell, seeds: seq<Slots>, loc: nat, size: nat, vectors: seq<Slots>, all: seq<Slots>)
    requires Sorted(c.stores) && SeedSize(seeds, size)
    requires Collected(e, c, seeds, loc, size, 0, vectors) && !PastWindow(c, loc, size, 0)
    requires forall v :: v in all <==> v in vectors || v in seeds
    ensures forall v :: v in all <==> exists s :: s in seeds && Tried(e, c, s, loc, v)
  {
    assert c.stores[0..] == c.stores;
    forall v | v in all
      ensures exists s :: s in seeds && Tried(e, c, s, loc, v)
    {
      if v in seeds {
        assert Tried(e, c, v, loc, v);
      } else {
        var s, q: nat :| s in seeds && Visited(c, loc, size, 0, q) && v == FillUpTo(s, e, c.stores[0..], q, loc);
        assert Tried(e, c, s, loc, v);
      }
    }
    forall s, v | s in seeds && Tried(e, c, s, loc, v)
      ensures v in all
    {
      if v != s {
        var q: nat :| Visited(c, loc, |s|, 0, q) && v == FillUpTo(s, e, c.stores, q, loc);
      }
    }
  }

  /**
   The vectors one prior execution makes of the seeds: exactly the seeds filled at
   some write-back point of its window. `done` means that no slot is left open.
   */
  method LookForWritesInPriorExecution(e: nat, writes: seq<Write>, range: Range, rbot: nat, size: nat, seeds: seq<Slots>)
    returns (isDone: bool, currWrites: seq<Slots>)
    requires Sorted(writes) && SeedSize(seeds, size)
    requires Window(Cell(writes, range), rbot, size).NonEmpty()
    ensures forall r :: r in currWrites <==> exists s :: s in seeds && Extends(e, Cell(writes, range), s, rbot, r)
    ensures isDone ==> forall r :: r in currWrites ==> Full(r)
  {
    hide FillOne, FillUpTo, Extends, Window, Tried;
    ghost var c := Cell(writes, range);
    var rtop := rbot + size;
    currWrites := [];
    isDone := false;
    var pastWindow := false;
    var it := |writes|;
    while it > 0
      invariant 0 <= it <= |writes|
      invariant Collected(e, c, seeds, rbot, size, it, currWrites)
      invariant pastWindow <==> PastWindow(c, rbot, size, it)
      invariant isDone ==> pastWindow && forall v :: v in currWrites ==> Full(v)
    {
      it := it - 1;
      var write := writes[it];
      if range.end != 0 && write.clock > range.end {
        CollectedSkip(e, c, seeds, rbot, size, it, currWrites);
        continue;
      }
      var wtop := write.loc + |write.bytes|;
      if write.loc >= rtop || rbot >= wtop {
        CollectedSkip(e, c, seeds, rbot, size, it, currWrites);
        continue;
      }
      ghost var before := currWrites;
      if !pastWindow {
        currWrites := AddAll(currWrites, seeds);
      }
      ghost var copied := currWrites;
      var hasNull;
      currWrites, hasNull := FillAll(currWrites, e, write, rbot);
      CollectedStep(e, c, seeds, rbot, size, it, before, copied, currWrites);
      if write.clock <= range.begin || write.isInit {
        pastWindow := true;
        if !hasNull {
          isDone := true;
          break;
        }
      }
    }
    if !pastWindow {
      ghost var before := currWrites;
      currWrites := AddAll(currWrites, seeds);
      CollectedOpen(e, c, seeds, rbot, size, before, currWrites);
    } else {
      CollectedDone(e, c, seeds, rbot, size, it, currWrites);
    }
    forall s, r | s in seeds
      ensures Tried(e, c, s, rbot, r) <==> Extends(e, c, s, rbot, r)
    {
      TriedExact(e, c, s, rbot, r);
    }
  }

  // ----- All prior executions, newest first -----

  /** The column with every interval replaced by the window the walk explores. */
  ghost function Windows(col: seq<Cell>, loc: nat, size: nat): (r: seq<Cell>)
    ensures |r| == |col|
    ensures forall e :: 0 <= e < |col| ==> r[e] == Cell(col[e].stores, Window(col[e], loc, size))
  {
    seq(|col|, e requires 0 <= e < |col| => Cell(col[e].stores, Window(col[e], loc, size)))
  }

  /** The slots filled from the executions |col|-1 down to `k`. */
  ghost function ReadDown(col: seq<Cell>, points: seq<nat>, v: Slots, loc: nat, k: nat): (r: Slots)
    requires |points| == |col| && k <= |col|
    ensures |r| == |v|
    decreases |col| - k
  {
    if k == |col| then v
    else FillUpTo(ReadDown(col, points, v, loc, k + 1), k, col[k].stores, points[k], loc)
  }

  ghost predicate Reached(col: seq<Cell>, v: Slots, loc: nat, k: nat, r: Slots)
    requires k <= |col|
  {
    exists points :: Within(Windows(col, loc, |v|), points) && r == ReadDown(col, points, v, loc, k)
  }

  lemma {:induction false} ReadDownOnly(col: seq<Cell>, p0: seq<nat>, p1: seq<nat>, v: Slots, loc: nat, k: nat)
    requires |p0| == |p1| == |col| && k <= |col| && p0[k..] == p1[k..]
    ensures ReadDown(col, p0, v, loc, k) == ReadDown(col, p1, v, loc, k)
    decreases |col| - k
  {
    if k < |col| {
      assert p0[k] == p0[k..][0] == p1[k];
      assert p0[k + 1..] == p0[k..][1..] == p1[k + 1..];
      ReadDownOnly(col, p0, p1, v, loc, k + 1);
    }
  }

  /** Reading on downwards from `k` gives the persisted bytes. */
  lemma {:induction false} ReadDownPersisted(col: seq<Cell>, points: seq<nat>, v: Slots, loc: nat, k: nat)
    requires |points| == |col| && k <= |col|
    ensures ReadPersisted(col[..k], points[..k], ReadDown(col, points, v, loc, k), loc) == ReadPersisted(col, points, v, loc)
    decreases |col| - k
  {
    if k == |col| {
      assert col[..k] == col && points[..k] == points;
    } else {
      ReadDownPersisted(col, points, v, loc, k + 1);
      ReadPersistedPeel(col[..k + 1], points[..k + 1], ReadDown(col, points, v, loc, k + 1), loc);
      assert col[..k + 1][..k] == col[..k] && points[..k + 1][..k] == points[..k];
    }
  }

  lemma ReachedFirst(col: seq<Cell>, v: Slots, loc: nat)
    requires forall e :: 0 <= e < |col| ==> Window(col[e], loc, |v|).NonEmpty()
    ensures forall r :: r in [v] <==> Reached(col, v, loc, |col|, r)
  {
    var w := Windows(col, loc, |v|);
    var points := seq(|col|, e requires 0 <= e < |col| => w[e].range.begin);
    assert Within(w, points);
    assert Reached(col, v, loc, |col|, v);
  }

  lemma ReachedStep(col: seq<Cell>, v: Slots, loc: nat, k: nat, before: seq<Slots>, after: seq<Slots>)
    requires k < |col|
    requires forall r :: r in before <==> Reached(col, v, loc, k + 1, r)
    requires forall r :: r in after <==> exists s :: s in before && Extends(k, col[k], s, loc, r)
    ensures forall r :: r in after <==> Reached(col, v, loc, k, r)
  {
    forall r | r in after
      ensures Reached(col, v, loc, k, r)
    {
      var s :| s in before && Extends(k, col[k], s, loc, r);
      var points :| Within(Windows(col, loc, |v|), points) && s == ReadDown(col, points, v, loc, k + 1);
      var p: nat :| Window(col[k], loc, |s|).Contains(p) && r == FillUpTo(s, k, col[k].stores, p, loc);
      var points' := points[k := p];
      assert points'[k + 1..] == points[k + 1..];
      ReadDownOnly(col, points, points', v, loc, k + 1);
      assert Within(Windows(col, loc, |v|), points');
      assert r == ReadDown(col, points', v, loc, k);
    }
    forall r | Reached(col, v, loc, k, r)
      ensures r in after
    {
      var points :| Within(Windows(col, loc, |v|), points) && r == ReadDown(col, points, v, loc, k);
      var s := ReadDown(col, points, v, loc, k + 1);
      assert Reached(col, v, loc, k + 1, s);
      assert Window(col[k], loc, |s|).Contains(points[k]);
      assert Extends(k, col[k], s, loc, r);
    }
  }

  /** Stopping at execution `k` is right when it is the oldest one, or when no slot is open any more. */
  lemma ReachedLast(col: seq<Cell>, v: Slots, loc: nat, k: nat, vectors: seq<Slots>)
    requires k <= |col| && forall r :: r in vectors <==> Reached(col, v, loc, k, r)
    requires k == 0 || forall r :: r in vectors ==> Full(r)
    ensures forall r :: r in vectors <==> Realizable(Windows(col, loc, |v|), v, loc, r)
  {
    var w := Windows(col, loc, |v|);
    forall points | Within(w, points)
      ensures ReadPersisted(w, points, v, loc) == ReadDown(col, points, v, loc, k)
    {
      var r := ReadDown(col, points, v, loc, k);
      assert Reached(col, v, loc, k, r);
      ReadDownPersisted(col, points, v, loc, k);
      if k == 0 {
        assert col[..0] == [];
        assert ReadPersisted(col[..0], points[..0], r, loc) == r;
      } else {
        ReadPersistedFull(col[..k], points[..k], r, loc);
      }
      ReadPersistedSameStores(col, w, points, v, loc);
    }
  }

  lemma ReadPersistedSameStores(c0: seq<Cell>, c1: seq<Cell>, points: seq<nat>, v: Slots, loc: nat)
    requires SameStores(c0, c1) && |points| == |c0|
    ensures ReadPersisted(c0, points, v, loc) == ReadPersisted(c1, points, v, loc)
  {
    forall i | 0 <= i < |v|
      ensures ReadPersisted(c0, points, v, loc)[i] == ReadPersisted(c1, points, v, loc)[i]
    {
      PersistedSameStores(c0, c1, points, loc + i);
    }
  }

  // ----- When the walk explores whole intervals -----

  /** The window is the upper part of the interval. */
  lemma WindowInside(c: Cell, loc: nat, size: nat)
    requires c.range.NonEmpty()
    ensures Window(c, loc, size).NonEmpty()
    ensures forall p :: Window(c, loc, size).Contains(p) <==> c.range.Contains(p) && Window(c, loc, size).begin <= p
  {
  }

  /** Whatever the walk produces, some points of the intervals explain. */
  lemma WindowsInside(col: seq<Cell>, loc: nat, size: nat)
    requires forall e :: 0 <= e < |col| ==> col[e].range.NonEmpty()
    ensures forall points :: Within(Windows(col, loc, size), points) ==> Within(col, points)
    ensures forall v, r :: Realizable(Windows(col, loc, size), v, loc, r) ==> Realizable(col, v, loc, r)
  {
    var w := Windows(col, loc, size);
    forall points | Within(w, points)
      ensures Within(col, points)
    {
      forall e | 0 <= e < |col|
        ensures col[e].range.Contains(points[e])
      {
        WindowInside(col[e], loc, size);
        assert w[e].range.Contains(points[e]);
      }
    }
    forall v, r | Realizable(w, v, loc, r)
      ensures Realizable(col, v, loc, r)
    {
      var points :| Within(w, points) && ReadPersisted(w, points, v, loc) == r;
      ReadPersistedSameStores(col, w, points, v, loc);
    }
  }

  /** In no execution after `e` is a store of byte `a` written back for sure. */
  ghost predicate ComesDown(col: seq<Cell>, e: int, a: nat)
  {
    forall k :: 0 <= k < |col| && e < k ==> LastCovering(col[k].stores, a, col[k].range.begin).None?
  }

  /** A store of byte `a` inside the interval, at or below an initialization store that the read touches. */
  ghost predicate Hidden(c: Cell, loc: nat, size: nat, a: nat)
  {
    exists w :: w in c.stores && w.Covers(a) && c.range.begin < w.clock <= Window(c, loc, size).begin
  }

  /** Open byte `i` of the read can come down to execution `e`, where an initialization store hides a point. */
  ghost predicate MeetsAt(col: seq<Cell>, v: Slots, loc: nat, e: nat, i: nat)
  {
    e < |col| && i < |v| && v[i].None? && ComesDown(col, e, loc + i) && Hidden(col[e], loc, |v|, loc + i)
  }

  ghost predicate MeetsInit(col: seq<Cell>, v: Slots, loc: nat)
  {
    exists e: nat, i: nat :: MeetsAt(col, v, loc, e, i)
  }

  /** Nothing that the intervals allow is left out. */
  ghost predicate ExploresAll(col: seq<Cell>, v: Slots, loc: nat)
  {
    forall r :: Realizable(col, v, loc, r) ==> Realizable(Windows(col, loc, |v|), v, loc, r)
  }

  /** Points moved up into the windows. */
  ghost function Lifted(col: seq<Cell>, loc: nat, size: nat, points: seq<nat>): (r: seq<nat>)
    requires |points| == |col|
    ensures |r| == |col|
    ensures forall e :: 0 <= e < |col| ==>
                          r[e] == if points[e] < Window(col[e], loc, size).begin then Window(col[e], loc, size).begin else points[e]
  {
    seq(|col|, e requires 0 <= e < |col| =>
      if points[e] < Window(col[e], loc, size).begin then Window(col[e], loc, size).begin else points[e])
  }

  lemma PersistedPeel(col: seq<Cell>, points: seq<nat>, a: nat, n: nat)
    requires |points| == |col| && 0 < n <= |col|
    ensures var here := FromStore(n - 1, LastCovering(col[n - 1].stores, a, points[n - 1]));
            Persisted(col[..n], points[..n], a) == if here.Some? then here else Persisted(col[..n - 1], points[..n - 1], a)
  {
    assert col[..n][..n - 1] == col[..n - 1] && points[..n][..n - 1] == points[..n - 1];
  }

  /** At the execution that a byte comes down to, moving the point into the window changes nothing. */
  lemma LiftedHere(col: seq<Cell>, v: Slots, loc: nat, i: nat, points: seq<nat>, e: nat)
    requires Within(col, points) && e < |col| && i < |v| && v[i].None? && ComesDown(col, e, loc + i)
    requires !MeetsAt(col, v, loc, e, i)
    ensures var a := loc + i;
            && LastCovering(col[e].stores, a, points[e]) == LastCovering(col[e].stores, a, Lifted(col, loc, |v|, points)[e])
            && (LastCovering(col[e].stores, a, points[e]).None? ==> ComesDown(col, e - 1, a))
  {
    var ws, a := col[e].stores, loc + i;
    assert col[e].range.Contains(points[e]);
    LastCoveringBetween(ws, a, points[e], Lifted(col, loc, |v|, points)[e]);
    LastCoveringNone(ws, a, points[e]);
    LastCoveringNone(ws, a, col[e].range.begin);
  }

  lemma {:induction false} LiftedByte(col: seq<Cell>, v: Slots, loc: nat, i: nat, points: seq<nat>, n: nat)
    requires Within(col, points) && n <= |col| && i < |v| && v[i].None? && !MeetsInit(col, v, loc)
    requires ComesDown(col, n - 1, loc + i)
    ensures Persisted(col[..n], points[..n], loc + i) == Persisted(col[..n], Lifted(col, loc, |v|, points)[..n], loc + i)
  {
    if n > 0 {
      hide ComesDown, MeetsAt, Persisted, LastCovering;
      PersistedPeel(col, points, loc + i, n);
      PersistedPeel(col, Lifted(col, loc, |v|, points), loc + i, n);
      LiftedHere(col, v, loc, i, points, n - 1);
      if LastCovering(col[n - 1].stores, loc + i, points[n - 1]).None? {
        LiftedByte(col, v, loc, i, points, n - 1);
      }
    } else {
      assert col[..0] == [];
    }
  }

  lemma LiftedRead(col: seq<Cell>, v: Slots, loc: nat, points: seq<nat>)
    requires GoodColumn(col) && Within(col, points) && !MeetsInit(col, v, loc)
    ensures var lifted := Lifted(col, loc, |v|, points);
            && Within(Windows(col, loc, |v|), lifted)
            && ReadPersisted(Windows(col, loc, |v|), lifted, v, loc) == ReadPersisted(col, points, v, loc)
  {
    var w, lifted := Windows(col, loc, |v|), Lifted(col, loc, |v|, points);
    forall e | 0 <= e < |col|
      ensures w[e].range.Contains(lifted[e])
    {
      assert col[e].range.Contains(points[e]);
      WindowInside(col[e], loc, |v|);
    }
    forall i | 0 <= i < |v|
      ensures ReadPersisted(col, lifted, v, loc)[i] == ReadPersisted(col, points, v, loc)[i]
    {
      if v[i].None? {
        LiftedByte(col, v, loc, i, points, |col|);
        assert col[..|col|] == col && points[..|col|] == points && lifted[..|col|] == lifted;
      }
    }
    ReadPersistedSameStores(col, w, lifted, v, loc);
  }

  lemma {:induction false} PersistedFrom(col: seq<Cell>, points: seq<nat>, a: nat, e: nat, w: Write)
    requires |points| == |col| && e < |col| && Sorted(col[e].stores)
    requires w in col[e].stores && w.Covers(a) && w.clock <= points[e]
    ensures var r := Persisted(col, points, a);
            r.Some? && e <= r.value.exec && (r.value.exec == e ==> w.clock <= r.value.store.clock)
    decreases |col|
  {
    var n := |col| - 1;
    if e == n {
      LastCoveringAtLeast(col[e].stores, w, a, points[e]);
    } else {
      PersistedFrom(col[..n], points[..n], a, e, w);
    }
  }

  lemma {:induction false} PersistedBelow(col: seq<Cell>, points: seq<nat>, a: nat, e: nat)
    requires |points| == |col| && e < |col|
    requires forall k :: e < k < |col| ==> LastCovering(col[k].stores, a, points[k]).None?
    ensures var r := Persisted(col, points, a);
            r.Some? ==> r.value.exec <= e && (r.value.exec == e ==> r.value.store.clock <= points[e])
    decreases |col|
  {
    var n := |col| - 1;
    if e < n {
      PersistedBelow(col[..n], points[..n], a, e);
    }
  }

  /** Every line written back as early as it may be. */
  ghost function Early(col: seq<Cell>): (r: seq<nat>)
    ensures |r| == |col| && forall e :: 0 <= e < |col| ==> r[e] == col[e].range.begin
  {
    seq(|col|, e requires 0 <= e < |col| => col[e].range.begin)
  }

  lemma EarlyRead(col: seq<Cell>, v: Slots, loc: nat, e: nat, i: nat)
    requires GoodColumn(col) && e < |col| && i < |v| && v[i].None? && ComesDown(col, e, loc + i)
    ensures var r := ReadPersisted(col, Early(col), v, loc);
            && Realizable(col, v, loc, r)
            && (r[i].Some? ==> r[i].value.exec <= e && (r[i].value.exec == e ==> r[i].value.store.clock <= col[e].range.begin))
  {
    hide Early;
    PersistedBelow(col, Early(col), loc + i, e);
    assert Within(col, Early(col));
  }

  /** With every line written back as early as it may be, byte `i` is one that no window point gives. */
  lemma InitLosesRead(col: seq<Cell>, v: Slots, loc: nat, e: nat, i: nat)
    requires GoodColumn(col) && MeetsAt(col, v, loc, e, i)
    ensures !ExploresAll(col, v, loc)
  {
    var w :| w in col[e].stores && w.Covers(loc + i) && col[e].range.begin < w.clock <= Window(col[e], loc, |v|).begin;
    EarlyRead(col, v, loc, e, i);
    var wins, r := Windows(col, loc, |v|), ReadPersisted(col, Early(col), v, loc);
    hide *;
    forall points | Within(wins, points)
      ensures ReadPersisted(wins, points, v, loc) != r
    {
      LateAbove(col, v, loc, e, i, w, points);
    }
    RealizableNot(wins, v, loc, r);
    NotAll(col, v, loc, r);
  }

  lemma NotAll(col: seq<Cell>, v: Slots, loc: nat, r: Slots)
    requires Realizable(col, v, loc, r) && !Realizable(Windows(col, loc, |v|), v, loc, r)
    ensures !ExploresAll(col, v, loc)
  {
  }

  lemma RealizableNot(col: seq<Cell>, v: Slots, loc: nat, r: Slots)
    requires forall points :: Within(col, points) ==> ReadPersisted(col, points, v, loc) != r
    ensures !Realizable(col, v, loc, r)
  {
  }

  lemma LateAbove(col: seq<Cell>, v: Slots, loc: nat, e: nat, i: nat, w: Write, points: seq<nat>)
    requires GoodColumn(col) && e < |col| && i < |v| && v[i].None? && Within(Windows(col, loc, |v|), points)
    requires w in col[e].stores && w.Covers(loc + i) && w.clock <= Window(col[e], loc, |v|).begin
    ensures var r := ReadPersisted(Windows(col, loc, |v|), points, v, loc)[i];
            r.Some? && e <= r.value.exec && (r.value.exec == e ==> w.clock <= r.value.store.clock)
  {
    var wins := Windows(col, loc, |v|);
    assert wins[e].range.Contains(points[e]);
    PersistedFrom(col, points, loc + i, e, w);
    ReadPersistedSameStores(col, wins, points, v, loc);
    assert ReadPersisted(col, points, v, loc)[i] == Persisted(col, points, loc + i);
  }

  /**
   What the walk over all prior executions leaves out: nothing, exactly if no open byte of
   the read can come down to an execution in which an initialization store that the read
   touches lies inside the interval, at or above a store of that byte.
   */
  lemma ExploresAllExactly(col: seq<Cell>, v: Slots, loc: nat)
    requires GoodColumn(col)
    ensures ExploresAll(col, v, loc) <==> !MeetsInit(col, v, loc)
  {
    if e: nat, i: nat :| MeetsAt(col, v, loc, e, i) {
      InitLosesRead(col, v, loc, e, i);
    } else {
      forall r | Realizable(col, v, loc, r)
        ensures Realizable(Windows(col, loc, |v|), v, loc, r)
      {
        var points :| Within(col, points) && ReadPersisted(col, points, v, loc) == r;
        LiftedRead(col, v, loc, points);
      }
    }
  }

  /** Only the original contents, stored at number 0, count as initialization. */
  ghost predicate NoLateInit(ws: seq<Write>)
  {
    forall w :: w in ws && w.isInit ==> w.clock == 0
  }

  lemma WindowIsRange(c: Cell, loc: nat, size: nat)
    requires NoLateInit(c.stores)
    ensures Window(c, loc, size) == c.range
  {
  }

  /** Without initialization stores of the program there is nothing to meet. */
  lemma WindowsAreRanges(col: seq<Cell>, v: Slots, loc: nat)
    requires forall e :: 0 <= e < |col| ==> NoLateInit(col[e].stores)
    ensures !MeetsInit(col, v, loc)
  {
    forall e: nat, i: nat
      ensures !MeetsAt(col, v, loc, e, i)
    {
      if e < |col| {
        WindowIsRange(col[e], loc, |v|);
      }
    }
  }
}
