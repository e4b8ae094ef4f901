/**
 Reading after a crash: collecting the possible read-from vectors over the chain of
 crashed executions, and narrowing their cache lines once one vector is chosen.
 */
module PostCrashRead {
  import opened Wrappers
  import opened Memory
  import opened Column
  import opened Enumeration
  import opened Engine
  import opened Execution

  /** The cell of one execution that a read of `loc` looks at. */
  ghost function CellOf(x: Exec, loc: nat): Cell
  {
    Cell(x.StoresOf(AlignAddress(loc)), x.RangeOf(CacheId(loc)))
  }

  /** Only the interval of one line changed. */
  ghost predicate OnlyRange(before: Exec, after: Exec, line: nat)
  {
    && after.stores == before.stores
    && forall l: nat :: l != line ==> after.RangeOf(l) == before.RangeOf(l)
  }

  ghost predicate Positive(ws: seq<Write>)
  {
    forall i :: 0 <= i < |ws| ==> ws[i].clock > 0
  }

  // ----- Narrowing one execution -----

  /** The scan of a list, from position `start` on, for a store that covers `a`. */
  method FindCovering(writes: seq<Write>, start: nat, a: nat) returns (next: nat)
    requires start <= |writes|
    ensures next == NextCovering(writes, start, a)
  {
    next := start;
    while next < |writes| && !(writes[next].loc <= a < writes[next].loc + |writes[next].bytes|)
      invariant start <= next <= |writes|
      invariant NextCovering(writes, start, a) == NextCovering(writes, next, a)
    {
      next := next + 1;
    }
  }

  lemma NodeUnique(ws: seq<Write>, w: Write, i: nat)
    requires Sorted(ws) && i < |ws| && ws[i] == w
    ensures w in ws && IndexOf(ws, w) == i
  {
  }

  /** The line was written back before the next store, from position `start` on, that covers `a`. */
  method CloseRange(pexec: ModelExecution, currend: nat, line: nat, writes: seq<Write>, start: nat, a: nat)
    requires line in pexec.objToCacheline && currend == pexec.Model().RangeOf(line).end
    requires start <= |writes| && forall i :: start <= i < |writes| ==> writes[i].clock > 0
    modifies pexec`objToCacheline
    ensures OnlyRange(old(pexec.Model()), pexec.Model(), line)
    ensures pexec.Model().RangeOf(line) == EndBefore(old(pexec.Model()).RangeOf(line), writes, NextCovering(writes, start, a))
  {
    var next := FindCovering(writes, start, a);
    if next < |writes| {
      var nextclock := writes[next].clock;
      if currend == 0 || nextclock <= currend {
        pexec.SetEndRange(line, nextclock - 1);
      }
    }
  }

  ghost predicate CanNarrow(c: Cell, e: nat, s: Source)
  {
    && (e == s.exec ==> Sorted(c.stores) && s.store in c.stores)
    && (e > s.exec ==> Positive(c.stores))
  }

  /** What reading byte `a` from `s` does to execution number `e`, as `NarrowByteAt` says. */
  ghost function NarrowAt(c: Cell, e: nat, a: nat, s: Source): Cell
    requires CanNarrow(c, e, s)
  {
    if e < s.exec then c
    else if e == s.exec then NarrowHit(c, IndexOf(c.stores, s.store), a)
    else NarrowMiss(c, a)
  }

  /** Byte `a` of the read at `loc` came from an older execution than `pexec`. */
  method ReadElsewhere(pexec: ModelExecution, loc: nat, a: nat)
    requires Positive(pexec.Model().StoresOf(AlignAddress(loc)))
    modifies pexec`objToCacheline
    ensures OnlyRange(old(pexec.Model()), pexec.Model(), CacheId(loc))
    ensures CellOf(pexec.Model(), loc) == NarrowMiss(CellOf(old(pexec.Model()), loc), a)
  {
    var word := AlignAddress(loc);
    if word !in pexec.objWrMap {
      return;
    }
    var writes := pexec.objWrMap[word];
    var cl := pexec.GetCacheLine(loc);
    CloseRange(pexec, cl.end, CacheId(loc), writes, 0, a);
  }

  /** Byte `a` of the read at `loc` came from the store `rf` of `pexec`. */
  method ReadHere(pexec: ModelExecution, loc: nat, a: nat, rf: Write)
    requires Sorted(pexec.Model().StoresOf(AlignAddress(loc))) && rf in pexec.Model().StoresOf(AlignAddress(loc))
    modifies pexec`objToCacheline
    ensures OnlyRange(old(pexec.Model()), pexec.Model(), CacheId(loc))
    ensures var cell := CellOf(old(pexec.Model()), loc);
            CellOf(pexec.Model(), loc) == NarrowHit(cell, IndexOf(cell.stores, rf), a)
  {
    var writes := pexec.objWrMap[AlignAddress(loc)];
    var cl := pexec.GetCacheLine(loc);
    if cl.begin < rf.clock {
      pexec.SetBeginRange(CacheId(loc), rf.clock);
    }
    var node :| 0 <= node < |writes| && writes[node] == rf;
    NodeUnique(writes, rf, node);
    CloseRange(pexec, cl.end, CacheId(loc), writes, node + 1, a);
  }

  /** `y` is execution number `e` after byte `a` was read from `s`, when it was `x` before. */
  ghost predicate Narrowed(x: Exec, y: Exec, e: nat, loc: nat, a: nat, s: Source)
  {
    && OnlyRange(x, y, CacheId(loc)) && CanNarrow(CellOf(x, loc), e, s)
    && CellOf(y, loc) == NarrowAt(CellOf(x, loc), e, a, s)
  }

  method NarrowOne(pexec: ModelExecution, e: nat, loc: nat, a: nat, s: Source)
    requires s.exec <= e && CanNarrow(CellOf(pexec.Model(), loc), e, s)
    modifies pexec`objToCacheline
    ensures Narrowed(old(pexec.Model()), pexec.Model(), e, loc, a, s)
  {
    if e == s.exec {
      ReadHere(pexec, loc, a, s.store);
    } else {
      ReadElsewhere(pexec, loc, a);
    }
  }

  // ----- The chain of crashed executions, oldest first -----

  ghost predicate Distinct(es: seq<ModelExecution>)
  {
    forall e, f :: 0 <= e < f < |es| ==> es[e] != es[f]
  }

  /** The values the objects stand for. */
  ghost function Models(es: seq<ModelExecution>): (r: seq<Exec>)
    reads es
    ensures |r| == |es| && forall e :: 0 <= e < |es| ==> r[e] == es[e].Model()
  {
    if es == [] then [] else Models(es[..|es| - 1]) + [es[|es| - 1].Model()]
  }

  lemma OneChanged(es: seq<ModelExecution>, e: nat, xs: seq<Exec>)
    requires |xs| == |es| && e < |es| && forall f :: 0 <= f < |es| && f != e ==> es[f].Model() == xs[f]
    ensures Models(es) == xs[e := es[e].Model()]
  {
  }

  ghost predicate OnlyRanges(before: seq<Exec>, after: seq<Exec>, line: nat)
  {
    |before| == |after| && forall e :: 0 <= e < |before| ==> OnlyRange(before[e], after[e], line)
  }

  /** The walk has come down to execution `e`: from there on narrowed, below as before. */
  ghost predicate Walked(before: seq<Exec>, xs: seq<Exec>, e: nat, loc: nat, a: nat, s: Source)
  {
    && |xs| == |before|
    && CanRead(before, loc, a, s)
    && (forall f :: 0 <= f < e && f < |xs| ==> xs[f] == before[f])
    && (forall f :: e <= f < |xs| ==> Narrowed(before[f], xs[f], f, loc, a, s))
  }

  lemma WalkStart(before: seq<Exec>, e: nat, loc: nat, a: nat, s: Source)
    requires CanRead(before, loc, a, s) && e == |before|
    ensures Walked(before, before, e, loc, a, s) && s.exec < e
  {
  }

  lemma WalkNext(before: seq<Exec>, xs: seq<Exec>, e: nat, loc: nat, a: nat, s: Source)
    requires Walked(before, xs, e, loc, a, s) && s.exec < e <= |xs|
    ensures |before| == |xs| && xs[e - 1] == before[e - 1] && CanNarrow(CellOf(xs[e - 1], loc), e - 1, s)
  {
    assert ColumnOf(before, loc)[e - 1] == CellOf(before[e - 1], loc);
  }

  lemma WalkStep(before: seq<Exec>, xs: seq<Exec>, e: nat, loc: nat, a: nat, s: Source, x: Exec)
    requires Walked(before, xs, e, loc, a, s) && 0 < e <= |xs| && Narrowed(xs[e - 1], x, e - 1, loc, a, s)
    ensures Walked(before, xs[e - 1 := x], e - 1, loc, a, s)
  {
  }

  ghost predicate CanRead(xs: seq<Exec>, loc: nat, a: nat, s: Source)
  {
    GoodLists(ColumnOf(xs, loc)) && InColumn(ColumnOf(xs, loc), a, s)
  }

  /** `ys` is `xs` narrowed on byte `a` having been read from `s`. */
  ghost predicate ByteNarrowed(xs: seq<Exec>, ys: seq<Exec>, loc: nat, a: nat, s: Source)
  {
    && CanRead(xs, loc, a, s)
    && OnlyRanges(xs, ys, CacheId(loc)) && ColumnOf(ys, loc) == NarrowByte(ColumnOf(xs, loc), a, s)
  }

  /** One step of the walk. */
  method WalkExecution(es: seq<ModelExecution>, e: nat, loc: nat, a: nat, s: Source, ghost before: seq<Exec>)
    requires Distinct(es) && s.exec < e <= |es| && Walked(before, Models(es), e, loc, a, s)
    modifies {es[e - 1]}`objToCacheline
    ensures Walked(before, Models(es), e - 1, loc, a, s)
  {
    assert forall f :: 0 <= f < |es| && f != e - 1 ==> es[f] != es[e - 1];
    hide *;
    ghost var xs := Models(es);
    WalkNext(before, xs, e, loc, a, s);
    NarrowOne(es[e - 1], e - 1, loc, a, s);
    OneChanged(es, e - 1, xs);
    WalkStep(before, xs, e, loc, a, s, es[e - 1].Model());
  }

  /** Walks the executions, newest first, down to the one byte `a` was read from. */
  method NarrowForByte(es: seq<ModelExecution>, loc: nat, a: nat, s: Source)
    requires Distinct(es) && CanRead(Models(es), loc, a, s)
    modifies (set e | e in es)`objToCacheline
    ensures ByteNarrowed(old(Models(es)), Models(es), loc, a, s)
  {
    hide *;
    ghost var before := Models(es);
    var e := |es|;
    WalkStart(before, e, loc, a, s);
    while e > s.exec
      invariant s.exec <= e <= |es|
      invariant Walked(before, Models(es), e, loc, a, s)
    {
      WalkExecution(es, e, loc, a, s, before);
      e := e - 1;
    }
    WalkedAll(before, Models(es), e, loc, a, s);
  }

  lemma WalkedAll(before: seq<Exec>, xs: seq<Exec>, e: nat, loc: nat, a: nat, s: Source)
    requires Walked(before, xs, e, loc, a, s) && e == s.exec
    ensures ByteNarrowed(before, xs, loc, a, s)
  {
    var col := ColumnOf(before, loc);
    forall f | 0 <= f < |col|
      ensures ColumnOf(xs, loc)[f] == NarrowByte(col, a, s)[f]
    {
      NarrowByteAt(col, a, s, f);
    }
  }

  // ----- One load -----

  /** The bytes from `i` on are assembled, and the lines narrowed by them. */
  ghost predicate Processed(before: seq<Exec>, xs: seq<Exec>, loc: nat, rfarray: Slots, i: nat, value: seq<Byte>)
  {
    && i <= |rfarray| && |value| == |rfarray| - i && value == Bytes(rfarray, loc)[i..]
    && GoodLists(ColumnOf(before, loc)) && FromPrior(ColumnOf(before, loc), loc, rfarray)
    && OnlyRanges(before, xs, CacheId(loc))
    && ColumnOf(xs, loc) == NarrowRead(ColumnOf(before, loc), loc, rfarray, i)
  }

  lemma ProcessStart(before: seq<Exec>, loc: nat, rfarray: Slots, i: nat)
    requires GoodLists(ColumnOf(before, loc)) && FromPrior(ColumnOf(before, loc), loc, rfarray) && i == |rfarray|
    ensures Processed(before, before, loc, rfarray, i, [])
  {
  }

  lemma ProcessNext(before: seq<Exec>, xs: seq<Exec>, loc: nat, rfarray: Slots, i: nat, value: seq<Byte>)
    requires Processed(before, xs, loc, rfarray, i, value) && i > 0
    ensures rfarray[i - 1].Some? && |xs| == |before|
    ensures rfarray[i - 1].value.exec != |xs| ==> CanRead(xs, loc, loc + i - 1, rfarray[i - 1].value)
  {
  }

  lemma ProcessStep(before: seq<Exec>, xs: seq<Exec>, ys: seq<Exec>, loc: nat, rfarray: Slots, i: nat, value: seq<Byte>)
    requires Processed(before, xs, loc, rfarray, i, value) && i > 0 && |xs| == |before|
    requires rfarray[i - 1].Some? && rfarray[i - 1].value.store.Covers(loc + i - 1)
    requires if rfarray[i - 1].value.exec == |xs| then ys == xs
             else ByteNarrowed(xs, ys, loc, loc + i - 1, rfarray[i - 1].value)
    ensures Processed(before, ys, loc, rfarray, i - 1, [rfarray[i - 1].value.store.At(loc + i - 1)] + value)
  {
    hide GoodLists, OnlyRanges, NarrowByte, InColumn;
    OnlyRangesTwice(before, xs, ys, CacheId(loc));
    NarrowReadBefore(ColumnOf(before, loc), ColumnOf(xs, loc), ColumnOf(ys, loc), loc, rfarray, i);
    assert Bytes(rfarray, loc)[i - 1..] == [Bytes(rfarray, loc)[i - 1]] + Bytes(rfarray, loc)[i..];
  }

  lemma NarrowReadBefore(col: seq<Cell>, c: seq<Cell>, d: seq<Cell>, loc: nat, rfarray: Slots, i: nat)
    requires GoodLists(col) && FromPrior(col, loc, rfarray) && 0 < i <= |rfarray|
    requires c == NarrowRead(col, loc, rfarray, i)
    requires var s := rfarray[i - 1].value;
             d == if s.exec == |col| then c else NarrowByte(c, loc + i - 1, s)
    ensures d == NarrowRead(col, loc, rfarray, i - 1)
  {
  }

  /**
   Takes the chosen vector: assembles the value, highest byte first, and narrows the
   lines of the executions the bytes came from. Slots of the running execution carry
   number |es|.
   */
  method ProcessRead(es: seq<ModelExecution>, loc: nat, rfarray: Slots) returns (value: seq<Byte>)
    requires Distinct(es) && GoodLists(ColumnOf(Models(es), loc)) && FromPrior(ColumnOf(Models(es), loc), loc, rfarray)
    requires SlotsCover(rfarray, loc)
    modifies (set e | e in es)`objToCacheline
    ensures Processed(old(Models(es)), Models(es), loc, rfarray, 0, value)
  {
    hide *;
    ghost var before := Models(es);
    value := [];
    var i := |rfarray|;
    ProcessStart(before, loc, rfarray, i);
    while i > 0
      invariant 0 <= i <= |rfarray| && Processed(before, Models(es), loc, rfarray, i, value)
    {
      ghost var xs := Models(es);
      CoverAt(rfarray, loc, i - 1);
      ProcessNext(before, xs, loc, rfarray, i, value);
      var rf := rfarray[i - 1].value;
      if rf.exec != |es| {
        NarrowForByte(es, loc, loc + i - 1, rf);
      }
      ProcessStep(before, xs, Models(es), loc, rfarray, i, value);
      value := [rf.store.At(loc + i - 1)] + value;
      i := i - 1;
    }
  }

  ghost predicate SlotsCover(rfarray: Slots, loc: nat)
  {
    forall i :: 0 <= i < |rfarray| ==> rfarray[i].Some? && rfarray[i].value.store.Covers(loc + i)
  }

  lemma CoverAt(rfarray: Slots, loc: nat, i: nat)
    requires SlotsCover(rfarray, loc) && i < |rfarray|
    ensures rfarray[i].Some? && rfarray[i].value.store.Covers(loc + i)
  {
  }

  lemma OnlyRangesTwice(xs: seq<Exec>, ys: seq<Exec>, zs: seq<Exec>, line: nat)
    requires OnlyRanges(xs, ys, line) && (ys == zs || OnlyRanges(ys, zs, line))
    ensures OnlyRanges(xs, zs, line)
  {
  }

  /** The slots filled without looking at crashed executions. */
  method FillFromCurrent(n: nat, cur: ModelExecution, buffer: seq<Write>, loc: nat, size: nat, ghost past: seq<Exec>)
    returns (v: Slots, done: bool)
    requires size > 0 && AllUpTo(buffer, 0) && n == |past|
    requires AllUpTo(cur.Model().StoresOf(AlignAddress(loc)), cur.usedSequenceNumbers)
    ensures v == FromCurrent(State(past, cur.Model(), cur.usedSequenceNumbers), loc, size, buffer)
    ensures done <==> Full(v)
  {
    var open: Slots := seq(size, i requires 0 <= i < size => None);
    AllOpen(open);
    var left;
    v, left, done := FillNewestFirst(n, buffer, open, size, loc, 0);
    var word := AlignAddress(loc);
    if !done && word in cur.objWrMap {
      v, left, done := FillNewestFirst(n, cur.objWrMap[word], v, left, loc, cur.usedSequenceNumbers);
    } else {
      CurrentAdds(State(past, cur.Model(), cur.usedSequenceNumbers), open, loc, buffer, v);
    }
  }

  /** All the vectors a load may read from: the store buffer first, the running execution, then the crashed ones. */
  method BuildMayReadFrom(es: seq<ModelExecution>, cur: ModelExecution, buffer: seq<Write>, loc: nat, size: nat)
    returns (rfSet: seq<Slots>)
    requires size > 0 && AllUpTo(buffer, 0)
    requires AllUpTo(cur.Model().StoresOf(AlignAddress(loc)), cur.usedSequenceNumbers)
    requires GoodLists(ColumnOf(Models(es), loc)) && OpenWindows(ColumnOf(Models(es), loc), loc, size)
    ensures var v := FromCurrent(State(Models(es), cur.Model(), cur.usedSequenceNumbers), loc, size, buffer);
            forall r :: r in rfSet <==> Realizable(Windows(ColumnOf(Models(es), loc), loc, size), v, loc, r)
  {
    hide *;
    ghost var col := ColumnOf(Models(es), loc);
    var v, done := FillFromCurrent(|es|, cur, buffer, loc, size, Models(es));
    StartReached(col, v, loc, size);
    rfSet := [v];
    var e := |es|;
    if !done {
      while e > 0
        invariant 0 <= e <= |es|
        invariant forall r :: r in rfSet <==> Reached(col, v, loc, e, r)
      {
        e := e - 1;
        var isDone;
        LookReady(Models(es), loc, size, e);
        isDone, rfSet := LookInExecution(es[e], e, loc, size, rfSet, col, v);
        if isDone {
          break;
        }
      }
    }
    ReachedLast(col, v, loc, e, rfSet);
  }

  ghost predicate OpenWindows(col: seq<Cell>, loc: nat, size: nat)
  {
    forall e :: 0 <= e < |col| ==> Window(col[e], loc, size).NonEmpty()
  }

  ghost predicate CanLook(c: Cell, loc: nat, size: nat)
  {
    Sorted(c.stores) && Window(c, loc, size).NonEmpty()
  }

  lemma LookReady(xs: seq<Exec>, loc: nat, size: nat, e: nat)
    requires GoodLists(ColumnOf(xs, loc)) && OpenWindows(ColumnOf(xs, loc), loc, size) && e < |xs|
    ensures ColumnOf(xs, loc)[e] == CellOf(xs[e], loc) && CanLook(ColumnOf(xs, loc)[e], loc, size)
  {
  }

  lemma StartReached(col: seq<Cell>, v: Slots, loc: nat, size: nat)
    requires OpenWindows(col, loc, size) && |v| == size
    ensures forall r :: r in [v] <==> Reached(col, v, loc, |col|, r)
  {
    ReachedFirst(col, v, loc);
  }

  /** The part of the loop above that concerns one crashed execution. */
  method LookInExecution(prior: ModelExecution, e: nat, loc: nat, size: nat, seeds: seq<Slots>, ghost col: seq<Cell>, ghost v: Slots)
    returns (isDone: bool, rfSet: seq<Slots>)
    requires |v| == size && e < |col| && col[e] == CellOf(prior.Model(), loc) && CanLook(col[e], loc, size)
    requires forall r :: r in seeds <==> Reached(col, v, loc, e + 1, r)
    ensures forall r :: r in rfSet <==> Reached(col, v, loc, e, r)
    ensures isDone ==> forall r :: r in rfSet ==> Full(r)
  {
    var word := AlignAddress(loc);
    if word in prior.objWrMap {
      SizesOf(col, v, loc, e + 1, seeds);
      var range := if CacheId(loc) in prior.objToCacheline then prior.objToCacheline[CacheId(loc)] else Range(0, 0);
      assert col[e] == Cell(prior.objWrMap[word], range);
      isDone, rfSet := LookForWritesInPriorExecution(e, prior.objWrMap[word], range, loc, size, seeds);
      ReachedStep(col, v, loc, e, seeds, rfSet);
    } else {
      ReachedSkip(col, v, loc, e, seeds);
      isDone, rfSet := false, seeds;
    }
  }

  lemma {:induction false} AllOpen(v: Slots)
    requires v != [] && forall i :: 0 <= i < |v| ==> v[i].None?
    ensures OpenSlots(v) == |v|
  {
    if |v| > 1 {
      AllOpen(v[..|v| - 1]);
    } else {
      assert OpenSlots(v[..0]) == 0;
    }
  }

  /** With no list, or nothing left open, the running execution adds nothing. */
  lemma CurrentAdds(s: State, open: Slots, loc: nat, buffer: seq<Write>, v: Slots)
    requires forall i :: 0 <= i < |open| ==> open[i].None?
    requires v == FillUpTo(open, |s.past|, buffer, 0, loc)
    requires Full(v) || s.cur.StoresOf(AlignAddress(loc)) == []
    ensures v == FromCurrent(s, loc, |open|, buffer)
  {
    assert open == seq(|open|, i requires 0 <= i < |open| => None);
    var w := FillUpTo(v, |s.past|, s.cur.StoresOf(AlignAddress(loc)), s.clock, loc);
    assert forall i :: 0 <= i < |v| ==> w[i] == v[i];
  }

  lemma SizesOf(col: seq<Cell>, v: Slots, loc: nat, k: nat, vectors: seq<Slots>)
    requires k <= |col| && forall r :: r in vectors <==> Reached(col, v, loc, k, r)
    ensures SeedSize(vectors, |v|)
  {
  }

  /** An execution that never stored to the word is passed over. */
  lemma ReachedSkip(col: seq<Cell>, v: Slots, loc: nat, k: nat, vectors: seq<Slots>)
    requires k < |col| && col[k].stores == [] && forall r :: r in vectors <==> Reached(col, v, loc, k + 1, r)
    ensures forall r :: r in vectors <==> Reached(col, v, loc, k, r)
  {
    forall points | |points| == |col|
      ensures ReadDown(col, points, v, loc, k) == ReadDown(col, points, v, loc, k + 1)
    {
      FillNothing(ReadDown(col, points, v, loc, k + 1), k, [], points[k], loc);
    }
  }
}
