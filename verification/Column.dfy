/**
 One word seen through all the executions that crashed before the current one.

 A column holds, oldest execution first, the stores of that word committed in each
 execution and the interval [lo, hi] of the points at which the cache line of the
 word may last have been written back in that execution (hi = 0: no upper bound).
 */
module Column {
  import opened Wrappers
  import opened Memory

  datatype Range = Range(begin: nat, end: nat)
  {
    ghost predicate Contains(p: nat)
    {
      begin <= p && (end == 0 || p <= end)
    }

    ghost predicate NonEmpty()
    {
      end == 0 || begin <= end
    }
  }

  datatype Cell = Cell(stores: seq<Write>, range: Range)

  /** The execution and the store that supply a byte. */
  datatype Source = Source(exec: nat, store: Write)

  /** One slot per byte of a read. */
  type Slots = seq<Option<Source>>

  /** Original contents come first and only in the oldest execution; number 1 is the first thread start. */
  ghost predicate GoodStores(e: nat, ws: seq<Write>)
  {
    && Sorted(ws)
    && forall i :: 0 <= i < |ws| ==> ws[i].clock >= 2 || (e == 0 && i == 0)
  }

  ghost predicate GoodColumn(col: seq<Cell>)
  {
    forall e :: 0 <= e < |col| ==> GoodStores(e, col[e].stores) && col[e].range.NonEmpty()
  }

  /** One write-back point per execution, each inside its interval. */
  ghost predicate Within(col: seq<Cell>, points: seq<nat>)
  {
    |points| == |col| && forall e :: 0 <= e < |col| ==> col[e].range.Contains(points[e])
  }

  ghost predicate Full(v: Slots)
  {
    forall i :: 0 <= i < |v| ==> v[i].Some?
  }

  // ----- What persistent memory holds once the points are fixed -----

  ghost function FromStore(e: nat, w: Option<Write>): Option<Source>
  {
    if w.Some? then Some(Source(e, w.value)) else None
  }

  /** Newest execution first, the newest store of byte `a` written back in it. */
  ghost function Persisted(col: seq<Cell>, points: seq<nat>, a: nat): (r: Option<Source>)
    requires |points| == |col|
    ensures r.Some? ==> r.value.exec < |col| && r.value.store in col[r.value.exec].stores && r.value.store.Covers(a)
  {
    if col == [] then None
    else
      var e := |col| - 1;
      var here := FromStore(e, LastCovering(col[e].stores, a, points[e]));
      if here.Some? then here else Persisted(col[..e], points[..e], a)
  }

  /** The slots of a read at `loc`, those already filled kept, the others read from persistent memory. */
  ghost function ReadPersisted(col: seq<Cell>, points: seq<nat>, v: Slots, loc: nat): (r: Slots)
    requires |points| == |col|
    ensures |r| == |v|
    ensures forall i :: 0 <= i < |v| ==> r[i] == if v[i].Some? then v[i] else Persisted(col, points, loc + i)
  {
    seq(|v|, i requires 0 <= i < |v| => if v[i].Some? then v[i] else Persisted(col, points, loc + i))
  }

  /** The open slots of `v` filled from the stores of one execution up to point `p`. */
  ghost function FillUpTo(v: Slots, e: nat, ws: seq<Write>, p: nat, loc: nat): (r: Slots)
    ensures |r| == |v|
    ensures forall i :: 0 <= i < |v| ==> r[i] == if v[i].Some? then v[i] else FromStore(e, LastCovering(ws, loc + i, p))
  {
    seq(|v|, i requires 0 <= i < |v| => if v[i].Some? then v[i] else FromStore(e, LastCovering(ws, loc + i, p)))
  }

  /** Reading peels off the newest execution. */
  lemma ReadPersistedPeel(col: seq<Cell>, points: seq<nat>, v: Slots, loc: nat)
    requires |points| == |col| > 0
    ensures var e := |col| - 1;
            ReadPersisted(col, points, v, loc)
            == ReadPersisted(col[..e], points[..e], FillUpTo(v, e, col[e].stores, points[e], loc), loc)
  {
  }

  lemma ReadPersistedFull(col: seq<Cell>, points: seq<nat>, v: Slots, loc: nat)
    requires |points| == |col| && Full(v)
    ensures ReadPersisted(col, points, v, loc) == v
  {
  }

  /** The points a read result leaves possible. */
  ghost predicate Realizable(col: seq<Cell>, v: Slots, loc: nat, result: Slots)
  {
    exists points :: Within(col, points) && ReadPersisted(col, points, v, loc) == result
  }

  /** The byte a filled slot supplies for address `a`. */
  ghost function SlotByte(s: Option<Source>, a: nat): Byte
  {
    if s.Some? && s.value.store.Covers(a) then s.value.store.At(a) else 0
  }

  /** The value a read-from vector stands for. */
  ghost function Bytes(v: Slots, loc: nat): (r: seq<Byte>)
    ensures |r| == |v| && forall i :: 0 <= i < |v| ==> r[i] == SlotByte(v[i], loc + i)
  {
    seq(|v|, i requires 0 <= i < |v| => SlotByte(v[i], loc + i))
  }

  // ----- Narrowing the intervals after a read -----

  /** Position of the first store from `i` on that covers `a`; the length if there is none. */
  ghost function NextCovering(ws: seq<Write>, i: nat, a: nat): (r: nat)
    requires i <= |ws|
    ensures i <= r <= |ws|
    ensures r < |ws| ==> ws[r].Covers(a)
    ensures forall j :: i <= j < r ==> !ws[j].Covers(a)
    decreases |ws| - i
  {
    if i == |ws| || ws[i].Covers(a) then i else NextCovering(ws, i + 1, a)
  }

  /** The line was written back before store `i`, when there is one. */
  ghost function EndBefore(r: Range, ws: seq<Write>, i: nat): Range
    requires i <= |ws| && (i < |ws| ==> ws[i].clock > 0)
  {
    if i < |ws| && (r.end == 0 || ws[i].clock <= r.end) then r.(end := ws[i].clock - 1) else r
  }

  ghost function BeginAt(r: Range, clock: nat): Range
  {
    if r.begin < clock then r.(begin := clock) else r
  }

  /** Byte `a` was read from store number `i` of this execution. */
  ghost function NarrowHit(c: Cell, i: nat, a: nat): Cell
    requires Sorted(c.stores) && i < |c.stores|
  {
    c.(range := EndBefore(BeginAt(c.range, c.stores[i].clock), c.stores, NextCovering(c.stores, i + 1, a)))
  }

  /** Byte `a` was read from an older execution. */
  ghost function NarrowMiss(c: Cell, a: nat): Cell
    requires forall i :: 0 <= i < |c.stores| ==> c.stores[i].clock > 0
  {
    c.(range := EndBefore(c.range, c.stores, NextCovering(c.stores, 0, a)))
  }

  ghost function IndexOf(ws: seq<Write>, w: Write): (i: nat)
    requires w in ws
    ensures i < |ws| && ws[i] == w
  {
    var i :| 0 <= i < |ws| && ws[i] == w; i
  }

  /** The column after byte `a` was read from `s`: newer executions missed, the execution of `s` hit. */
  ghost function NarrowByte(col: seq<Cell>, a: nat, s: Source): (r: seq<Cell>)
    requires GoodLists(col) && InColumn(col, a, s)
    ensures |r| == |col| && SameStores(col, r)
  {
    var e := |col| - 1;
    if e == s.exec then col[..e] + [NarrowHit(col[e], IndexOf(col[e].stores, s.store), a)]
    else NarrowByte(col[..e], a, s) + [NarrowMiss(col[e], a)]
  }

  ghost predicate GoodLists(col: seq<Cell>)
  {
    forall e :: 0 <= e < |col| ==> GoodStores(e, col[e].stores)
  }

  ghost predicate InColumn(col: seq<Cell>, a: nat, s: Source)
  {
    s.exec < |col| && s.store in col[s.exec].stores && s.store.Covers(a)
  }

  ghost predicate SameStores(c0: seq<Cell>, c1: seq<Cell>)
  {
    |c0| == |c1| && forall e :: 0 <= e < |c0| ==> c0[e].stores == c1[e].stores
  }

  lemma NarrowHitExact(e: nat, c: Cell, i: nat, a: nat, p: nat)
    requires GoodStores(e, c.stores) && i < |c.stores| && c.stores[i].Covers(a)
    ensures NarrowHit(c, i, a).range.Contains(p) <==>
            c.range.Contains(p) && LastCovering(c.stores, a, p) == Some(c.stores[i])
  {
    LastCoveringHit(c.stores, i, a, p);
    var n := NextCovering(c.stores, i + 1, a);
    if n < |c.stores| {
      assert c.stores[n].clock >= 2;
      assert forall j :: n < j < |c.stores| ==> c.stores[n].clock < c.stores[j].clock;
    }
  }

  lemma NarrowMissExact(e: nat, c: Cell, a: nat, p: nat)
    requires GoodStores(e, c.stores) && e > 0
    ensures NarrowMiss(c, a).range.Contains(p) <==>
            c.range.Contains(p) && LastCovering(c.stores, a, p).None?
  {
    LastCoveringNone(c.stores, a, p);
    var n := NextCovering(c.stores, 0, a);
    if n < |c.stores| {
      assert c.stores[n] in c.stores;
      assert forall w :: w in c.stores && w.Covers(a) ==> c.stores[n].clock <= w.clock;
    }
  }

  lemma WithinPeel(col: seq<Cell>, points: seq<nat>)
    requires |points| == |col| > 0
    ensures var e := |col| - 1;
            Within(col, points) <==> Within(col[..e], points[..e]) && col[e].range.Contains(points[e])
  {
  }

  lemma WithinSnoc(col: seq<Cell>, c: Cell, points: seq<nat>)
    requires |points| == |col| + 1
    ensures Within(col + [c], points) <==> Within(col, points[..|col|]) && c.range.Contains(points[|col|])
  {
    assert (col + [c])[..|col|] == col;
    WithinPeel(col + [c], points);
  }

  /** Narrowing on one byte keeps exactly the points under which that byte reads from `s`. */
  lemma {:induction false} NarrowByteExact(col: seq<Cell>, a: nat, s: Source, points: seq<nat>)
    requires GoodLists(col) && InColumn(col, a, s) && |points| == |col|
    ensures Within(NarrowByte(col, a, s), points) <==>
            Within(col, points) && Persisted(col, points, a) == Some(s)
    decreases |col|
  {
    var e := |col| - 1;
    WithinPeel(col, points);
    if e == s.exec {
      var i := IndexOf(col[e].stores, s.store);
      WithinSnoc(col[..e], NarrowHit(col[e], i, a), points);
      NarrowHitExact(e, col[e], i, a, points[e]);
    } else {
      WithinSnoc(NarrowByte(col[..e], a, s), NarrowMiss(col[e], a), points);
      NarrowMissExact(e, col[e], a, points[e]);
      NarrowByteExact(col[..e], a, s, points[..e]);
    }
  }

  /** What narrowing on one byte does to each execution. */
  lemma {:induction false} NarrowByteAt(col: seq<Cell>, a: nat, s: Source, e: nat)
    requires GoodLists(col) && InColumn(col, a, s) && e < |col|
    ensures NarrowByte(col, a, s)[e] ==
            if e < s.exec then col[e]
            else if e == s.exec then NarrowHit(col[e], IndexOf(col[e].stores, s.store), a)
            else NarrowMiss(col[e], a)
    decreases |col|
  {
    var n := |col| - 1;
    if n != s.exec && e < n {
      NarrowByteAt(col[..n], a, s, e);
    }
  }

  /** Every slot is filled, by the current execution (number |col|) or by a covering store of a prior one. */
  ghost predicate FromPrior(col: seq<Cell>, loc: nat, result: Slots)
  {
    forall i :: 0 <= i < |result| ==>
                  result[i].Some? && (result[i].value.exec == |col| || InColumn(col, loc + i, result[i].value))
  }

  /** The column after the bytes from `i` on were read as `result` says, highest byte first. */
  ghost function NarrowRead(col: seq<Cell>, loc: nat, result: Slots, i: nat): (r: seq<Cell>)
    requires GoodLists(col) && FromPrior(col, loc, result) && i <= |result|
    ensures |r| == |col| && SameStores(col, r)
    decreases |result| - i
  {
    if i == |result| then col
    else
      var c := NarrowRead(col, loc, result, i + 1);
      if result[i].value.exec == |col| then c else NarrowByte(c, loc + i, result[i].value)
  }

  lemma {:induction false} PersistedSameStores(c0: seq<Cell>, c1: seq<Cell>, points: seq<nat>, a: nat)
    requires SameStores(c0, c1) && |points| == |c0|
    ensures Persisted(c0, points, a) == Persisted(c1, points, a)
    decreases |c0|
  {
    if c0 != [] {
      var e := |c0| - 1;
      PersistedSameStores(c0[..e], c1[..e], points[..e], a);
    }
  }

  /** The bytes from `i` on that came from prior executions are the persisted ones. */
  ghost predicate AgreesFrom(col: seq<Cell>, points: seq<nat>, loc: nat, result: Slots, i: nat)
    requires |points| == |col|
  {
    forall k :: i <= k < |result| && result[k].Some? && result[k].value.exec != |col| ==>
                  Persisted(col, points, loc + k) == result[k]
  }

  lemma {:induction false} AgreesPeel(col: seq<Cell>, points: seq<nat>, loc: nat, result: Slots, i: nat)
    requires |points| == |col| && i < |result| && result[i].Some?
    ensures AgreesFrom(col, points, loc, result, i)
            == (AgreesFrom(col, points, loc, result, i + 1) &&
                (result[i].value.exec != |col| ==> Persisted(col, points, loc + i) == result[i]))
  {
  }

  /** `d` is `col` narrowed on exactly the bytes from `i` on. */
  ghost predicate NarrowedFrom(col: seq<Cell>, d: seq<Cell>, loc: nat, result: Slots, i: nat)
  {
    && SameStores(col, d)
    && forall points :: |points| == |col| ==>
                          Within(d, points) == (Within(col, points) && AgreesFrom(col, points, loc, result, i))
  }

  lemma {:induction false} NarrowReadUnfold(col: seq<Cell>, loc: nat, result: Slots, i: nat)
    requires GoodLists(col) && FromPrior(col, loc, result) && i <= |result|
    ensures i == |result| ==> NarrowedFrom(col, NarrowRead(col, loc, result, i), loc, result, i)
    ensures i < |result| ==>
              var c := NarrowRead(col, loc, result, i + 1);
              && result[i].Some? && (result[i].value.exec == |col| || (GoodLists(c) && InColumn(c, loc + i, result[i].value)))
              && NarrowRead(col, loc, result, i) == if result[i].value.exec == |col| then c else NarrowByte(c, loc + i, result[i].value)
  {
  }

  lemma {:induction false} NarrowReadAgrees(col: seq<Cell>, loc: nat, result: Slots, i: nat)
    requires GoodLists(col) && FromPrior(col, loc, result) && i <= |result|
    ensures NarrowedFrom(col, NarrowRead(col, loc, result, i), loc, result, i)
    decreases |result| - i
  {
    hide *;
    NarrowReadUnfold(col, loc, result, i);
    if i < |result| {
      NarrowReadAgrees(col, loc, result, i + 1);
      NarrowedStep(col, NarrowRead(col, loc, result, i + 1), NarrowRead(col, loc, result, i), loc, result, i);
    }
  }

  lemma {:induction false} NarrowedStep(
      col: seq<Cell>, c: seq<Cell>, d: seq<Cell>, loc: nat, result: Slots, i: nat)
    requires GoodLists(col) && i < |result| && result[i].Some? && NarrowedFrom(col, c, loc, result, i + 1)
    requires result[i].value.exec == |col| || (GoodLists(c) && InColumn(c, loc + i, result[i].value))
    requires d == if result[i].value.exec == |col| then c else NarrowByte(c, loc + i, result[i].value)
    ensures NarrowedFrom(col, d, loc, result, i)
  {
    forall points | |points| == |col|
      ensures Within(d, points) == (Within(col, points) && AgreesFrom(col, points, loc, result, i))
    {
      AgreesPeel(col, points, loc, result, i);
      NarrowStep(col, c, d, loc + i, result[i], points);
    }
  }

  lemma {:induction false} NarrowStep(
      col: seq<Cell>, c: seq<Cell>, d: seq<Cell>, a: nat, slot: Option<Source>, points: seq<nat>)
    requires GoodLists(col) && GoodLists(c) && SameStores(col, c) && |points| == |col| && slot.Some?
    requires slot.value.exec == |col| || InColumn(c, a, slot.value)
    requires d == if slot.value.exec == |col| then c else NarrowByte(c, a, slot.value)
    ensures Within(d, points)
            == (Within(c, points) && (slot.value.exec != |col| ==> Persisted(col, points, a) == slot))
  {
    if slot.value.exec != |col| {
      NarrowByteExact(c, a, slot.value, points);
      PersistedSameStores(col, c, points, a);
    }
  }

  /** The slots the current execution filled before prior executions were consulted. */
  ghost predicate CurrentOnly(n: nat, v: Slots)
  {
    forall i :: 0 <= i < |v| && v[i].Some? ==> v[i].value.exec == n
  }

  /** Whatever a read returns names its stores, provided the oldest execution holds the original contents. */
  lemma RealizableFromPrior(col: seq<Cell>, v: Slots, loc: nat, result: Slots)
    requires CurrentOnly(|col|, v) && Full(result) && Realizable(col, v, loc, result)
    ensures FromPrior(col, loc, result)
  {
    var points :| Within(col, points) && ReadPersisted(col, points, v, loc) == result;
    forall i | 0 <= i < |result|
      ensures result[i].Some? && (result[i].value.exec == |col| || InColumn(col, loc + i, result[i].value))
    {
      assert result[i] == if v[i].Some? then v[i] else Persisted(col, points, loc + i);
    }
  }

  /**
   Interval refinement is exact for one read: after narrowing, the points inside the
   intervals are the points inside the old intervals under which the read returns
   `result`, and there is at least one.
   */
  lemma NarrowReadExact(col: seq<Cell>, v: Slots, loc: nat, result: Slots)
    requires GoodColumn(col) && CurrentOnly(|col|, v) && Full(result) && Realizable(col, v, loc, result)
    ensures FromPrior(col, loc, result)
    ensures GoodColumn(NarrowRead(col, loc, result, 0))
    ensures forall points :: Within(NarrowRead(col, loc, result, 0), points) <==>
                             Within(col, points) && ReadPersisted(col, points, v, loc) == result
  {
    RealizableFromPrior(col, v, loc, result);
    var r := NarrowRead(col, loc, result, 0);
    NarrowReadAgrees(col, loc, result, 0);
    forall points
      ensures Within(r, points) <==> Within(col, points) && ReadPersisted(col, points, v, loc) == result
    {
      if |points| == |col| {
        AgreesIsRead(col, points, v, loc, result);
      }
    }
    var points :| Within(col, points) && ReadPersisted(col, points, v, loc) == result;
    assert Within(r, points);
    assert forall e :: 0 <= e < |col| ==> r[e].range.Contains(points[e]);
  }

  lemma AgreesIsRead(col: seq<Cell>, points: seq<nat>, v: Slots, loc: nat, result: Slots)
    requires |points| == |col| && CurrentOnly(|col|, v) && Full(result) && Realizable(col, v, loc, result)
    ensures AgreesFrom(col, points, loc, result, 0) <==> ReadPersisted(col, points, v, loc) == result
  {
    var q :| Within(col, q) && ReadPersisted(col, q, v, loc) == result;
    var now := ReadPersisted(col, points, v, loc);
    assert forall i :: 0 <= i < |v| && v[i].None? ==> result[i] == Persisted(col, q, loc + i);
    if AgreesFrom(col, points, loc, result, 0) {
      assert forall i :: 0 <= i < |v| ==> now[i] == result[i];
    }
  }
}
