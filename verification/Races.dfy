/**
 Data races between the accesses to one byte, found by vector clocks. The detector
 remembers the last write and only those plain reads since then that no later one subsumes.
 */
module Races {
  import opened Wrappers

  /** The clocks of the threads as one thread knows them. */
  type Clocks = seq<nat>

  function GetClock(cv: Clocks, thread: nat): nat
  {
    if thread < |cv| then cv[thread] else 0
  }

  /** clock_may_race: the event of thread `tid2` at `clock2` is not known to come before. */
  predicate MayRace(clock1: Clocks, tid1: nat, clock2: nat, tid2: nat)
  {
    tid1 != tid2 && clock2 != 0 && GetClock(clock1, tid2) <= clock2
  }

  // ----- What is remembered of one byte -----

  datatype Read = Read(thread: nat, clock: nat)

  datatype Summary = Summary(writeThread: nat, writeClock: nat, isAtomic: bool, readers: seq<Read>)

  const UNTOUCHED := Summary(0, 0, false, [])

  /** The reads that a read by `thread` does not subsume. */
  function Unsubsumed(readers: seq<Read>, cv: Clocks, thread: nat): (r: seq<Read>)
    ensures |r| <= |readers|
  {
    if readers == [] then []
    else
      var n := |readers| - 1;
      Unsubsumed(readers[..n], cv, thread) + if MayRace(cv, thread, readers[n].clock, readers[n].thread) then [readers[n]] else []
  }

  /** A read by a thread whose own clock is zero can race with nothing and is not remembered. */
  function AfterRead(s: Summary, cv: Clocks, thread: nat): Summary
  {
    var own := GetClock(cv, thread);
    s.(readers := Unsubsumed(s.readers, cv, thread) + if own == 0 then [] else [Read(thread, own)])
  }

  function AfterWrite(cv: Clocks, thread: nat, isAtomic: bool): Summary
  {
    Summary(thread, GetClock(cv, thread), isAtomic, [])
  }

  predicate RacesWithWrite(s: Summary, cv: Clocks, thread: nat)
  {
    MayRace(cv, thread, s.writeClock, s.writeThread)
  }

  predicate RacesWithRead(s: Summary, cv: Clocks, thread: nat)
  {
    exists i :: 0 <= i < |s.readers| && MayRace(cv, thread, s.readers[i].clock, s.readers[i].thread)
  }

  // ----- Histories of accesses -----

  datatype Access = Access(thread: nat, cv: Clocks, isWrite: bool, isAtomic: bool)
  {
    function Clock(): nat
    {
      GetClock(cv, thread)
    }

    /** What the detector says about this access; an atomic one is not compared after an atomic write. */
    predicate Reports(s: Summary)
    {
      && !(isAtomic && s.isAtomic)
      && (RacesWithWrite(s, cv, thread) || (isWrite && RacesWithRead(s, cv, thread)))
    }

    /** An atomic read leaves no trace. */
    function After(s: Summary): Summary
    {
      if isWrite then AfterWrite(cv, thread, isAtomic) else if isAtomic then s else AfterRead(s, cv, thread)
    }
  }

  ghost function SummaryOf(h: seq<Access>): Summary
  {
    if h == [] then UNTOUCHED else h[|h| - 1].After(SummaryOf(h[..|h| - 1]))
  }

  /** `a` comes before `b`, as far as the clocks of `b` tell. */
  ghost predicate Ordered(a: Access, b: Access)
  {
    a.thread == b.thread || GetClock(b.cv, a.thread) > a.Clock()
  }

  ghost predicate Knows(a: Access, b: Access)
  {
    forall t: nat :: GetClock(a.cv, t) <= GetClock(b.cv, t)
  }

  /** Clocks are positive, and whoever is ordered after an access knows what it knew. */
  ghost predicate Causal(h: seq<Access>)
  {
    && (forall i: nat :: i < |h| ==> h[i].Clock() > 0)
    && forall i: nat, j: nat :: i < j < |h| && Ordered(h[i], h[j]) ==> Knows(h[i], h[j])
  }

  /** Two accesses, not both atomic, that conflict and are not ordered. */
  ghost predicate Race(h: seq<Access>, i: nat, j: nat)
  {
    i < j < |h| && (h[i].isWrite || h[j].isWrite) && !(h[i].isAtomic && h[j].isAtomic) && !Ordered(h[i], h[j])
  }

  lemma OrderedTransitive(h: seq<Access>, i: nat, k: nat, j: nat)
    requires Causal(h) && i <= k < j < |h| && (i == k || Ordered(h[i], h[k])) && Ordered(h[k], h[j])
    ensures Ordered(h[i], h[j])
  {
    if i < k {
      assert Knows(h[i], h[k]) && Knows(h[k], h[j]);
      assert GetClock(h[i].cv, h[i].thread) <= GetClock(h[k].cv, h[i].thread) <= GetClock(h[j].cv, h[i].thread);
    }
  }

  // ----- The indices of what is remembered -----

  /** The last write of a history. */
  ghost function LastWrite(h: seq<Access>): (w: Option<nat>)
    ensures w.Some? ==> w.value < |h| && h[w.value].isWrite
    ensures forall i: nat :: i < |h| && h[i].isWrite ==> w.Some? && i <= w.value
  {
    if h == [] then None
    else if h[|h| - 1].isWrite then Some(|h| - 1)
    else LastWrite(h[..|h| - 1])
  }

  ghost predicate Within(kept: seq<nat>, n: nat)
  {
    forall i :: 0 <= i < |kept| ==> kept[i] < n
  }

  ghost function Keep(h: seq<Access>, kept: seq<nat>, a: Access): (r: seq<nat>)
    requires Within(kept, |h|)
    ensures Within(r, |h|)
    ensures forall k: nat :: k in r <==> k in kept && k < |h| && !Ordered(h[k], a)
  {
    if kept == [] then []
    else
      var n := |kept| - 1;
      Keep(h, kept[..n], a) + if Ordered(h[kept[n]], a) then [] else [kept[n]]
  }

  /** The plain reads since the last write that are still remembered. */
  ghost function Kept(h: seq<Access>): (r: seq<nat>)
    ensures Within(r, |h|)
    ensures forall k: nat :: k in r ==> PlainRead(h, k)
  {
    if h == [] || h[|h| - 1].isWrite then []
    else
      var n := |h| - 1;
      if h[n].isAtomic then Kept(h[..n]) else Keep(h[..n], Kept(h[..n]), h[n]) + [n]
  }

  ghost predicate PlainRead(h: seq<Access>, k: nat)
  {
    k < |h| && !h[k].isWrite && !h[k].isAtomic
  }

  ghost function ReadAt(a: Access): Read
  {
    Read(a.thread, a.Clock())
  }

  ghost function ReadsAt(h: seq<Access>, kept: seq<nat>): (r: seq<Read>)
    requires Within(kept, |h|)
    ensures |r| == |kept| && forall i :: 0 <= i < |kept| ==> r[i] == ReadAt(h[kept[i]])
  {
    seq(|kept|, i requires 0 <= i < |kept| => ReadAt(h[kept[i]]))
  }

  lemma ReadsAtSnoc(h: seq<Access>, kept: seq<nat>, k: nat)
    requires Within(kept, |h|) && k < |h|
    ensures Within(kept + [k], |h|) && ReadsAt(h, kept + [k]) == ReadsAt(h, kept) + [ReadAt(h[k])]
  {
    hide ReadAt;
  }

  lemma ReadsAtPrefix(h: seq<Access>, n: nat, kept: seq<nat>)
    requires n <= |h| && Within(kept, n)
    ensures ReadsAt(h, kept) == ReadsAt(h[..n], kept)
  {
    hide ReadAt;
  }

  lemma UnsubsumedSnoc(readers: seq<Read>, r: Read, cv: Clocks, thread: nat)
    ensures Unsubsumed(readers + [r], cv, thread) ==
            Unsubsumed(readers, cv, thread) + if MayRace(cv, thread, r.clock, r.thread) then [r] else []
  {
    assert (readers + [r])[..|readers|] == readers;
  }

  lemma {:induction false} KeepIsUnsubsumed(h: seq<Access>, kept: seq<nat>, a: Access)
    requires Within(kept, |h|) && forall i: nat :: i < |h| ==> h[i].Clock() > 0
    ensures Unsubsumed(ReadsAt(h, kept), a.cv, a.thread) == ReadsAt(h, Keep(h, kept, a))
  {
    hide MayRace, Ordered, Access.Clock, ReadAt;
    if kept != [] {
      var n := |kept| - 1;
      var k := kept[n];
      KeepIsUnsubsumed(h, kept[..n], a);
      ReadsAtSnoc(h, kept[..n], k);
      assert kept[..n] + [k] == kept;
      UnsubsumedSnoc(ReadsAt(h, kept[..n]), ReadAt(h[k]), a.cv, a.thread);
      ReadAtIs(h[k], a);
      ReadsAtSnoc(h, Keep(h, kept[..n], a), k);
    }
  }

  lemma ReadAtIs(a: Access, b: Access)
    requires a.Clock() > 0
    ensures MayRace(b.cv, b.thread, ReadAt(a).clock, ReadAt(a).thread) <==> !Ordered(a, b)
  {
  }

  lemma {:induction false} ReadersAre(h: seq<Access>)
    requires forall i: nat :: i < |h| ==> h[i].Clock() > 0
    ensures SummaryOf(h).readers == ReadsAt(h, Kept(h))
  {
    if h != [] {
      var n := |h| - 1;
      ReadersAre(h[..n]);
      if !h[n].isWrite {
        hide MayRace, Ordered, Kept;
        KeptRead(h);
        assert h[n].Clock() > 0;
        var kept := Kept(h[..n]);
        if h[n].isAtomic {
          ReadsAtPrefix(h, n, kept);
        } else {
          KeepIsUnsubsumed(h[..n], kept, h[n]);
          ReadsAtPrefix(h, n, Keep(h[..n], kept, h[n]));
          ReadsAtSnoc(h, Keep(h[..n], kept, h[n]), n);
        }
      }
    }
  }

  lemma KeptRead(h: seq<Access>)
    requires h != [] && !h[|h| - 1].isWrite
    ensures var n := |h| - 1;
            Kept(h) == if h[n].isAtomic then Kept(h[..n]) else Keep(h[..n], Kept(h[..n]), h[n]) + [n]
  {
  }

  lemma {:induction false} WriterIs(h: seq<Access>)
    ensures var s := SummaryOf(h);
            match LastWrite(h)
            case Some(w) => s.writeThread == h[w].thread && s.writeClock == h[w].Clock() && s.isAtomic == h[w].isAtomic
            case None => s.writeClock == 0 && !s.isAtomic
  {
    if h != [] {
      WriterIs(h[..|h| - 1]);
    }
  }

  /** A plain read since the last write is kept, or some kept read comes after it. */
  lemma {:induction false} KeptCovers(h: seq<Access>, i: nat) returns (k: nat)
    requires Causal(h) && ReadSinceWrite(h, i)
    ensures k in Kept(h) && i <= k && (i == k || Ordered(h[i], h[k]))
  {
    var n := |h| - 1;
    KeptRead(h);
    if i == n {
      k := n;
    } else {
      assert Causal(h[..n]);
      k := KeptCovers(h[..n], i);
      if !h[n].isAtomic && Ordered(h[k], h[n]) {
        OrderedTransitive(h, i, k, n);
        k := n;
      }
    }
  }

  lemma {:induction false} KeptSinceWrite(h: seq<Access>, k: nat)
    requires k in Kept(h)
    ensures LastWrite(h).Some? ==> LastWrite(h).value < k
  {
    var n := |h| - 1;
    KeptRead(h);
    if k != n {
      KeptSinceWrite(h[..n], k);
    }
  }

  lemma KeptRaces(h: seq<Access>, w: Access)
    requires forall i: nat :: i < |h| ==> h[i].Clock() > 0
    ensures RacesWithRead(SummaryOf(h), w.cv, w.thread) <==> exists k: nat :: k in Kept(h) && !Ordered(h[k], w)
  {
    hide MayRace, Ordered, Access.Clock, Kept, SummaryOf, ReadAt;
    ReadersAre(h);
    var readers := SummaryOf(h).readers;
    forall r: nat | r < |Kept(h)|
      ensures MayRace(w.cv, w.thread, readers[r].clock, readers[r].thread) <==> !Ordered(h[Kept(h)[r]], w)
    {
      ReadAtIs(h[Kept(h)[r]], w);
    }
    if RacesWithRead(SummaryOf(h), w.cv, w.thread) {
      var r: nat :| r < |readers| && MayRace(w.cv, w.thread, readers[r].clock, readers[r].thread);
      assert Kept(h)[r] in Kept(h);
    }
  }

  /** There is a plain read at `i`, later than the last write. */
  ghost predicate ReadSinceWrite(h: seq<Access>, i: nat)
  {
    PlainRead(h, i) && (LastWrite(h).Some? ==> LastWrite(h).value < i)
  }

  lemma CausalPrefix(h: seq<Access>, n: nat)
    requires Causal(h) && n <= |h|
    ensures Causal(h[..n])
  {
  }

  /**
   Pruning loses no race: a write may race with some plain read since the last write exactly
   when it may race with a read that is still remembered.
   */
  lemma PruningLosesNoRace(h: seq<Access>, j: nat)
    requires Causal(h) && j < |h|
    ensures RacesWithRead(SummaryOf(h[..j]), h[j].cv, h[j].thread) <==>
            exists i: nat :: ReadSinceWrite(h[..j], i) && !Ordered(h[i], h[j])
  {
    hide Ordered, Kept, SummaryOf, RacesWithRead, LastWrite;
    var p, w := h[..j], h[j];
    CausalPrefix(h, j);
    KeptRaces(p, w);
    if k: nat :| k in Kept(p) && !Ordered(p[k], w) {
      KeptSinceWrite(p, k);
      assert ReadSinceWrite(p, k) && !Ordered(h[k], h[j]);
    }
    if i: nat :| ReadSinceWrite(p, i) && !Ordered(h[i], h[j]) {
      var k := KeptCovers(p, i);
      if Ordered(h[k], h[j]) {
        OrderedTransitive(h, i, k, j);
      }
    }
  }

  lemma WriteRaces(h: seq<Access>, j: nat)
    requires Causal(h) && j < |h|
    ensures RacesWithWrite(SummaryOf(h[..j]), h[j].cv, h[j].thread) <==>
            LastWrite(h[..j]).Some? && !Ordered(h[LastWrite(h[..j]).value], h[j])
  {
    WriterIs(h[..j]);
    if LastWrite(h[..j]).Some? {
      ReadAtIs(h[LastWrite(h[..j]).value], h[j]);
    }
  }

  ghost predicate ReportedAt(h: seq<Access>, j: nat)
  {
    j < |h| && h[j].Reports(SummaryOf(h[..j]))
  }

  /** What is compared with the access at `j`: the last write, and for a write the plain reads since then. */
  ghost predicate Compared(h: seq<Access>, i: nat, j: nat)
    requires j < |h|
  {
    LastWrite(h[..j]) == Some(i) || (h[j].isWrite && ReadSinceWrite(h[..j], i))
  }

  ghost predicate AfterAtomicWrite(h: seq<Access>, j: nat)
    requires j < |h|
  {
    LastWrite(h[..j]).Some? && h[LastWrite(h[..j]).value].isAtomic
  }

  /**
   The reports at every access of every history, plain and atomic accesses mixed: there is
   one exactly if an access that is compared is not ordered, unless an atomic access follows
   an atomic write.
   */
  lemma ReportedExactly(h: seq<Access>, j: nat)
    requires Causal(h) && j < |h|
    ensures ReportedAt(h, j) <==>
            !(h[j].isAtomic && AfterAtomicWrite(h, j)) && exists i: nat :: Compared(h, i, j) && !Ordered(h[i], h[j])
  {
    hide Ordered, SummaryOf, RacesWithRead, RacesWithWrite, Causal;
    WriterIs(h[..j]);
    WriteRaces(h, j);
    PruningLosesNoRace(h, j);
    if i: nat :| ReadSinceWrite(h[..j], i) && !Ordered(h[i], h[j]) {
      assert h[j].isWrite ==> Compared(h, i, j);
    }
    if LastWrite(h[..j]).Some? {
      assert Compared(h, LastWrite(h[..j]).value, j);
    }
  }

  /** Whatever is reported is a race. */
  lemma ReportIsRace(h: seq<Access>, j: nat) returns (i: nat)
    requires Causal(h) && ReportedAt(h, j)
    ensures Race(h, i, j)
  {
    hide Ordered, SummaryOf;
    ReportedExactly(h, j);
    i :| Compared(h, i, j) && !Ordered(h[i], h[j]);
  }

  ghost predicate AllPlain(h: seq<Access>)
  {
    forall i :: 0 <= i < |h| ==> !h[i].isAtomic
  }

  /** If there is a race between plain accesses only, something is reported, though not always the same pair. */
  lemma {:induction false} RaceIsReported(h: seq<Access>, i: nat, j: nat) returns (k: nat)
    requires Causal(h) && AllPlain(h) && Race(h, i, j)
    ensures ReportedAt(h, k)
    decreases j
  {
    hide Ordered, SummaryOf, Causal, ReportedAt;
    ReportedExactly(h, j);
    var w := LastWrite(h[..j]);
    if w.None? || w.value < i {
      assert ReadSinceWrite(h[..j], i);
      assert Compared(h, i, j);
      k := j;
    } else if w.value == i || !Ordered(h[w.value], h[j]) {
      assert Compared(h, w.value, j);
      k := j;
    } else {
      if Ordered(h[i], h[w.value]) {
        OrderedTransitive(h, i, w.value, j);
      }
      k := RaceIsReported(h, i, w.value);
    }
  }

  /**
   The detector is exact: over any history of plain accesses to a byte whose clocks are
   causally closed, it reports a race at some access exactly when two accesses race, although
   it remembers only the last write and the unsubsumed reads.
   */
  lemma DetectorIsExact(h: seq<Access>)
    requires Causal(h)
    ensures (exists j: nat :: ReportedAt(h, j)) ==> exists i: nat, j: nat :: Race(h, i, j)
    ensures AllPlain(h) ==> ((exists j: nat :: ReportedAt(h, j)) <==> exists i: nat, j: nat :: Race(h, i, j))
  {
    hide Causal, ReportedAt, Race;
    if j: nat :| ReportedAt(h, j) {
      var i := ReportIsRace(h, j);
      assert Race(h, i, j);
    }
    if AllPlain(h) {
      if i: nat, j: nat :| Race(h, i, j) {
        var k := RaceIsReported(h, i, j);
      }
    }
  }

  // ----- Atomic accesses lose races -----

  /** An atomic read and then a plain write by a thread that does not know of it. */
  ghost function UnseenRead(): seq<Access>
  {
    [Access(0, [1, 0], false, true), Access(1, [0, 1], true, false)]
  }

  /** A plain read between two atomic writes, the second not knowing of it. */
  ghost function ReadBetween(): seq<Access>
  {
    [Access(0, [1, 0, 0], true, true), Access(1, [2, 1, 0], false, false), Access(2, [2, 0, 1], true, true)]
  }

  /** With atomic accesses the detector is not complete. */
  lemma AtomicsLoseRaces()
    ensures Causal(UnseenRead()) && Race(UnseenRead(), 0, 1) && forall j: nat :: !ReportedAt(UnseenRead(), j)
    ensures Causal(ReadBetween()) && Race(ReadBetween(), 1, 2) && forall j: nat :: !ReportedAt(ReadBetween(), j)
  {
    UnseenReadLost();
    ReadBetweenLost();
  }

  lemma UnseenReadLost()
    ensures Causal(UnseenRead()) && Race(UnseenRead(), 0, 1) && forall j: nat :: !ReportedAt(UnseenRead(), j)
  {
    var h := UnseenRead();
    assert h[..0] == [] && h[..1][..0] == [];
    assert SummaryOf(h[..1]) == UNTOUCHED;
    forall j: nat
      ensures !ReportedAt(h, j)
    {
      if j < |h| {
        assert SummaryOf(h[..j]) == UNTOUCHED;
      }
    }
  }

  lemma ReadBetweenLost()
    ensures Causal(ReadBetween()) && Race(ReadBetween(), 1, 2) && forall j: nat :: !ReportedAt(ReadBetween(), j)
  {
    var h := ReadBetween();
    assert h[..0] == [] && h[..1][..0] == [] && h[..2][..1] == h[..1];
    assert SummaryOf(h[..1]) == Summary(0, 1, true, []);
    assert SummaryOf(h[..2]).isAtomic;
    forall j: nat
      ensures !ReportedAt(h, j)
    {
      if j < |h| {
        assert j == 0 || j == 1 || j == 2;
      }
    }
  }
}
