/**
 The two forms in which the shadow memory keeps what it remembers of a byte: packed into
 one 64-bit word, or as a record with arrays of reads. Both stand for a summary of module
 Races, and the operations on them are the operations on summaries.
 */
module ShadowWords {
  import opened Races
  import opened Arithmetic

  const THREADMASK: nat := 0x3f
  const READMASK: nat := 0x1ffffff
  const MAXTHREADID: nat := THREADMASK - 1
  const MAXWRITEVECTOR: nat := READMASK - 1
  const ATOMICMASK: nat := 0x8000_0000_0000_0000
  const INITCAPACITY: nat := 4

  // ----- Words -----

  /** The fields do not overlap, so adding them is joining their bits. */
  function EncodeOp(rdthread: nat, rdtime: nat, wrthread: nat, wrtime: nat): nat
  {
    1 + rdthread * 2 + rdtime * 128 + wrthread * 0x1_0000_0000 + wrtime * 0x40_0000_0000
  }

  predicate IsShortRecord(x: nat)
  {
    x % 2 == 1
  }

  function RdThreadId(x: nat): nat
  {
    x / 2 % (THREADMASK + 1)
  }

  function ReadVector(x: nat): nat
  {
    x / 128 % (READMASK + 1)
  }

  function WrThreadId(x: nat): nat
  {
    x / 0x1_0000_0000 % (THREADMASK + 1)
  }

  function WriteVector(x: nat): nat
  {
    x / 0x40_0000_0000 % (READMASK + 1)
  }

  /** The atomic bit, in place. */
  function AtomicBit(x: nat): nat
  {
    if x / ATOMICMASK % 2 == 1 then ATOMICMASK else 0
  }

  /** The digits of `x` from weight `k` on, up to weight `k * m`. */
  function Field(x: nat, k: nat, m: nat): nat
    requires k > 0 && m > 0
  {
    x / k % m
  }

  lemma FieldAt(low: nat, f: nat, q: nat, k: nat, m: nat)
    requires low < k && f < m
    ensures Field(low + k * (f + m * q), k, m) == f
  {
    Quotient(low + k * (f + m * q), k, f + m * q, low);
    Quotient(f + m * q, m, q, f);
  }

  lemma ReadThreadField(x: nat, f: nat, q: nat)
    requires f <= THREADMASK && x == 1 + 2 * (f + (THREADMASK + 1) * q)
    ensures RdThreadId(x) == f && IsShortRecord(x)
  {
    FieldAt(1, f, q, 2, THREADMASK + 1);
    Quotient(x, 2, f + (THREADMASK + 1) * q, 1);
  }

  lemma ReadClockField(x: nat, low: nat, f: nat, q: nat)
    requires f <= READMASK && low < 128 && x == low + 128 * (f + (READMASK + 1) * q)
    ensures ReadVector(x) == f
  {
    FieldAt(low, f, q, 128, READMASK + 1);
  }

  lemma WriteThreadField(x: nat, low: nat, f: nat, q: nat)
    requires f <= THREADMASK && low < 0x1_0000_0000 && x == low + 0x1_0000_0000 * (f + (THREADMASK + 1) * q)
    ensures WrThreadId(x) == f
  {
    FieldAt(low, f, q, 0x1_0000_0000, THREADMASK + 1);
  }

  lemma WriteClockField(x: nat, low: nat, f: nat, q: nat)
    requires f <= READMASK && low < 0x40_0000_0000 && x == low + 0x40_0000_0000 * (f + (READMASK + 1) * q)
    ensures WriteVector(x) == f
  {
    FieldAt(low, f, q, 0x40_0000_0000, READMASK + 1);
  }

  lemma AtomicField(x: nat, low: nat, f: nat)
    requires f <= 1 && low < ATOMICMASK && x == low + ATOMICMASK * f
    ensures AtomicBit(x) == ATOMICMASK * f
  {
    FieldAt(low, f, 0, ATOMICMASK, 2);
  }

  /** Packing loses nothing. */
  lemma DecodeEncode(rdthread: nat, rdtime: nat, wrthread: nat, wrtime: nat, atomic: nat)
    requires rdthread <= THREADMASK && rdtime <= READMASK && wrthread <= THREADMASK && wrtime <= READMASK
    requires atomic == 0 || atomic == ATOMICMASK
    ensures var x := EncodeOp(rdthread, rdtime, wrthread, wrtime) + atomic;
            && IsShortRecord(x) && x < 0x1_0000_0000_0000_0000
            && RdThreadId(x) == rdthread && ReadVector(x) == rdtime
            && WrThreadId(x) == wrthread && WriteVector(x) == wrtime
            && AtomicBit(x) == atomic
  {
    hide IsShortRecord, RdThreadId, ReadVector, WrThreadId, WriteVector, AtomicBit;
    var x := EncodeOp(rdthread, rdtime, wrthread, wrtime) + atomic;
    var t := if atomic == 0 then 0 else 1;
    var q4 := wrtime + (READMASK + 1) * t;
    var q3 := wrthread + (THREADMASK + 1) * q4;
    var q2 := rdtime + (READMASK + 1) * q3;
    var low2 := 1 + rdthread * 2;
    var low3 := low2 + rdtime * 128;
    var low4 := low3 + wrthread * 0x1_0000_0000;
    ReadThreadField(x, rdthread, q2);
    ReadClockField(x, low2, rdtime, q3);
    WriteThreadField(x, low3, wrthread, q4);
    WriteClockField(x, low4, wrtime, t);
    AtomicField(x, EncodeOp(rdthread, rdtime, wrthread, wrtime), t);
  }

  // ----- Records -----

  /** `capacity` is the length of the two arrays that hold the reads. */
  datatype RaceRecord = RaceRecord(readers: seq<Read>, capacity: nat, isAtomic: bool, writeThread: nat, writeClock: nat)

  datatype Cell = Word(bits: nat) | Record(rec: RaceRecord)

  predicate PowerOfTwo(n: nat)
  {
    n == 1 || (n > 1 && n % 2 == 0 && PowerOfTwo(n / 2))
  }

  /** Reads fit, and a capacity that is used is a power of two. */
  predicate Fits(r: RaceRecord)
  {
    |r.readers| <= r.capacity && (r.readers != [] ==> r.capacity >= INITCAPACITY && PowerOfTwo(r.capacity))
  }

  predicate ValidCell(c: Cell)
  {
    match c
    case Word(x) => x == 0 || (IsShortRecord(x) && x < 0x1_0000_0000_0000_0000)
    case Record(r) => Fits(r)
  }

  function Timed(readers: seq<Read>): seq<Read>
  {
    if readers == [] then []
    else
      var n := |readers| - 1;
      Timed(readers[..n]) + if readers[n].clock != 0 then [readers[n]] else []
  }

  /** What a cell remembers. */
  function ViewOf(c: Cell): Summary
  {
    match c
    case Word(x) =>
      Summary(WrThreadId(x), WriteVector(x), AtomicBit(x) != 0,
              if ReadVector(x) == 0 then [] else [Read(RdThreadId(x), ReadVector(x))])
    case Record(r) => Summary(r.writeThread, r.writeClock, r.isAtomic, Timed(r.readers))
  }

  // ----- Operations -----

  function Expand(x: nat): RaceRecord
  {
    var readers := if ReadVector(x) == 0 then [] else [Read(RdThreadId(x), ReadVector(x))];
    RaceRecord(readers, if readers == [] then 0 else INITCAPACITY, AtomicBit(x) != 0, WrThreadId(x), WriteVector(x))
  }

  /** The capacity after the compaction that leaves `kept` reads. */
  function Grown(capacity: nat, kept: nat): nat
  {
    if kept == 0 then INITCAPACITY
    else if PowerOfTwo(kept) && kept >= INITCAPACITY then kept * 2
    else capacity
  }

  function RecordRead(r: RaceRecord, cv: Clocks, thread: nat): RaceRecord
  {
    var kept := Unsubsumed(r.readers, cv, thread);
    r.(readers := kept + [Read(thread, GetClock(cv, thread))], capacity := Grown(r.capacity, |kept|))
  }

  function RecordWrite(r: RaceRecord, cv: Clocks, thread: nat, isAtomic: bool): RaceRecord
  {
    RaceRecord([], r.capacity, isAtomic, thread, GetClock(cv, thread))
  }

  predicate TooLarge(cv: Clocks, thread: nat)
  {
    thread > MAXTHREADID || GetClock(cv, thread) > MAXWRITEVECTOR
  }

  /** raceCheckRead, without its report. */
  function CellRead(c: Cell, cv: Clocks, thread: nat): Cell
  {
    match c
    case Record(r) => Record(RecordRead(r, cv, thread))
    case Word(x) =>
      if TooLarge(cv, thread) || MayRace(cv, thread, ReadVector(x), RdThreadId(x)) then Record(RecordRead(Expand(x), cv, thread))
      else Word(EncodeOp(thread, GetClock(cv, thread), WrThreadId(x), WriteVector(x)) + AtomicBit(x))
  }

  /** raceCheckWrite and atomraceCheckWrite, without their reports. */
  function CellWrite(c: Cell, cv: Clocks, thread: nat, isAtomic: bool): Cell
  {
    match c
    case Record(r) => Record(RecordWrite(r, cv, thread, isAtomic))
    case Word(x) =>
      if TooLarge(cv, thread) then Record(RecordWrite(Expand(x), cv, thread, isAtomic))
      else Word(EncodeOp(0, 0, thread, GetClock(cv, thread)) + if isAtomic then ATOMICMASK else 0)
  }

  // ----- They refine the operations on summaries -----

  lemma {:induction false} UnsubsumedTimed(readers: seq<Read>, cv: Clocks, thread: nat)
    ensures Unsubsumed(Timed(readers), cv, thread) == Unsubsumed(readers, cv, thread)
    ensures Timed(Unsubsumed(readers, cv, thread)) == Unsubsumed(readers, cv, thread)
  {
    if readers != [] {
      hide MayRace, Unsubsumed, Timed;
      var n := |readers| - 1;
      var last := readers[n];
      assert readers == readers[..n] + [last];
      UnsubsumedTimed(readers[..n], cv, thread);
      assert Unsubsumed(readers[..n], cv, thread) + [] == Unsubsumed(readers[..n], cv, thread);
      assert Timed(readers[..n]) + [] == Timed(readers[..n]);
      NeverRaces(last, cv, thread);
      TimedSnoc(readers[..n], last);
      UnsubsumedSnoc(readers[..n], last, cv, thread);
      TimedSnoc(Unsubsumed(readers[..n], cv, thread), last);
      UnsubsumedSnoc(Timed(readers[..n]), last, cv, thread);
    }
  }

  lemma NeverRaces(r: Read, cv: Clocks, thread: nat)
    ensures r.clock == 0 ==> !MayRace(cv, thread, r.clock, r.thread)
  {
  }

  lemma TimedSnoc(readers: seq<Read>, r: Read)
    ensures Timed(readers + [r]) == Timed(readers) + if r.clock != 0 then [r] else []
  {
    assert (readers + [r])[..|readers|] == readers;
  }

  /** A count that is no power of two is below the capacity; at a power of two the arrays grow. */
  lemma GrownFits(capacity: nat, kept: nat)
    requires kept <= capacity && (kept > 0 ==> capacity >= INITCAPACITY && PowerOfTwo(capacity))
    ensures kept < Grown(capacity, kept) && Grown(capacity, kept) >= INITCAPACITY && PowerOfTwo(Grown(capacity, kept))
  {
    assert PowerOfTwo(1) && PowerOfTwo(2) && PowerOfTwo(4);
    assert PowerOfTwo(kept) && kept > 0 ==> PowerOfTwo(kept * 2);
  }

  lemma RecordReadRefines(r: RaceRecord, cv: Clocks, thread: nat)
    requires Fits(r)
    ensures Fits(RecordRead(r, cv, thread))
    ensures ViewOf(Record(RecordRead(r, cv, thread))) == AfterRead(ViewOf(Record(r)), cv, thread)
  {
    var kept := Unsubsumed(r.readers, cv, thread);
    GrownFits(r.capacity, |kept|);
    UnsubsumedTimed(r.readers, cv, thread);
    TimedSnoc(kept, Read(thread, GetClock(cv, thread)));
  }

  lemma ExpandKeeps(x: nat)
    requires ValidCell(Word(x))
    ensures Fits(Expand(x)) && ViewOf(Record(Expand(x))) == ViewOf(Word(x))
  {
    assert PowerOfTwo(2) && PowerOfTwo(4);
    if ReadVector(x) != 0 {
      TimedSnoc([], Read(RdThreadId(x), ReadVector(x)));
      assert [] + [Read(RdThreadId(x), ReadVector(x))] == [Read(RdThreadId(x), ReadVector(x))];
    }
  }

  lemma ZeroWord()
    ensures ViewOf(Word(0)) == UNTOUCHED
  {
  }

  /** For all thread ids and clocks, whatever the form, a read does to a cell what it does to its summary. */
  lemma CellReadRefines(c: Cell, cv: Clocks, thread: nat)
    requires ValidCell(c)
    ensures ValidCell(CellRead(c, cv, thread))
    ensures ViewOf(CellRead(c, cv, thread)) == AfterRead(ViewOf(c), cv, thread)
  {
    match c
    case Record(r) => RecordReadRefines(r, cv, thread);
    case Word(x) =>
      if TooLarge(cv, thread) || MayRace(cv, thread, ReadVector(x), RdThreadId(x)) {
        ExpandKeeps(x);
        RecordReadRefines(Expand(x), cv, thread);
      } else {
        WordReadRefines(x, cv, thread);
      }
  }

  lemma WordReadRefines(x: nat, cv: Clocks, thread: nat)
    requires ValidCell(Word(x)) && !TooLarge(cv, thread) && !MayRace(cv, thread, ReadVector(x), RdThreadId(x))
    ensures ValidCell(CellRead(Word(x), cv, thread))
    ensures ViewOf(CellRead(Word(x), cv, thread)) == AfterRead(ViewOf(Word(x)), cv, thread)
  {
    hide EncodeOp, RdThreadId, ReadVector, WrThreadId, WriteVector, AtomicBit, MayRace, Unsubsumed;
    FieldBounds(x);
    DecodeEncode(thread, GetClock(cv, thread), WrThreadId(x), WriteVector(x), AtomicBit(x));
    UnsubsumedOne(Read(RdThreadId(x), ReadVector(x)), cv, thread);
  }

  lemma UnsubsumedOne(r: Read, cv: Clocks, thread: nat)
    ensures Unsubsumed([], cv, thread) == []
    ensures !MayRace(cv, thread, r.clock, r.thread) ==> Unsubsumed([r], cv, thread) == []
  {
    assert [r][..0] == [];
  }

  lemma FieldBounds(x: nat)
    ensures RdThreadId(x) <= THREADMASK && ReadVector(x) <= READMASK && WrThreadId(x) <= THREADMASK && WriteVector(x) <= READMASK
    ensures AtomicBit(x) == 0 || AtomicBit(x) == ATOMICMASK
  {
  }

  /** The same for a write, plain or atomic. */
  lemma CellWriteRefines(c: Cell, cv: Clocks, thread: nat, isAtomic: bool)
    requires ValidCell(c)
    ensures ValidCell(CellWrite(c, cv, thread, isAtomic))
    ensures ViewOf(CellWrite(c, cv, thread, isAtomic)) == AfterWrite(cv, thread, isAtomic)
  {
    if c.Word? && !TooLarge(cv, thread) {
      hide EncodeOp, RdThreadId, ReadVector, WrThreadId, WriteVector, AtomicBit;
      DecodeEncode(0, 0, thread, GetClock(cv, thread), if isAtomic then ATOMICMASK else 0);
    }
  }

  // ----- Histories -----

  /** What the check of a plain access finds in the cell. */
  predicate CellReports(c: Cell, cv: Clocks, thread: nat, isWrite: bool)
  {
    RacesWithWrite(ViewOf(c), cv, thread) || (isWrite && RacesWithRead(ViewOf(c), cv, thread))
  }

  /** An atomic access is not compared after an atomic write. */
  predicate AtomicReports(c: Cell, cv: Clocks, thread: nat, isWrite: bool)
  {
    !ViewOf(c).isAtomic && CellReports(c, cv, thread, isWrite)
  }

  function CellAfter(c: Cell, cv: Clocks, thread: nat, isWrite: bool): Cell
  {
    if isWrite then CellWrite(c, cv, thread, false) else CellRead(c, cv, thread)
  }

  function AtomicAfter(c: Cell, cv: Clocks, thread: nat, isWrite: bool): Cell
  {
    if isWrite then CellWrite(c, cv, thread, true) else c
  }

  ghost function CellOf(h: seq<Access>): Cell
  {
    if h == [] then Word(0)
    else
      var a := h[|h| - 1];
      var before := CellOf(h[..|h| - 1]);
      if a.isAtomic then AtomicAfter(before, a.cv, a.thread, a.isWrite) else CellAfter(before, a.cv, a.thread, a.isWrite)
  }

  /** Whatever forms the cell of a byte goes through, it stands for the summary of the history. */
  lemma {:induction false} CellTracks(h: seq<Access>)
    ensures ValidCell(CellOf(h)) && ViewOf(CellOf(h)) == SummaryOf(h)
  {
    if h == [] {
      ZeroWord();
    } else {
      var n := |h| - 1;
      CellTracks(h[..n]);
      CellReadRefines(CellOf(h[..n]), h[n].cv, h[n].thread);
      CellWriteRefines(CellOf(h[..n]), h[n].cv, h[n].thread, h[n].isAtomic);
    }
  }

  ghost predicate CellReportsAt(h: seq<Access>, j: nat)
  {
    j < |h| &&
    var c := CellOf(h[..j]);
    if h[j].isAtomic then AtomicReports(c, h[j].cv, h[j].thread, h[j].isWrite)
    else CellReports(c, h[j].cv, h[j].thread, h[j].isWrite)
  }

  /** The shadow cell of a byte, through all its forms, reports exactly what the detector reports. */
  lemma CellReportsSame(h: seq<Access>, j: nat)
    ensures CellReportsAt(h, j) <==> ReportedAt(h, j)
  {
    if j < |h| {
      CellTracks(h[..j]);
    }
  }

  /**
   The shadow cell of a byte reports only races, at exactly the accesses that the history
   tells; over plain accesses it reports some race exactly when the history has one.
   */
  lemma ShadowCellIsExact(h: seq<Access>)
    requires Causal(h)
    ensures forall j: nat :: CellReportsAt(h, j) ==> exists i: nat :: Race(h, i, j)
    ensures AllPlain(h) ==> ((exists j: nat :: CellReportsAt(h, j)) <==> exists i: nat, j: nat :: Race(h, i, j))
  {
    hide Causal, Race, ViewOf, ValidCell, CellReportsAt, ReportedAt;
    DetectorIsExact(h);
    forall j: nat
      ensures CellReportsAt(h, j) <==> ReportedAt(h, j)
      ensures CellReportsAt(h, j) ==> exists i: nat :: Race(h, i, j)
    {
      CellReportsSame(h, j);
      if ReportedAt(h, j) {
        var i := ReportIsRace(h, j);
      }
    }
  }
}
