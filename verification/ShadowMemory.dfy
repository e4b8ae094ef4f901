/**
 The shadow memory and its checks of accesses of several bytes. After the first byte, the
 following bytes are updated by comparing and copying whole words as long as they match and
 lie in the same table; from the first mismatch on, each byte is checked on its own.
 */
module ShadowMemories {
  import opened Wrappers
  import opened Races
  import opened ShadowWords
  import opened RaceDetector

  const SHADOWTABLESIZE: nat := 65536
  const INVALIDSHADOWVAL: nat := 2

  /** A table of the shadow memory and an index into it. */
  type Slot = (nat, nat)

  function SlotOf(location: nat): Slot
  {
    (location / SHADOWTABLESIZE, location % SHADOWTABLESIZE)
  }

  /** CHECKBOUNDARY: the next `bits` bytes are in the same table. */
  predicate CheckBoundary(location: nat, bits: nat)
  {
    location % SHADOWTABLESIZE + bits <= SHADOWTABLESIZE - 1
  }

  /** Inside a table, the next entries are those of the next bytes. */
  lemma SameTable(location: nat, bits: nat, k: nat)
    requires CheckBoundary(location, bits) && k <= bits
    ensures SlotOf(location + k) == (SlotOf(location).0, SlotOf(location).1 + k)
  {
    var q, r := location / SHADOWTABLESIZE, location % SHADOWTABLESIZE;
    assert location + k == q * SHADOWTABLESIZE + (r + k);
  }

  lemma SlotsDiffer(a: nat, b: nat)
    ensures SlotOf(a) == SlotOf(b) ==> a == b
  {
    assert a == a / SHADOWTABLESIZE * SHADOWTABLESIZE + a % SHADOWTABLESIZE;
    assert b == b / SHADOWTABLESIZE * SHADOWTABLESIZE + b % SHADOWTABLESIZE;
  }

  /** The entry of every byte; tables come into being zeroed. */
  ghost function CellAt(cells: map<Slot, Cell>, a: nat): Cell
  {
    if SlotOf(a) in cells then cells[SlotOf(a)] else Word(0)
  }

  ghost predicate AllValid(cells: map<Slot, Cell>)
  {
    forall a: nat :: ValidCell(CellAt(cells, a))
  }

  /** Every byte of the access checked on its own, and no other byte touched. */
  ghost predicate BytesChecked(before: map<Slot, Cell>, after: map<Slot, Cell>, location: nat, size: nat, cv: Clocks, thread: nat, isWrite: bool)
  {
    forall a: nat :: CellAt(after, a) ==
                     if location <= a < location + size then CellAfter(CellAt(before, a), cv, thread, isWrite)
                     else CellAt(before, a)
  }

  ghost predicate ReportIn(cells: map<Slot, Cell>, location: nat, size: nat, cv: Clocks, thread: nat, isWrite: bool)
  {
    exists a: nat :: location <= a < location + size && CellReports(CellAt(cells, a), cv, thread, isWrite)
  }

  lemma ValidAfter(c: Cell, cv: Clocks, thread: nat, isWrite: bool)
    requires ValidCell(c)
    ensures ValidCell(CellAfter(c, cv, thread, isWrite))
  {
    CellReadRefines(c, cv, thread);
    CellWriteRefines(c, cv, thread, false);
  }

  lemma BytesCheckedValid(before: map<Slot, Cell>, after: map<Slot, Cell>, location: nat, size: nat, cv: Clocks, thread: nat, isWrite: bool)
    requires AllValid(before) && BytesChecked(before, after, location, size, cv, thread, isWrite)
    ensures AllValid(after)
  {
    hide ValidCell, CellAt, CellAfter;
    forall a: nat
      ensures ValidCell(CellAt(after, a))
    {
      ValidAfter(CellAt(before, a), cv, thread, isWrite);
    }
  }

  lemma ByteValid(before: map<Slot, Cell>, after: map<Slot, Cell>, location: nat, k: nat, cv: Clocks, thread: nat, isWrite: bool)
    requires AllValid(before) && BytesChecked(before, after, location, k, cv, thread, isWrite)
    ensures ValidCell(CellAt(after, location + k))
  {
    BytesCheckedValid(before, after, location, k, cv, thread, isWrite);
  }

  /** One more byte. */
  lemma BytesCheckedStep(before: map<Slot, Cell>, between: map<Slot, Cell>, after: map<Slot, Cell>,
                         location: nat, size: nat, cv: Clocks, thread: nat, isWrite: bool)
    requires BytesChecked(before, between, location, size, cv, thread, isWrite)
    requires after == between[SlotOf(location + size) := CellAfter(CellAt(between, location + size), cv, thread, isWrite)]
    ensures BytesChecked(before, after, location, size + 1, cv, thread, isWrite)
    ensures CellAt(between, location + size) == CellAt(before, location + size)
  {
    hide CellAfter, SlotOf;
    forall a: nat
      ensures CellAt(after, a) == if location <= a < location + (size + 1) then CellAfter(CellAt(before, a), cv, thread, isWrite) else CellAt(before, a)
    {
      SlotsDiffer(a, location + size);
    }
  }

  lemma ReportInStep(cells: map<Slot, Cell>, location: nat, size: nat, cv: Clocks, thread: nat, isWrite: bool)
    ensures ReportIn(cells, location, size + 1, cv, thread, isWrite) <==>
            ReportIn(cells, location, size, cv, thread, isWrite) || CellReports(CellAt(cells, location + size), cv, thread, isWrite)
  {
    hide CellReports, CellAt;
  }

  /** The words with which the fast path goes on: what the first byte was and became. */
  ghost predicate Template(oldVal: nat, newVal: nat, cv: Clocks, thread: nat, isWrite: bool, race: bool)
  {
    || oldVal == newVal == INVALIDSHADOWVAL
    || (CellAfter(Word(oldVal), cv, thread, isWrite) == Word(newVal) && (race <==> CellReports(Word(oldVal), cv, thread, isWrite)))
  }

  /** A byte whose word matches is checked by copying the word; it reports what the first byte reported. */
  lemma FastStep(before: map<Slot, Cell>, between: map<Slot, Cell>, after: map<Slot, Cell>,
                 location: nat, k: nat, cv: Clocks, thread: nat, isWrite: bool, oldVal: nat, newVal: nat, race: bool)
    requires AllValid(before) && BytesChecked(before, between, location, k, cv, thread, isWrite)
    requires Template(oldVal, newVal, cv, thread, isWrite, race)
    requires CellAt(between, location + k) == Word(oldVal)
    requires after == between[SlotOf(location + k) := Word(newVal)]
    ensures BytesChecked(before, after, location, k + 1, cv, thread, isWrite)
    ensures CellReports(CellAt(before, location + k), cv, thread, isWrite) <==> race
  {
    hide CellAfter, CellReports, SlotOf;
    assert CellAt(before, location + k) == CellAt(between, location + k);
    assert ValidCell(Word(oldVal));
    BytesCheckedStep(before, between, after, location, k, cv, thread, isWrite);
  }

  lemma NothingChecked(before: map<Slot, Cell>, location: nat, cv: Clocks, thread: nat, isWrite: bool)
    ensures BytesChecked(before, before, location, 0, cv, thread, isWrite)
    ensures !ReportIn(before, location, 0, cv, thread, isWrite)
  {
  }

  /** The check of a read as the multi-byte checks write it: a second read goes straight into the expanded record. */
  method CheckRead(cell: Cell, thread: nat, cv: Clocks) returns (r: Cell, race: bool)
    ensures r == CellRead(cell, cv, thread)
    ensures race <==> CellReports(cell, cv, thread, false)
  {
    match cell
    case Record(rec) =>
      race := MayRace(cv, thread, rec.writeClock, rec.writeThread);
      r := Record(RecordRead(rec, cv, thread));
    case Word(shadowval) =>
      var ourClock := GetClock(cv, thread);
      if thread > MAXTHREADID || ourClock > MAXWRITEVECTOR {
        var record := Expand(shadowval);
        race := MayRace(cv, thread, record.writeClock, record.writeThread);
        return Record(RecordRead(record, cv, thread)), race;
      }
      var writeClock, writeThread := WriteVector(shadowval), WrThreadId(shadowval);
      race := MayRace(cv, thread, writeClock, writeThread);
      var readClock, readThread := ReadVector(shadowval), RdThreadId(shadowval);
      if MayRace(cv, thread, readClock, readThread) {
        var record := Expand(shadowval);
        assert record.readers == [Read(readThread, readClock)];
        OneUnsubsumed(Read(readThread, readClock), cv, thread);
        return Record(record.(readers := record.readers + [Read(thread, ourClock)])), race;
      }
      r := Word(EncodeOp(thread, ourClock, writeThread, writeClock) + AtomicBit(shadowval));
  }

  lemma OneUnsubsumed(r: Read, cv: Clocks, thread: nat)
    requires MayRace(cv, thread, r.clock, r.thread)
    ensures Unsubsumed([r], cv, thread) == [r]
  {
    assert [r][..0] == [];
    assert [] + [r] == [r];
  }

  /** fullRaceCheckWrite's tests: the reads up to the first race, and then the last write. */
  method RecordRaces(rec: RaceRecord, thread: nat, cv: Clocks) returns (race: bool)
    ensures race <==> CellReports(Record(rec), cv, thread, true)
  {
    TimedRaces(rec.readers, cv, thread);
    race := false;
    var i := 0;
    while i < |rec.readers| && !race
      invariant i <= |rec.readers|
      invariant race <==> exists k :: 0 <= k < i && MayRace(cv, thread, rec.readers[k].clock, rec.readers[k].thread)
    {
      race := MayRace(cv, thread, rec.readers[i].clock, rec.readers[i].thread);
      i := i + 1;
    }
    if !race {
      race := MayRace(cv, thread, rec.writeClock, rec.writeThread);
    }
  }

  /** The one read of a word. */
  lemma WordRaces(x: nat, cv: Clocks, thread: nat)
    ensures CellReports(Word(x), cv, thread, true) <==>
            MayRace(cv, thread, ReadVector(x), RdThreadId(x)) || MayRace(cv, thread, WriteVector(x), WrThreadId(x))
  {
    var readers := ViewOf(Word(x)).readers;
    if ReadVector(x) != 0 {
      assert readers[0] == Read(RdThreadId(x), ReadVector(x));
    }
  }

  lemma ExpandReports(x: nat, cv: Clocks, thread: nat)
    requires ValidCell(Word(x))
    ensures CellReports(Record(Expand(x)), cv, thread, true) <==> CellReports(Word(x), cv, thread, true)
  {
    ExpandKeeps(x);
  }

  method CheckWrite(cell: Cell, thread: nat, cv: Clocks) returns (r: Cell, race: bool)
    requires ValidCell(cell)
    ensures r == CellWrite(cell, cv, thread, false)
    ensures race <==> CellReports(cell, cv, thread, true)
  {
    match cell
    case Record(rec) =>
      race := RecordRaces(rec, thread, cv);
      r := Record(RecordWrite(rec, cv, thread, false));
    case Word(shadowval) =>
      var ourClock := GetClock(cv, thread);
      if thread > MAXTHREADID || ourClock > MAXWRITEVECTOR {
        var record := Expand(shadowval);
        ExpandReports(shadowval, cv, thread);
        race := RecordRaces(record, thread, cv);
        return Record(RecordWrite(record, cv, thread, false)), race;
      }
      WordRaces(shadowval, cv, thread);
      race := MayRace(cv, thread, ReadVector(shadowval), RdThreadId(shadowval));
      if !race {
        race := MayRace(cv, thread, WriteVector(shadowval), WrThreadId(shadowval));
      }
      r := Word(EncodeOp(0, 0, thread, ourClock));
  }

  /** atomraceCheckRead: compared with the last write unless that was atomic; the cell stays as it is. */
  method AtomCheckRead(cell: Cell, thread: nat, cv: Clocks) returns (race: bool)
    ensures race <==> AtomicReports(cell, cv, thread, false)
  {
    match cell
    case Record(rec) =>
      if rec.isAtomic {
        return false;
      }
      race := MayRace(cv, thread, rec.writeClock, rec.writeThread);
    case Word(shadowval) =>
      if AtomicBit(shadowval) != 0 {
        return false;
      }
      race := MayRace(cv, thread, WriteVector(shadowval), WrThreadId(shadowval));
  }

  /** atomraceCheckWrite. */
  method AtomCheckWrite(cell: Cell, thread: nat, cv: Clocks) returns (r: Cell, race: bool)
    requires ValidCell(cell)
    ensures r == CellWrite(cell, cv, thread, true)
    ensures race <==> AtomicReports(cell, cv, thread, true)
  {
    race := false;
    match cell
    case Record(rec) =>
      if !rec.isAtomic {
        race := RecordRaces(rec, thread, cv);
      }
      r := Record(RecordWrite(rec, cv, thread, true));
    case Word(shadowval) =>
      var ourClock := GetClock(cv, thread);
      if thread > MAXTHREADID || ourClock > MAXWRITEVECTOR {
        var record := Expand(shadowval);
        ExpandReports(shadowval, cv, thread);
        if !record.isAtomic {
          race := RecordRaces(record, thread, cv);
        }
        return Record(RecordWrite(record, cv, thread, true)), race;
      }
      if AtomicBit(shadowval) == 0 {
        WordRaces(shadowval, cv, thread);
        race := MayRace(cv, thread, ReadVector(shadowval), RdThreadId(shadowval));
        if !race {
          race := MayRace(cv, thread, WriteVector(shadowval), WrThreadId(shadowval));
        }
      }
      r := Word(EncodeOp(0, 0, thread, ourClock) + ATOMICMASK);
  }

  class ShadowMemory {
    var cells: map<Slot, Cell>

    constructor ()
      ensures cells == map[] && AllValid(cells)
    {
      cells := map[];
    }

    method LookupAddressEntry(slot: Slot) returns (cell: Cell)
      ensures cell == if slot in cells then cells[slot] else Word(0)
    {
      if slot in cells {
        return cells[slot];
      }
      return Word(0);
    }

    /** The check of one byte, in the form of raceCheckRead_otherIt and raceCheckWrite_otherIt. */
    method OtherIt(thread: nat, location: nat, cv: Clocks, isWrite: bool) returns (race: bool)
      requires ValidCell(CellAt(cells, location))
      modifies this
      ensures cells == old(cells)[SlotOf(location) := CellAfter(old(CellAt(cells, location)), cv, thread, isWrite)]
      ensures race <==> CellReports(old(CellAt(cells, location)), cv, thread, isWrite)
    {
      var cell := LookupAddressEntry(SlotOf(location));
      var word: Cell;
      if isWrite {
        word, race := CheckWrite(cell, thread, cv);
      } else {
        word, race := CheckRead(cell, thread, cv);
      }
      cells := cells[SlotOf(location) := word];
    }

    /** The first byte; `oldVal` and `newVal` are words only if a word was replaced by a word. */
    method FirstIt(thread: nat, location: nat, cv: Clocks, isWrite: bool) returns (oldVal: nat, newVal: nat, race: bool)
      requires ValidCell(CellAt(cells, location))
      modifies this
      ensures cells == old(cells)[SlotOf(location) := CellAfter(old(CellAt(cells, location)), cv, thread, isWrite)]
      ensures race <==> CellReports(old(CellAt(cells, location)), cv, thread, isWrite)
      ensures Template(oldVal, newVal, cv, thread, isWrite, race)
    {
      oldVal, newVal := INVALIDSHADOWVAL, INVALIDSHADOWVAL;
      var slot := SlotOf(location);
      var cell := LookupAddressEntry(slot);
      var word: Cell;
      if isWrite {
        word, race := CheckWrite(cell, thread, cv);
      } else {
        word, race := CheckRead(cell, thread, cv);
      }
      cells := cells[slot := word];
      if cell.Word? && word.Word? {
        oldVal, newVal := cell.bits, word.bits;
      }
    }

    /** The check of an atomic access to one byte. */
    method AtomRaceCheck(thread: nat, location: nat, clocks: Option<Clocks>, isWrite: bool) returns (race: bool)
      requires AllValid(cells)
      modifies this
      ensures AllValid(cells)
      ensures clocks.None? ==> cells == old(cells) && !race
      ensures clocks.Some? ==> race == AtomicReports(old(CellAt(cells, location)), clocks.value, thread, isWrite)
      ensures clocks.Some? ==>
                forall a: nat :: CellAt(cells, a) == if a == location then AtomicAfter(old(CellAt(cells, a)), clocks.value, thread, isWrite)
                                                     else old(CellAt(cells, a))
    {
      if clocks.None? {
        return false;
      }
      var cv := clocks.value;
      ghost var before := cells;
      var cell := LookupAddressEntry(SlotOf(location));
      assert ValidCell(CellAt(cells, location));
      hide ValidCell, SlotOf, AtomicReports, CellWrite;
      if isWrite {
        CellWriteRefines(cell, cv, thread, true);
        var word;
        word, race := AtomCheckWrite(cell, thread, cv);
        cells := cells[SlotOf(location) := word];
      } else {
        race := AtomCheckRead(cell, thread, cv);
      }
      forall a: nat
        ensures CellAt(cells, a) == if a == location then AtomicAfter(CellAt(before, a), cv, thread, isWrite) else CellAt(before, a)
        ensures ValidCell(CellAt(cells, a))
      {
        SlotsDiffer(a, location);
        assert ValidCell(CellAt(before, a));
      }
    }

    /** Copies words to the bytes after the first until one does not match or the table ends. */
    method FastPath(thread: nat, location: nat, size: nat, cv: Clocks, isWrite: bool, oldVal: nat, newVal: nat, race: bool,
                    ghost before: map<Slot, Cell>)
      returns (k: nat)
      requires AllValid(before) && size > 0 && Template(oldVal, newVal, cv, thread, isWrite, race)
      requires BytesChecked(before, cells, location, 1, cv, thread, isWrite)
      requires race <==> ReportIn(before, location, 1, cv, thread, isWrite)
      modifies this
      ensures 1 <= k <= size && BytesChecked(before, cells, location, k, cv, thread, isWrite)
      ensures race <==> ReportIn(before, location, k, cv, thread, isWrite)
    {
      hide CellAfter, CellReports, BytesChecked, ReportIn, AllValid, SlotOf, Template;
      k := 1;
      if !CheckBoundary(location, size - 1) {
        return;
      }
      var shadow := SlotOf(location);
      while k < size
        invariant 1 <= k <= size
        invariant BytesChecked(before, cells, location, k, cv, thread, isWrite)
        invariant race <==> ReportIn(before, location, k, cv, thread, isWrite)
      {
        SameTable(location, size - 1, k);
        var cell := LookupAddressEntry((shadow.0, shadow.1 + k));
        if cell != Word(oldVal) {
          return;
        }
        ghost var between := cells;
        cells := cells[(shadow.0, shadow.1 + k) := Word(newVal)];
        ReportInStep(before, location, k, cv, thread, isWrite);
        FastStep(before, between, cells, location, k, cv, thread, isWrite, oldVal, newVal, race);
        k := k + 1;
      }
    }

    /** Checks the bytes from number `k` on, each on its own. */
    method SlowPath(thread: nat, location: nat, size: nat, cv: Clocks, isWrite: bool, k: nat, first: bool, ghost before: map<Slot, Cell>)
      returns (race: bool)
      requires AllValid(before) && k <= size && BytesChecked(before, cells, location, k, cv, thread, isWrite)
      requires first <==> ReportIn(before, location, k, cv, thread, isWrite)
      modifies this
      ensures BytesChecked(before, cells, location, size, cv, thread, isWrite)
      ensures race <==> ReportIn(before, location, size, cv, thread, isWrite)
    {
      hide CellAfter, CellReports, BytesChecked, ReportIn, SlotOf, AllValid, ValidCell;
      race := first;
      for i := k to size
        invariant BytesChecked(before, cells, location, i, cv, thread, isWrite)
        invariant race <==> ReportIn(before, location, i, cv, thread, isWrite)
      {
        ghost var between := cells;
        ByteValid(before, cells, location, i, cv, thread, isWrite);
        var other := OtherIt(thread, location + i, cv, isWrite);
        BytesCheckedStep(before, between, cells, location, i, cv, thread, isWrite);
        ReportInStep(before, location, i, cv, thread, isWrite);
        race := race || other;
      }
    }

    /**
     raceCheckRead and raceCheckWrite of 8, 16, 32 and 64 bits; a thread without a clock
     vector is not checked. Whichever byte mismatches first and wherever the table ends,
     every byte ends up as if it had been checked on its own, and a race is reported if
     the check of any byte would report one.
     */
    method RaceCheck(thread: nat, location: nat, size: nat, clocks: Option<Clocks>, isWrite: bool) returns (race: bool)
      requires AllValid(cells) && size > 0
      modifies this
      ensures AllValid(cells)
      ensures clocks.None? ==> cells == old(cells) && !race
      ensures clocks.Some? ==> BytesChecked(old(cells), cells, location, size, clocks.value, thread, isWrite)
      ensures clocks.Some? ==> (race <==> ReportIn(old(cells), location, size, clocks.value, thread, isWrite))
    {
      if clocks.None? {
        return false;
      }
      assert ValidCell(CellAt(cells, location));
      hide CellAfter, CellReports, BytesChecked, ReportIn, AllValid, SlotOf, Template, ValidCell;
      var cv := clocks.value;
      ghost var before := cells;
      NothingChecked(before, location, cv, thread, isWrite);
      var oldVal, newVal, first := FirstIt(thread, location, cv, isWrite);
      BytesCheckedStep(before, before, cells, location, 0, cv, thread, isWrite);
      ReportInStep(before, location, 0, cv, thread, isWrite);
      var k := FastPath(thread, location, size, cv, isWrite, oldVal, newVal, first, before);
      race := SlowPath(thread, location, size, cv, isWrite, k, first, before);
      BytesCheckedValid(before, cells, location, size, cv, thread, isWrite);
    }
  }
}
