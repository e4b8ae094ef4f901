/**
 A machine with one flat memory that really crashes, as the measure of the checker.

 It keeps the bytes of persistent memory as the last crash left them and the full
 history of the stores committed since. At a crash every cache line keeps the stores up
 to its write-back point and loses the later ones.
 */
module ByteMachine {
  import opened Wrappers
  import opened Memory
  import opened Column
  import opened Enumeration
  import opened StoreList
  import opened Engine
  import opened EngineInvariant
  import opened LazyEager

  datatype Machine = Machine(image: nat -> Byte, history: seq<Write>, begins: map<nat, nat>, crashes: nat, clock: nat)
  {
    ghost function Begin(line: nat): nat
    {
      if line in begins then begins[line] else 0
    }

    /** Byte `a` when only the stores up to point `p` count. */
    ghost function ByteAt(a: nat, p: nat): Byte
    {
      ByteUpTo(history, a, p).GetOr(Peek(image, a))
    }

    /** What a thread with these buffered stores reads from `a`. */
    ghost function Read(buffer: seq<Write>, a: nat): Byte
    {
      ByteUpTo(buffer, a, 0).GetOr(ByteAt(a, clock))
    }

    ghost function ReadAll(buffer: seq<Write>, loc: nat, size: nat): (r: seq<Byte>)
      ensures |r| == size && forall i :: 0 <= i < size ==> r[i] == Read(buffer, loc + i)
    {
      seq(size, i requires 0 <= i < size => Read(buffer, loc + i))
    }
  }

  type ByteEvent = Event<seq<Byte>>

  ghost function PowerOn(raw: nat -> Byte): Machine
  {
    Machine(raw, [], map[], 0, FRESH_CLOCK)
  }

  ghost predicate MachineCan(m: Machine, ev: ByteEvent, choice: Choice)
  {
    match ev
    case Load(loc, size, buffer, result) => result == m.ReadAll(buffer, loc, size)
    case Crash => BeginsReached(m, choice)
    case _ => true
  }

  /** No line was written back earlier than its flushes guarantee. */
  ghost predicate BeginsReached(m: Machine, choice: Choice)
  {
    forall line: nat :: m.Begin(line) <= Pick(choice, m.crashes, line)
  }

  ghost function MachineNext(m: Machine, ev: ByteEvent, choice: Choice): Machine
  {
    match ev
    case Store(loc, bytes, isInit) => m.(history := m.history + [Write(loc, bytes, m.clock + 1, isInit)], clock := m.clock + 1)
    case WriteBack(line, begin) => m.(begins := m.begins[line := begin], clock := m.clock + 1)
    case Load(_, _, _, _) => m.(clock := m.clock + 1)
    case Other => m.(clock := m.clock + 1)
    case Crash =>
      Machine((a: nat) => m.ByteAt(a, Pick(choice, m.crashes, CacheId(a))), [], map[], m.crashes + 1, FRESH_CLOCK)
  }

  ghost function MachineState(raw: nat -> Byte, run: seq<ByteEvent>, choice: Choice): Machine
  {
    if run == [] then PowerOn(raw)
    else MachineNext(MachineState(raw, run[..|run| - 1], choice), run[|run| - 1], choice)
  }

  /** The run can happen on a real machine whose write-backs are as `choice` says. */
  ghost predicate MachineValid(raw: nat -> Byte, run: seq<ByteEvent>, choice: Choice)
  {
    run == [] ||
    var n := |run| - 1;
    MachineValid(raw, run[..n], choice) && WellFormed(run[n]) && MachineCan(MachineState(raw, run[..n], choice), run[n], choice)
  }

  /** No store of the running execution has a number of the future. */
  ghost predicate HistoryUpTo(m: Machine)
  {
    forall w :: w in m.history ==> w.clock <= m.clock
  }

  // ----- From read-from vectors to bytes -----

  ghost function EraseEvent(ev: Event<Slots>): ByteEvent
  {
    match ev
    case Store(loc, bytes, isInit) => Store(loc, bytes, isInit)
    case WriteBack(line, begin) => WriteBack(line, begin)
    case Load(loc, size, buffer, result) => Load(loc, size, buffer, Bytes(result, loc))
    case Other => Other
    case Crash => Crash
  }

  /** The run as the program sees it: values in place of read-from vectors. */
  ghost function Erase(evs: seq<Event<Slots>>): (r: seq<ByteEvent>)
    ensures |r| == |evs|
    ensures forall i :: 0 <= i < |evs| ==> r[i] == EraseEvent(evs[i])
  {
    seq(|evs|, i requires 0 <= i < |evs| => EraseEvent(evs[i]))
  }

  // ----- The two memories agree -----

  ghost function PersistedByte(past: seq<Exec>, choice: Choice, a: nat): Option<Byte>
  {
    var s := Persisted(ColumnOf(past, a), PointsOf(choice, |past|, CacheId(a)), a);
    if s.Some? then Some(s.value.store.At(a)) else None
  }

  ghost predicate AgreeOn(raw: nat -> Byte, s: State, m: Machine, choice: Choice, a: nat)
  {
    var stores := s.cur.StoresOf(AlignAddress(a));
    && Peek(m.image, a) == PersistedByte(s.past, choice, a).GetOr(Peek(raw, a))
    && (s.past != [] ==> SameBytes(stores, m.history, a))
    && (s.past == [] ==> forall p: nat :: ByteUpTo(stores, a, p).GetOr(Peek(raw, a)) == ByteUpTo(m.history, a, p).GetOr(Peek(raw, a)))
  }

  ghost predicate Agree(raw: nat -> Byte, s: State, m: Machine, choice: Choice)
  {
    && m.crashes == |s.past| && m.clock == s.clock
    && (forall line: nat :: s.cur.RangeOf(line).begin == m.Begin(line))
    && forall a: nat :: AgreeOn(raw, s, m, choice, a)
  }

  lemma SameColumn(past: seq<Exec>, loc: nat, size: nat, a: nat)
    requires InWord(loc, size) && loc <= a < loc + size
    ensures ColumnOf(past, a) == ColumnOf(past, loc)
  {
    SameWordSameLine(loc, size, a);
  }

  lemma StartAgrees(raw: nat -> Byte, choice: Choice)
    ensures Agree(raw, Start(), PowerOn(raw), choice)
  {
    forall a: nat
      ensures AgreeOn(raw, Start(), PowerOn(raw), choice, a)
    {
    }
  }

  /** Recording original contents shows no reader anything new. */
  lemma EnsureAgrees(raw: nat -> Byte, s: State, m: Machine, choice: Choice, loc: nat)
    requires Inv(raw, s) && Agree(raw, s, m, choice)
    ensures Agree(raw, EnsureInitialValue(raw, s, loc), m, choice)
  {
    var t := EnsureInitialValue(raw, s, loc);
    forall a: nat
      ensures AgreeOn(raw, t, m, choice, a)
    {
      assert AgreeOn(raw, s, m, choice, a);
      if AlignAddress(a) != AlignAddress(loc) || All(s)[0].StoresOf(AlignAddress(loc)) != [] {
        SameView(raw, s, loc, a);
      } else {
        FirstTouch(raw, s, m, choice, loc, a);
      }
    }
  }

  lemma SameView(raw: nat -> Byte, s: State, loc: nat, a: nat)
    requires AlignAddress(a) != AlignAddress(loc) || All(s)[0].StoresOf(AlignAddress(loc)) != []
    ensures var t := EnsureInitialValue(raw, s, loc);
            ColumnOf(t.past, a) == ColumnOf(s.past, a) && t.cur.StoresOf(AlignAddress(a)) == s.cur.StoresOf(AlignAddress(a))
  {
    var t := EnsureInitialValue(raw, s, loc);
    forall e | 0 <= e < |s.past|
      ensures ColumnOf(t.past, a)[e] == ColumnOf(s.past, a)[e]
    {
    }
  }

  lemma {:induction false} PersistedNone(col: seq<Cell>, points: seq<nat>, a: nat)
    requires |points| == |col| && forall e :: 0 <= e < |col| ==> col[e].stores == []
    ensures Persisted(col, points, a).None?
    decreases |col|
  {
    if col != [] {
      PersistedNone(col[..|col| - 1], points[..|col| - 1], a);
    }
  }

  /** Only the oldest execution has a store of the byte. */
  lemma {:induction false} PersistedOldest(col: seq<Cell>, points: seq<nat>, a: nat, w: Write)
    requires |points| == |col| > 0 && col[0].stores == [w] && w.Covers(a) && w.clock == 0
    requires forall e :: 1 <= e < |col| ==> col[e].stores == []
    ensures Persisted(col, points, a) == Some(Source(0, w))
    decreases |col|
  {
    if |col| > 1 {
      PersistedOldest(col[..|col| - 1], points[..|col| - 1], a, w);
    } else {
      assert LastCovering([w], a, points[0]) == Some(w);
    }
  }

  lemma FirstTouch(raw: nat -> Byte, s: State, m: Machine, choice: Choice, loc: nat, a: nat)
    requires Inv(raw, s) && AgreeOn(raw, s, m, choice, a)
    requires AlignAddress(a) == AlignAddress(loc) && All(s)[0].StoresOf(AlignAddress(loc)) == []
    ensures AgreeOn(raw, EnsureInitialValue(raw, s, loc), m, choice, a)
  {
    var t := EnsureInitialValue(raw, s, loc);
    var word := AlignAddress(a);
    var init := InitStore(raw, word);
    assert init.Covers(a);
    assert forall e :: 0 <= e < |All(s)| ==> All(s)[e].StoresOf(word) == [];
    assert s.cur == All(s)[|s.past|];
    if s.past == [] {
      assert forall p: nat :: LastCovering([init], a, p) == Some(init);
      assert t.past == [];
    } else {
      var points := PointsOf(choice, |s.past|, CacheId(a));
      assert forall e :: 0 <= e < |s.past| ==> All(s)[e] == s.past[e];
      PersistedNone(ColumnOf(s.past, a), points, a);
      PersistedOldest(ColumnOf(t.past, a), points, a, init);
    }
  }

  /** What the eager reference reads from state `t`. */
  ghost function EagerRead(t: State, choice: Choice, loc: nat, size: nat, buffer: seq<Write>): (r: Slots)
    ensures |r| == size
  {
    ReadPersisted(ColumnOf(t.past, loc), PointsOf(choice, |t.past|, CacheId(loc)), FromCurrent(t, loc, size, buffer), loc)
  }

  /** It is what the machine reads. */
  lemma {:induction false} ReadsAgree(
      raw: nat -> Byte, t: State, m: Machine, choice: Choice, loc: nat, size: nat, buffer: seq<Write>)
    requires Inv(raw, t) && Touched(raw, t, loc) && Agree(raw, t, m, choice) && InWord(loc, size)
    ensures Bytes(EagerRead(t, choice, loc, size, buffer), loc) == m.ReadAll(buffer, loc, size)
  {
    hide Inv, AgreeOn, EagerRead, Persisted, LastCovering, Machine.Read;
    var result := EagerRead(t, choice, loc, size, buffer);
    forall i | 0 <= i < size
      ensures Bytes(result, loc)[i] == m.ReadAll(buffer, loc, size)[i]
    {
      ByteBacked(raw, t, loc, loc + i, PointsOf(choice, |t.past|, CacheId(loc)));
      assert AgreeOn(raw, t, m, choice, loc + i);
      ReadByteAgrees(raw, t, m, choice, loc, size, buffer, i);
    }
  }

  lemma {:induction false} ReadByteAgrees(
      raw: nat -> Byte, t: State, m: Machine, choice: Choice, loc: nat, size: nat, buffer: seq<Write>, i: nat)
    requires AgreeOn(raw, t, m, choice, loc + i) && m.clock == t.clock && InWord(loc, size) && i < size
    requires if t.past == [] then LastCovering(t.cur.StoresOf(AlignAddress(loc)), loc + i, t.clock).Some?
             else Persisted(ColumnOf(t.past, loc), PointsOf(choice, |t.past|, CacheId(loc)), loc + i).Some?
    ensures SlotByte(EagerRead(t, choice, loc, size, buffer)[i], loc + i) == m.Read(buffer, loc + i)
  {
    hide AgreeOn;
    SameWordSameLine(loc, size, loc + i);
    SameColumn(t.past, loc, size, loc + i);
    ByteAgrees(raw, t, m, choice, loc + i, buffer);
    FromCurrentAt(t, loc, size, buffer, i);
  }

  lemma ByteAgrees(raw: nat -> Byte, t: State, m: Machine, choice: Choice, a: nat, buffer: seq<Write>)
    requires AgreeOn(raw, t, m, choice, a) && m.clock == t.clock
    requires if t.past == [] then LastCovering(t.cur.StoresOf(AlignAddress(a)), a, t.clock).Some?
             else Persisted(ColumnOf(t.past, a), PointsOf(choice, |t.past|, CacheId(a)), a).Some?
    ensures var fromBuffer := LastCovering(buffer, a, 0);
            var fromCurrent := LastCovering(t.cur.StoresOf(AlignAddress(a)), a, t.clock);
            var fromPast := Persisted(ColumnOf(t.past, a), PointsOf(choice, |t.past|, CacheId(a)), a);
            m.Read(buffer, a) == if fromBuffer.Some? then fromBuffer.value.At(a)
                                 else if fromCurrent.Some? then fromCurrent.value.At(a)
                                 else fromPast.value.store.At(a)
  {
    var stores := t.cur.StoresOf(AlignAddress(a));
    if t.past != [] {
      assert ByteUpTo(stores, a, t.clock) == ByteUpTo(m.history, a, t.clock);
    } else {
      assert PersistedByte(t.past, choice, a) == None;
      assert ByteUpTo(stores, a, t.clock).GetOr(Peek(raw, a)) == ByteUpTo(m.history, a, t.clock).GetOr(Peek(raw, a));
    }
  }

  /** Committing a store, dropped or kept, is the same as storing its bytes. */
  lemma {:induction false} CommitAgrees(raw: nat -> Byte, s: State, m: Machine, choice: Choice, loc: nat, bytes: seq<Byte>, isInit: bool)
    requires Inv(raw, s) && Agree(raw, s, m, choice) && InWord(loc, |bytes|)
    ensures Agree(raw, CommitStore(raw, s, loc, bytes, isInit), MachineNext(m, Store(loc, bytes, isInit), choice), choice)
  {
    hide GoodExec, Initialized, AgreeOn;
    var t := EnsureInitialValue(raw, s, loc);
    var u := CommitStore(raw, s, loc, bytes, isInit);
    var n := MachineNext(m, Store(loc, bytes, isInit), choice);
    EnsureInv(raw, s, loc);
    EnsureAgrees(raw, s, m, choice, loc);
    forall a: nat
      ensures AgreeOn(raw, u, n, choice, a)
    {
      CommitOn(raw, t, u, m, choice, loc, bytes, isInit, a);
    }
    BeginsCopied(s, u, m, n);
  }

  lemma {:induction false} CommitOn(
      raw: nat -> Byte, t: State, u: State, m: Machine, choice: Choice, loc: nat, bytes: seq<Byte>, isInit: bool, a: nat)
    requires AgreeOn(raw, t, m, choice, a) && InWord(loc, |bytes|) && t.clock == m.clock && ClocksUpTo(t.cur, t.clock)
    requires u.past == t.past
    requires u.cur.StoresOf(AlignAddress(a)) ==
             if AlignAddress(a) == AlignAddress(loc)
             then AddStore(t.cur.StoresOf(AlignAddress(a)), Write(loc, bytes, t.clock + 1, isInit))
             else t.cur.StoresOf(AlignAddress(a))
    ensures AgreeOn(raw, u, MachineNext(m, Store(loc, bytes, isInit), choice), choice, a)
  {
    hide PersistedByte, ByteUpTo, AddStore;
    var w := Write(loc, bytes, t.clock + 1, isInit);
    if AlignAddress(a) == AlignAddress(loc) {
      CommitByte(raw, t, m, choice, a, w);
    } else {
      OtherWord(w, loc, |bytes|, a);
      AppendOther(m.history, w, a);
    }
  }

  lemma AppendOther(history: seq<Write>, w: Write, a: nat)
    requires !w.Covers(a)
    ensures forall p: nat :: ByteUpTo(history + [w], a, p) == ByteUpTo(history, a, p)
  {
    forall p: nat
      ensures ByteUpTo(history + [w], a, p) == ByteUpTo(history, a, p)
    {
      LastCoveringAppend(history, w, a, p);
    }
  }

  lemma BeginsCopied(s: State, u: State, m: Machine, n: Machine)
    requires u.cur.ranges == s.cur.ranges && n.begins == m.begins
    requires forall line: nat :: s.cur.RangeOf(line).begin == m.Begin(line)
    ensures forall line: nat :: u.cur.RangeOf(line).begin == n.Begin(line)
  {
    forall line: nat
      ensures u.cur.RangeOf(line).begin == n.Begin(line)
    {
      assert s.cur.RangeOf(line).begin == m.Begin(line);
    }
  }

  lemma OtherWord(w: Write, loc: nat, size: nat, a: nat)
    requires w.loc == loc && |w.bytes| == size && InWord(loc, size) && AlignAddress(a) != AlignAddress(loc)
    ensures !w.Covers(a)
  {
    if w.Covers(a) {
      SameWordSameLine(loc, size, a);
    }
  }

  lemma {:induction false} CommitByte(raw: nat -> Byte, t: State, m: Machine, choice: Choice, a: nat, w: Write)
    requires AgreeOn(raw, t, m, choice, a)
    requires forall x :: x in t.cur.StoresOf(AlignAddress(a)) ==> x.clock <= w.clock
    ensures var stores := AddStore(t.cur.StoresOf(AlignAddress(a)), w);
            && (t.past != [] ==> SameBytes(stores, m.history + [w], a))
            && (t.past == [] ==> forall p: nat ::
                  ByteUpTo(stores, a, p).GetOr(Peek(raw, a)) == ByteUpTo(m.history + [w], a, p).GetOr(Peek(raw, a)))
  {
    var kept := t.cur.StoresOf(AlignAddress(a));
    if t.past != [] {
      AddStoreSameBytes(kept, m.history, w, a);
    } else {
      forall p: nat
        ensures ByteUpTo(AddStore(kept, w), a, p).GetOr(Peek(raw, a)) == ByteUpTo(m.history + [w], a, p).GetOr(Peek(raw, a))
      {
        AddStoreByte(kept, w, a, p);
        LastCoveringAppend(m.history, w, a, p);
        assert ByteUpTo(kept, a, p).GetOr(Peek(raw, a)) == ByteUpTo(m.history, a, p).GetOr(Peek(raw, a));
      }
    }
  }

  /** The crash turns the running execution into the newest past one, and the image follows. */
  lemma CrashAgrees(raw: nat -> Byte, s: State, m: Machine, choice: Choice)
    requires Agree(raw, s, m, choice)
    ensures Agree(raw, Next(raw, s, ByteEvent.Crash), MachineNext(m, Crash, choice), choice)
  {
    var t := Next(raw, s, ByteEvent.Crash);
    var n := MachineNext(m, Crash, choice);
    forall a: nat
      ensures AgreeOn(raw, t, n, choice, a)
    {
      assert AgreeOn(raw, s, m, choice, a);
      var p := Pick(choice, |s.past|, CacheId(a));
      CrashByte(s, choice, a);
      assert Peek(n.image, a) == m.ByteAt(a, p);
    }
  }

  lemma CrashByte(s: State, choice: Choice, a: nat)
    ensures var here := ByteUpTo(s.cur.StoresOf(AlignAddress(a)), a, Pick(choice, |s.past|, CacheId(a)));
            PersistedByte(s.past + [s.cur], choice, a) == if here.Some? then here else PersistedByte(s.past, choice, a)
  {
    var n := |s.past|;
    var col, points := ColumnOf(s.past + [s.cur], a), PointsOf(choice, n + 1, CacheId(a));
    assert col[..n] == ColumnOf(s.past, a);
    assert points[..n] == PointsOf(choice, n, CacheId(a));
  }

  /** Picking points above the begins of all lines. */
  lemma BeginsAgree(s: State, m: Machine, choice: Choice)
    requires m.crashes == |s.past| && forall line: nat :: s.cur.RangeOf(line).begin == m.Begin(line)
    ensures (forall line: nat :: s.cur.RangeOf(line).Contains(Pick(choice, |s.past|, line))) ==> BeginsReached(m, choice)
    ensures Unbounded(s.cur) && BeginsReached(m, choice)
            ==> forall line: nat :: s.cur.RangeOf(line).Contains(Pick(choice, |s.past|, line))
  {
    assert forall line: nat :: s.cur.RangeOf(line).begin == m.Begin(line);
  }

  lemma {:induction false} LoadReads(
      raw: nat -> Byte, s: State, m: Machine, choice: Choice, loc: nat, size: nat, buffer: seq<Write>)
    requires Inv(raw, s) && Agree(raw, s, m, choice) && InWord(loc, size)
    ensures Bytes(EagerRead(EnsureInitialValue(raw, s, loc), choice, loc, size, buffer), loc) == m.ReadAll(buffer, loc, size)
  {
    EnsureInv(raw, s, loc);
    EnsureAgrees(raw, s, m, choice, loc);
    ReadsAgree(raw, EnsureInitialValue(raw, s, loc), m, choice, loc, size, buffer);
  }

  /** What the eager reference can do, the machine can do. */
  lemma {:induction false} StepCan(raw: nat -> Byte, s: State, m: Machine, choice: Choice, ev: Event<Slots>)
    requires Inv(raw, s) && Agree(raw, s, m, choice) && WellFormed(ev) && EagerCan(raw, s, ev, choice)
    ensures MachineCan(m, EraseEvent(ev), choice)
  {
    match ev
    case Load(loc, size, buffer, result) => LoadReads(raw, s, m, choice, loc, size, buffer);
    case Crash => BeginsAgree(s, m, choice);
    case _ =>
  }

  lemma {:induction false} StepAgrees(raw: nat -> Byte, s: State, m: Machine, choice: Choice, ev: Event<Slots>)
    requires Inv(raw, s) && Agree(raw, s, m, choice) && WellFormed(ev)
    ensures Agree(raw, Next(raw, s, ev), MachineNext(m, EraseEvent(ev), choice), choice)
  {
    hide Inv, Agree;
    match ev
    case Store(loc, bytes, isInit) => CommitAgrees(raw, s, m, choice, loc, bytes, isInit);
    case Load(loc, size, buffer, result) =>
      EnsureAgrees(raw, s, m, choice, loc);
      ClockAgrees(raw, EnsureInitialValue(raw, s, loc), m, choice);
    case Crash => CrashAgrees(raw, s, m, choice);
    case WriteBack(line, begin) => WriteBackAgrees(raw, s, m, choice, line, begin);
    case Other => ClockAgrees(raw, s, m, choice);
  }

  lemma {:induction false} ClockAgrees(raw: nat -> Byte, s: State, m: Machine, choice: Choice)
    requires Agree(raw, s, m, choice)
    ensures Agree(raw, s.(clock := s.clock + 1), m.(clock := m.clock + 1), choice)
  {
    var t, n := s.(clock := s.clock + 1), m.(clock := m.clock + 1);
    forall a: nat
      ensures AgreeOn(raw, t, n, choice, a)
    {
      assert AgreeOn(raw, s, m, choice, a);
    }
    BeginsCopied(s, t, m, n);
  }

  lemma WriteBackAgrees(raw: nat -> Byte, s: State, m: Machine, choice: Choice, line: nat, begin: nat)
    requires Agree(raw, s, m, choice)
    ensures Agree(raw, Next(raw, s, ByteEvent.WriteBack(line, begin)), MachineNext(m, WriteBack(line, begin), choice), choice)
  {
    var t := Next(raw, s, ByteEvent.WriteBack(line, begin));
    var n := MachineNext(m, WriteBack(line, begin), choice);
    forall l: nat
      ensures t.cur.RangeOf(l).begin == n.Begin(l)
    {
      assert s.cur.RangeOf(l).begin == m.Begin(l);
    }
    forall a: nat
      ensures AgreeOn(raw, t, n, choice, a)
    {
      assert AgreeOn(raw, s, m, choice, a);
      assert t.cur.StoresOf(AlignAddress(a)) == s.cur.StoresOf(AlignAddress(a));
    }
  }

  lemma ErasePrefix(evs: seq<Event<Slots>>)
    requires evs != []
    ensures Erase(evs) != [] && Erase(evs)[..|evs| - 1] == Erase(evs[..|evs| - 1])
    ensures Erase(evs)[|evs| - 1] == EraseEvent(evs[|evs| - 1])
  {
  }

  /** Every run of the eager reference is, value for value, a run of the machine. */
  lemma {:induction false} EagerIsMachine(raw: nat -> Byte, evs: seq<Event<Slots>>, choice: Choice)
    requires EagerValid(raw, evs, choice)
    ensures MachineValid(raw, Erase(evs), choice) && Inv(raw, StateAfter(raw, evs))
    ensures Agree(raw, StateAfter(raw, evs), MachineState(raw, Erase(evs), choice), choice)
  {
    hide Inv, Agree;
    if evs == [] {
      StartInv(raw);
      StartAgrees(raw, choice);
    } else {
      var n := |evs| - 1;
      ErasePrefix(evs);
      EagerIsMachine(raw, evs[..n], choice);
      NextInv(raw, StateAfter(raw, evs[..n]), evs[n]);
      StepCan(raw, StateAfter(raw, evs[..n]), MachineState(raw, Erase(evs[..n]), choice), choice, evs[n]);
      StepAgrees(raw, StateAfter(raw, evs[..n]), MachineState(raw, Erase(evs[..n]), choice), choice, evs[n]);
    }
  }

  /** The event of the eager reference that reads what it must under `choice`. */
  ghost function ResolveEvent(raw: nat -> Byte, s: State, ev: ByteEvent, choice: Choice): Event<Slots>
  {
    match ev
    case Store(loc, bytes, isInit) => Store(loc, bytes, isInit)
    case WriteBack(line, begin) => WriteBack(line, begin)
    case Load(loc, size, buffer, _) =>
      Load(loc, size, buffer, EagerRead(EnsureInitialValue(raw, s, loc), choice, loc, size, buffer))
    case Other => Other
    case Crash => Crash
  }

  lemma {:induction false} ResolveStep(raw: nat -> Byte, s: State, m: Machine, choice: Choice, ev: ByteEvent)
    requires Inv(raw, s) && Agree(raw, s, m, choice) && WellFormed(ev) && MachineCan(m, ev, choice)
    ensures var r := ResolveEvent(raw, s, ev, choice);
            WellFormed(r) && EagerCan(raw, s, r, choice) && EraseEvent(r) == ev
  {
    match ev
    case Load(loc, size, buffer, result) => LoadReads(raw, s, m, choice, loc, size, buffer);
    case Crash => BeginsAgree(s, m, choice);
    case _ =>
  }

  /** `evs` is the run `run` with read-from vectors, possible under `choice`. */
  ghost predicate Resolves(raw: nat -> Byte, run: seq<ByteEvent>, evs: seq<Event<Slots>>, choice: Choice)
  {
    EagerValid(raw, evs, choice) && Erase(evs) == run
  }

  lemma ResolvesNothing(raw: nat -> Byte, choice: Choice)
    ensures Resolves(raw, [], [], choice)
  {
  }

  lemma MachinePrefix(raw: nat -> Byte, run: seq<ByteEvent>, choice: Choice)
    requires run != [] && MachineValid(raw, run, choice)
    ensures var n := |run| - 1;
            && MachineValid(raw, run[..n], choice) && WellFormed(run[n])
            && MachineCan(MachineState(raw, run[..n], choice), run[n], choice)
  {
  }

  lemma {:induction false} ResolveNext(raw: nat -> Byte, run: seq<ByteEvent>, evs: seq<Event<Slots>>, ev: ByteEvent, choice: Choice)
    requires Resolves(raw, run, evs, choice)
    requires WellFormed(ev) && MachineCan(MachineState(raw, run, choice), ev, choice)
    ensures Resolves(raw, run + [ev], evs + [ResolveEvent(raw, StateAfter(raw, evs), ev, choice)], choice)
  {
    hide Inv, Agree, MachineCan, EagerCan, WellFormed, ResolveEvent, MachineState, MachineValid, StateAfter;
    EagerIsMachine(raw, evs, choice);
    var s := StateAfter(raw, evs);
    var r := ResolveEvent(raw, s, ev, choice);
    ResolveStep(raw, s, MachineState(raw, run, choice), choice, ev);
    SnocEager(raw, evs, r, choice);
  }

  lemma {:induction false} SnocEager(raw: nat -> Byte, evs: seq<Event<Slots>>, ev: Event<Slots>, choice: Choice)
    requires EagerValid(raw, evs, choice) && WellFormed(ev) && EagerCan(raw, StateAfter(raw, evs), ev, choice)
    ensures EagerValid(raw, evs + [ev], choice) && Erase(evs + [ev]) == Erase(evs) + [EraseEvent(ev)]
  {
    assert (evs + [ev])[..|evs|] == evs;
  }

  /** Every run of the machine is, value for value, a run of the eager reference. */
  lemma {:induction false} MachineIsEager(raw: nat -> Byte, run: seq<ByteEvent>, choice: Choice) returns (evs: seq<Event<Slots>>)
    requires MachineValid(raw, run, choice)
    ensures Resolves(raw, run, evs, choice)
  {
    hide *;
    if run == [] {
      evs := [];
      ResolvesNothing(raw, choice);
    } else {
      var n := |run| - 1;
      MachinePrefix(raw, run, choice);
      evs := MachineIsEager(raw, run[..n], choice);
      ResolveNext(raw, run[..n], evs, run[n], choice);
      evs := evs + [ResolveEvent(raw, StateAfter(raw, evs), run[n], choice)];
      assert run == run[..n] + [run[n]];
    }
  }

  /** What the checker lets the program see, and what a real machine may show it. */
  ghost predicate CheckerShows(raw: nat -> Byte, run: seq<ByteEvent>)
  {
    exists evs: seq<Event<Slots>> :: LazyValid(raw, evs) && Erase(evs) == run
  }

  ghost predicate MachineShows(raw: nat -> Byte, run: seq<ByteEvent>)
  {
    exists choice: Choice :: MachineValid(raw, run, choice)
  }

  /** However the run comes about, none of its loads meets an initialization store inside an interval. */
  ghost predicate MeetsNoInit(raw: nat -> Byte, run: seq<ByteEvent>)
  {
    forall evs, choice :: Resolves(raw, run, evs, choice) ==> InitFree(raw, evs)
  }

  /** Whatever the checker shows can happen, on every run. */
  lemma CheckerIsSound(raw: nat -> Byte, run: seq<ByteEvent>)
    requires CheckerShows(raw, run)
    ensures MachineShows(raw, run)
  {
    var evs: seq<Event<Slots>> :| LazyValid(raw, evs) && Erase(evs) == run;
    var choice := LazyRunExplained(raw, evs);
    EagerIsMachine(raw, evs, choice);
  }

  /**
   Main result: soundness and completeness of the checker. A run, given by its memory
   events and the values its loads return over any number of crashes, is one the checker
   explores only if it can happen on a machine with one flat memory whose cache lines were
   written back at some points; and it explores every such run in which no load meets an
   initialization store.
   */
  lemma CheckerIsExact(raw: nat -> Byte, run: seq<ByteEvent>)
    ensures CheckerShows(raw, run) ==> MachineShows(raw, run)
    ensures MeetsNoInit(raw, run) ==> (CheckerShows(raw, run) <==> MachineShows(raw, run))
  {
    if CheckerShows(raw, run) {
      CheckerIsSound(raw, run);
    }
    if MeetsNoInit(raw, run) && MachineShows(raw, run) {
      var choice: Choice :| MachineValid(raw, run, choice);
      var evs := MachineIsEager(raw, run, choice);
      LazyEagerEquivalent(raw, evs);
      assert LazyValid(raw, evs) && Erase(evs) == run;
    }
  }

  // ----- Runs that meet no initialization store -----

  /** The program issues no initialization store. */
  ghost predicate Plain<R>(run: seq<Event<R>>)
  {
    forall i :: 0 <= i < |run| && run[i].Store? ==> !run[i].isInit
  }

  ghost predicate PlainExec(x: Exec)
  {
    forall word: nat :: NoLateInit(x.StoresOf(word))
  }

  ghost predicate PlainState(s: State)
  {
    forall e :: 0 <= e < |All(s)| ==> PlainExec(All(s)[e])
  }

  lemma TouchPlain(raw: nat -> Byte, x: Exec, word: nat)
    requires PlainExec(x)
    ensures PlainExec(Touch(raw, x, word))
  {
    var y := Touch(raw, x, word);
    forall w: nat
      ensures NoLateInit(y.StoresOf(w))
    {
      assert NoLateInit(x.StoresOf(w));
    }
  }

  lemma EnsurePlain(raw: nat -> Byte, s: State, loc: nat)
    requires PlainState(s)
    ensures PlainState(EnsureInitialValue(raw, s, loc))
  {
    var t := EnsureInitialValue(raw, s, loc);
    TouchPlain(raw, All(s)[0], AlignAddress(loc));
    assert All(t) == All(s)[0 := Touch(raw, All(s)[0], AlignAddress(loc))];
  }

  lemma CommitPlain(raw: nat -> Byte, s: State, loc: nat, bytes: seq<Byte>)
    requires PlainState(s)
    ensures PlainState(CommitStore(raw, s, loc, bytes, false))
  {
    var t, u := EnsureInitialValue(raw, s, loc), CommitStore(raw, s, loc, bytes, false);
    EnsurePlain(raw, s, loc);
    assert All(u) == All(t)[|t.past| := u.cur];
    assert PlainExec(t.cur) by {
      assert All(t)[|t.past|] == t.cur;
    }
    forall w: nat
      ensures NoLateInit(u.cur.StoresOf(w))
    {
      assert NoLateInit(t.cur.StoresOf(w));
    }
  }

  lemma NextPlain(raw: nat -> Byte, s: State, ev: Event<Slots>)
    requires PlainState(s) && (ev.Store? ==> !ev.isInit)
    ensures PlainState(LazyNext(raw, s, ev))
  {
    var t := Next(raw, s, ev);
    assert PlainState(t) by {
      match ev
      case Store(loc, bytes, _) => CommitPlain(raw, s, loc, bytes);
      case Load(loc, _, _, _) =>
        EnsurePlain(raw, s, loc);
        assert All(t) == All(EnsureInitialValue(raw, s, loc));
      case WriteBack(line, begin) =>
        assert All(t) == All(s)[|s.past| := t.cur];
        assert All(s)[|s.past|] == s.cur;
        assert forall w: nat :: t.cur.StoresOf(w) == s.cur.StoresOf(w);
      case Other => assert All(t) == All(s);
      case Crash => assert All(t) == All(s) + [NO_EXEC];
    }
    var u := LazyNext(raw, s, ev);
    forall e | 0 <= e < |All(u)|
      ensures PlainExec(All(u)[e])
    {
      assert PlainExec(All(t)[e]);
      assert All(u)[e].stores == All(t)[e].stores;
      assert forall w: nat :: All(u)[e].StoresOf(w) == All(t)[e].StoresOf(w);
    }
  }

  lemma {:induction false} PlainInitFree(raw: nat -> Byte, evs: seq<Event<Slots>>)
    requires Plain(evs)
    ensures PlainState(LazyState(raw, evs)) && InitFree(raw, evs)
  {
    if evs != [] {
      var n := |evs| - 1;
      PlainInitFree(raw, evs[..n]);
      NextPlain(raw, LazyState(raw, evs[..n]), evs[n]);
      PlainLoad(raw, LazyState(raw, evs[..n]), evs[n]);
    }
  }

  lemma PlainLoad(raw: nat -> Byte, s: State, ev: Event<Slots>)
    requires PlainState(s)
    ensures !LoadMeetsInit(raw, s, ev)
  {
    if ev.Load? {
      var t := EnsureInitialValue(raw, s, ev.loc);
      EnsurePlain(raw, s, ev.loc);
      forall e | 0 <= e < |t.past|
        ensures NoLateInit(ColumnOf(t.past, ev.loc)[e].stores)
      {
        assert PlainExec(All(t)[e]);
      }
      WindowsAreRanges(ColumnOf(t.past, ev.loc), FromCurrent(t, ev.loc, ev.size, ev.buffer), ev.loc);
    }
  }

  /** Programs without initialization stores are checked exactly. */
  lemma PlainMeetsNoInit(raw: nat -> Byte, run: seq<ByteEvent>)
    requires Plain(run)
    ensures MeetsNoInit(raw, run)
  {
    forall evs: seq<Event<Slots>>, choice: Choice | Resolves(raw, run, evs, choice)
      ensures InitFree(raw, evs)
    {
      forall i | 0 <= i < |evs| && evs[i].Store?
        ensures !evs[i].isInit
      {
        assert run[i] == EraseEvent(evs[i]);
      }
      PlainInitFree(raw, evs);
    }
  }

  lemma UncrashedStep(raw: nat -> Byte, s: State, ev: Event<Slots>)
    requires s.past == [] && !ev.Crash?
    ensures LazyNext(raw, s, ev).past == [] && !LoadMeetsInit(raw, s, ev)
  {
  }

  /** So are runs without a crash. */
  lemma {:induction false} UncrashedInitFree(raw: nat -> Byte, evs: seq<Event<Slots>>)
    requires Event<Slots>.Crash !in evs
    ensures LazyState(raw, evs).past == [] && InitFree(raw, evs)
  {
    if evs != [] {
      hide LazyNext, LoadMeetsInit;
      var n := |evs| - 1;
      UncrashedInitFree(raw, evs[..n]);
      assert evs[n] in evs;
      UncrashedStep(raw, LazyState(raw, evs[..n]), evs[n]);
    } else {
      StartLazy(raw);
    }
  }

  lemma UncrashedMeetsNoInit(raw: nat -> Byte, run: seq<ByteEvent>)
    requires ByteEvent.Crash !in run
    ensures MeetsNoInit(raw, run)
  {
    forall evs: seq<Event<Slots>>, choice: Choice | Resolves(raw, run, evs, choice)
      ensures InitFree(raw, evs)
    {
      forall i | 0 <= i < |evs|
        ensures !evs[i].Crash?
      {
        assert run[i] == EraseEvent(evs[i]) && run[i] in run;
      }
      UncrashedInitFree(raw, evs);
    }
  }

  // ----- A run that the checker does not show -----

  ghost function Zeros(): nat -> Byte
  {
    a => 0
  }

  /** A store, an initialization store over it, a crash, and a load of the first value. */
  ghost function InitRun(): seq<ByteEvent>
  {
    [Store(0, [1], false), Store(0, [2], true), Crash, Load(0, 1, [], [1])]
  }

  ghost function InitRunStores(): seq<Write>
  {
    [InitStore(Zeros(), 0), Write(0, [1], 2, false), Write(0, [2], 3, true)]
  }

  /** A store of another byte over the newest one is kept. */
  lemma DiffersKept(ws: seq<Write>, prior: Write, w: Write)
    requires prior.Covers(w.loc) && |w.bytes| == 1 && prior.At(w.loc) != w.bytes[0]
    ensures AddStore(ws + [prior], w) == ws + [prior] + [w]
  {
    var n := w.loc - prior.loc;
    assert prior.bytes[n..n + 1][0] == prior.bytes[n];
    var all := ws + [prior];
    assert all[|all| - 1] == prior;
  }

  lemma InitRunLists()
    ensures var init, one, two := InitStore(Zeros(), 0), Write(0, [1], 2, false), Write(0, [2], 3, true);
            AddStore([init], one) == [init, one] && AddStore([init, one], two) == InitRunStores()
  {
    var init, one, two := InitStore(Zeros(), 0), Write(0, [1], 2, false), Write(0, [2], 3, true);
    assert init.Covers(0) && init.At(0) == 0;
    hide AddStore, InitStore;
    DiffersKept([], init, one);
    assert [] + [init] == [init] && [init] + [one] == [init, one];
    DiffersKept([init], one, two);
    assert [init, one] + [two] == [init, one, two];
  }

  lemma CommitIs(raw: nat -> Byte, s: State, x: Exec, bytes: seq<Byte>, isInit: bool, ws: seq<Write>)
    requires s.past == [] && EnsureInitialValue(raw, s, 0) == s.(cur := x)
    requires AddStore(x.StoresOf(0), Write(0, bytes, s.clock + 1, isInit)) == ws
    ensures CommitStore(raw, s, 0, bytes, isInit) == State([], x.(stores := x.stores[0 := ws]), s.clock + 1)
  {
    assert AlignAddress(0) == 0;
    hide AddStore, EnsureInitialValue;
  }

  /** What the two stores leave in the lists. */
  lemma InitRunCommits()
    ensures var raw := Zeros();
            var init, one := InitStore(raw, 0), Write(0, [1], 2, false);
            var s := State([], Exec(map[0 := [init, one]], map[]), 2);
            && CommitStore(raw, Start(), 0, [1], false) == s
            && CommitStore(raw, s, 0, [2], true) == State([], Exec(map[0 := InitRunStores()], map[]), 3)
  {
    InitRunLists();
    hide AddStore, CommitStore, InitStore, InitRunStores, Zeros;
    var raw := Zeros();
    var init, one := InitStore(raw, 0), Write(0, [1], 2, false);
    var x := Exec(map[0 := [init]], map[]);
    CommitIs(raw, Start(), x, [1], false, [init, one]);
    assert x.stores[0 := [init, one]] == map[0 := [init, one]];
    var y := Exec(map[0 := [init, one]], map[]);
    CommitIs(raw, State([], y, 2), y, [2], true, InitRunStores());
    assert y.stores[0 := InitRunStores()] == map[0 := InitRunStores()];
  }

  lemma InitRunState()
    ensures var evs := [Store(0, [1], false), Store(0, [2], true), Crash];
            LazyState(Zeros(), evs) == State([Exec(map[0 := InitRunStores()], map[])], NO_EXEC, FRESH_CLOCK)
  {
    hide LazyState, CommitStore, LazyValid, EagerValid, StateAfter;
    var raw, choice: Choice := Zeros(), (e, line) => 0;
    var none: seq<Event<Slots>> := [];
    InitRunCommits();
    LazySnoc(raw, none, Store(0, [1], false), choice);
    LazySnoc(raw, none + [Store(0, [1], false)], Store(0, [2], true), choice);
    LazySnoc(raw, none + [Store(0, [1], false)] + [Store(0, [2], true)], Crash, choice);
    assert none + [Store(0, [1], false)] + [Store(0, [2], true)] + [Crash] == [Store(0, [1], false), Store(0, [2], true), Crash];
    StartLazy(raw);
  }

  lemma StartLazy(raw: nat -> Byte)
    ensures var none: seq<Event<Slots>> := []; LazyState(raw, none) == Start()
  {
  }

  /** The load is offered nothing but the initialization store. */
  lemma InitRunOffers(s: State, r: Slots)
    requires s == State([Exec(map[0 := InitRunStores()], map[])], NO_EXEC, FRESH_CLOCK) && Offered(s, 0, 1, [], r)
    ensures Bytes(r, 0) == [2]
  {
    var col, ws := ColumnOf(s.past, 0), InitRunStores();
    assert col[0] == Cell(ws, Range(0, 0));
    assert Relevant(col[0], 0, 1, ws[2]);
    var wins, v := Windows(col, 0, 1), FromCurrent(s, 0, 1, []);
    assert v[0].None?;
    var points :| Within(wins, points) && ReadPersisted(wins, points, v, 0) == r;
    assert wins[0].range.Contains(points[0]);
    hide Persisted, Windows, FromCurrent;
    PersistedFrom(wins, points, 0, 0, ws[2]);
    assert r[0] == Some(Source(0, ws[2]));
    assert Bytes(r, 0)[0] == 2;
  }

  lemma InitRunNotShown(evs: seq<Event<Slots>>)
    requires Erase(evs) == InitRun()
    ensures !LazyValid(Zeros(), evs)
  {
    assert forall i :: 0 <= i < 4 ==> EraseEvent(evs[i]) == InitRun()[i];
    var r := evs[3].result;
    assert evs[..3] == [Store(0, [1], false), Store(0, [2], true), Crash];
    InitRunState();
    var s := LazyState(Zeros(), evs[..3]);
    assert EnsureInitialValue(Zeros(), s, 0) == s by {
      assert s.past[0 := s.past[0]] == s.past;
    }
    if Offered(s, 0, 1, [], r) {
      InitRunOffers(s, r);
    }
  }

  lemma MachineSnoc(raw: nat -> Byte, evs: seq<ByteEvent>, ev: ByteEvent, choice: Choice)
    ensures MachineState(raw, evs + [ev], choice) == MachineNext(MachineState(raw, evs, choice), ev, choice)
    ensures MachineValid(raw, evs + [ev], choice) <==>
            MachineValid(raw, evs, choice) && WellFormed(ev) && MachineCan(MachineState(raw, evs, choice), ev, choice)
  {
    assert (evs + [ev])[..|evs|] == evs;
  }

  lemma InitRunReads(m: Machine, choice: Choice)
    requires m.history == [Write(0, [1], 2, false), Write(0, [2], 3, true)] && Pick(choice, m.crashes, 0) == 2
    ensures MachineNext(m, Crash, choice).ReadAll([], 0, 1) == [1]
  {
    LastCoveringHit(m.history, 0, 0, 2);
    var n := MachineNext(m, Crash, choice);
    assert Peek(n.image, 0) == m.ByteAt(0, 2) == 1;
    assert n.Read([], 0) == 1;
    assert n.ReadAll([], 0, 1)[0] == n.Read([], 0 + 0);
  }

  lemma InitRunHappens(choice: Choice)
    requires forall e: nat, line: nat :: Pick(choice, e, line) == 2
    ensures MachineValid(Zeros(), InitRun(), choice)
  {
    var raw, run := Zeros(), InitRun();
    var none: seq<ByteEvent> := [];
    MachineSnoc(raw, none, run[0], choice);
    MachineSnoc(raw, none + [run[0]], run[1], choice);
    MachineSnoc(raw, none + [run[0]] + [run[1]], run[2], choice);
    MachineSnoc(raw, none + [run[0]] + [run[1]] + [run[2]], run[3], choice);
    assert none + [run[0]] + [run[1]] + [run[2]] + [run[3]] == run;
    var m := MachineState(raw, none + [run[0]] + [run[1]], choice);
    assert m.history == [Write(0, [1], 2, false), Write(0, [2], 3, true)];
    InitRunReads(m, choice);
  }

  /** The checker is not exact on every run: it takes an initialization store for written back. */
  lemma InitStoreLosesRun()
    ensures MachineShows(Zeros(), InitRun()) && !CheckerShows(Zeros(), InitRun())
  {
    var choice: Choice := (e, line) => 2;
    InitRunHappens(choice);
    forall evs: seq<Event<Slots>> | Erase(evs) == InitRun()
      ensures !LazyValid(Zeros(), evs)
    {
      InitRunNotShown(evs);
    }
  }
}
