/**
 What x86-TSO promises of the memory the threads see: every store of a thread is
 committed once and in program order, and a load returns the newest of the thread's own
 buffered stores or else the byte of one flat memory.
 */
module TsoMemory {
  import opened Wrappers
  import opened Memory
  import opened Column
  import opened Engine
  import opened StoreBuffers
  import opened ByteMachine
  import opened Tso

  // ----- Program order -----

  ghost function Writes(actions: seq<Action>): seq<Action>
  {
    if actions == [] then []
    else (if actions[0].kind.OpWrite? then [actions[0]] else []) + Writes(actions[1..])
  }

  lemma {:induction false} WritesAppend(actions: seq<Action>, a: Action)
    ensures Writes(actions + [a]) == Writes(actions) + if a.kind.OpWrite? then [a] else []
  {
    if actions == [] {
      assert [a][1..] == [];
    } else {
      WritesAppend(actions[1..], a);
      assert (actions + [a])[1..] == actions[1..] + [a];
    }
  }

  /** The stores thread `t` issues and commits in one step. */
  ghost function IssuedBy<R>(c: Cpu, s: Step<R>, t: nat): seq<Action>
  {
    if s.Issuing? && s.t == t && s.kind.OpWrite? then [NewAction(c.ThreadOf(t), s.kind, s.loc, s.bytes, c.clock)] else []
  }

  ghost function CommittedBy<R>(c: Cpu, s: Step<R>, t: nat): seq<Action>
    requires CanStep(c, s)
  {
    if s.Evicting? && s.t == t && c.ThreadOf(t).storeBuffer[0].kind.OpWrite? then [c.ThreadOf(t).storeBuffer[0]] else []
  }

  /** The stores thread `t` has issued in the running execution. */
  ghost function Issued<R>(steps: seq<Step<R>>, t: nat): seq<Action>
    requires Runs(steps)
  {
    if steps == [] then []
    else
      var n := |steps| - 1;
      if steps[n].PowerFail? then [] else Issued(steps[..n], t) + IssuedBy(CpuAfter(steps[..n]), steps[n], t)
  }

  /** The stores of thread `t` committed to memory in the running execution, in the order of the commits. */
  ghost function Committed<R>(steps: seq<Step<R>>, t: nat): seq<Action>
    requires Runs(steps)
  {
    if steps == [] then []
    else
      var n := |steps| - 1;
      if steps[n].PowerFail? then [] else Committed(steps[..n], t) + CommittedBy(CpuAfter(steps[..n]), steps[n], t)
  }

  lemma StepWrites<R>(c: Cpu, s: Step<R>, t: nat)
    requires CanStep(c, s) && !s.PowerFail?
    ensures CommittedBy(c, s, t) + Writes(StepNext(c, s).ThreadOf(t).storeBuffer) ==
            Writes(c.ThreadOf(t).storeBuffer) + IssuedBy(c, s, t)
  {
    var th := c.ThreadOf(t);
    if s.Issuing? && s.t == t {
      WritesAppend(th.storeBuffer, NewAction(th, s.kind, s.loc, s.bytes, c.clock));
    }
  }

  /** What is committed and what is still buffered is what was issued: each store once, in program order. */
  lemma {:induction false} CommittedInProgramOrder<R>(steps: seq<Step<R>>, t: nat)
    requires Runs(steps)
    ensures Committed(steps, t) + Writes(CpuAfter(steps).ThreadOf(t).storeBuffer) == Issued(steps, t)
  {
    if steps != [] {
      var n := |steps| - 1;
      var c := CpuAfter(steps[..n]);
      CommittedInProgramOrder(steps[..n], t);
      if !steps[n].PowerFail? {
        StepWrites(c, steps[n], t);
        Regroup(Committed(steps[..n], t), CommittedBy(c, steps[n], t), Writes(CpuAfter(steps).ThreadOf(t).storeBuffer),
                Writes(c.ThreadOf(t).storeBuffer), IssuedBy(c, steps[n], t));
      }
    }
  }

  lemma Regroup<T>(a: seq<T>, b: seq<T>, c: seq<T>, d: seq<T>, e: seq<T>)
    requires b + c == d + e
    ensures (a + b) + c == (a + d) + e
  {
    assert (a + b) + c == a + (b + c);
    assert (a + d) + e == a + (d + e);
  }

  // ----- One flat memory -----

  /** The byte that the last committed store left at `a`. */
  ghost function FlatByte<R>(raw: nat -> Byte, steps: seq<Step<R>>, a: nat): Byte
    requires Runs(steps)
  {
    if steps == [] then Peek(raw, a)
    else
      var n := |steps| - 1;
      var c := CpuAfter(steps[..n]);
      if steps[n].Evicting? && Overwrites(c.ThreadOf(steps[n].t).storeBuffer[0], a)
      then ByteOf(c.ThreadOf(steps[n].t).storeBuffer[0], a)
      else FlatByte(raw, steps[..n], a)
  }

  ghost predicate Overwrites(w: Action, a: nat)
  {
    w.kind.OpWrite? && w.loc <= a < w.loc + |w.bytes|
  }

  ghost function ByteOf(w: Action, a: nat): Byte
    requires Overwrites(w, a)
  {
    w.bytes[a - w.loc]
  }

  /** The byte of the newest store of a store buffer to `a`. */
  ghost function NewestOwn(actions: seq<Action>, a: nat): Option<Byte>
  {
    if actions == [] then None
    else
      var n := |actions| - 1;
      if Overwrites(actions[n], a) then Some(ByteOf(actions[n], a)) else NewestOwn(actions[..n], a)
  }

  /** What thread `t` reads from `a` on a TSO machine. */
  ghost function TsoByte<R>(raw: nat -> Byte, steps: seq<Step<R>>, t: nat, a: nat): Byte
    requires Runs(steps)
  {
    NewestOwn(CpuAfter(steps).ThreadOf(t).storeBuffer, a).GetOr(FlatByte(raw, steps, a))
  }

  ghost predicate NoCrash<R>(steps: seq<Step<R>>)
  {
    PowerFail !in steps
  }

  type ByteStep = Step<seq<Byte>>

  ghost predicate TsoRead(raw: nat -> Byte, before: seq<ByteStep>, s: ByteStep)
    requires Runs(before)
  {
    s.Reading? ==> |s.result| == s.size && forall i :: 0 <= i < s.size ==> s.result[i] == TsoByte(raw, before, s.t, s.loc + i)
  }

  /** Every read of the run returns what a TSO machine returns. */
  ghost predicate TsoReads(raw: nat -> Byte, steps: seq<ByteStep>)
    requires Runs(steps)
  {
    steps == [] ||
    var n := |steps| - 1;
    TsoReads(raw, steps[..n]) && TsoRead(raw, steps[..n], steps[n])
  }

  lemma {:induction false} BufferedByte(actions: seq<Action>, a: nat)
    ensures ByteUpTo(Buffered(actions), a, 0) == NewestOwn(actions, a)
  {
    if actions == [] {
    } else {
      var n := |actions| - 1;
      BufferedByte(actions[..n], a);
      LastCoveringAppend(Buffered(actions[..n]), Write(actions[n].loc, actions[n].bytes, 0, actions[n].IsInitialization()), a, 0);
      if !actions[n].kind.OpWrite? {
        assert Buffered(actions) == Buffered(actions[..n]);
      }
    }
  }

  // ----- The machine of module ByteMachine over the events of a run -----

  /** The threads and the machine agree on the last sequence number and on the starts of the intervals. */
  ghost predicate InStep(c: Cpu, m: Machine)
  {
    && m.clock == c.clock && HistoryUpTo(m)
    && forall line: nat :: m.Begin(line) == BeginOf(c.begins, line)
  }

  ghost function After(m: Machine, evs: seq<ByteEvent>, choice: Choice): Machine
    requires |evs| <= 1
  {
    if evs == [] then m else MachineNext(m, evs[0], choice)
  }

  lemma BeginInStep(c: Cpu, m: Machine, d: Cpu, line: nat, begin: nat, choice: Choice)
    requires InStep(c, m) && d.clock == c.clock + 1 && d.begins == c.begins[line := begin]
    ensures InStep(d, MachineNext(m, WriteBack(line, begin), choice))
  {
    var u := MachineNext(m, WriteBack(line, begin), choice);
    forall l: nat
      ensures u.Begin(l) == BeginOf(d.begins, l)
    {
      assert m.Begin(l) == BeginOf(c.begins, l);
    }
  }

  lemma TickInStep(c: Cpu, m: Machine, d: Cpu, ev: ByteEvent, choice: Choice)
    requires InStep(c, m) && d.clock == c.clock + 1 && d.begins == c.begins
    requires !ev.WriteBack? && !ev.Crash?
    ensures InStep(d, MachineNext(m, ev, choice))
  {
    var u := MachineNext(m, ev, choice);
    forall l: nat
      ensures u.Begin(l) == BeginOf(d.begins, l)
    {
      assert m.Begin(l) == BeginOf(c.begins, l);
    }
  }

  lemma StepInStep(c: Cpu, m: Machine, s: ByteStep, choice: Choice)
    requires CanStep(c, s) && InStep(c, m) && AllGood(c)
    ensures InStep(StepNext(c, s), After(m, Emitted(c, s), choice))
  {
    hide InStep, Issue, Evict, Drain, MachineNext;
    var d, out := StepNext(c, s), Emitted(c, s);
    match s
    case Issuing(_, _, _, _) => SameInStep(c, m, d);
    case Evicting(t) =>
      var a := c.ThreadOf(t).storeBuffer[0];
      if a.kind == OpClflushOpt {
        SameInStep(c, m, d);
      } else if a.kind == OpClflush {
        BeginInStep(c, m, d, a.Line(), d.begins[a.Line()], choice);
      } else {
        TickInStep(c, m, d, out[0], choice);
      }
    case Draining(t) =>
      var f := c.ThreadOf(t).flushBuffer[0];
      DrainIsFlush(c, t);
      BeginInStep(c, m, d, f.Line(), d.begins[f.Line()], choice);
    case PowerFail => BootInStep(m, choice);
    case _ => TickInStep(c, m, d, out[0], choice);
  }

  lemma SameInStep(c: Cpu, m: Machine, d: Cpu)
    requires InStep(c, m) && d.clock == c.clock && d.begins == c.begins
    ensures InStep(d, m)
  {
  }

  lemma BootInStep(m: Machine, choice: Choice)
    ensures InStep(Boot(), MachineNext(m, Crash, choice))
  {
  }

  lemma DrainIsFlush(c: Cpu, t: nat)
    requires AllGood(c) && c.ThreadOf(t).flushBuffer != []
    ensures c.ThreadOf(t).flushBuffer[0].kind == OpClflushOpt
  {
    var th := c.ThreadOf(t);
    assert Good(th, c.clock, c.begins) && th.flushBuffer[0] in th.flushBuffer;
    assert FlushesLeft(th);
  }

  lemma {:induction false} RunInStep(raw: nat -> Byte, steps: seq<ByteStep>, choice: Choice)
    requires Runs(steps)
    ensures InStep(CpuAfter(steps), MachineState(raw, EventsOf(steps), choice))
  {
    if steps != [] {
      var n := |steps| - 1;
      RunInStep(raw, steps[..n], choice);
      RunGood(steps[..n]);
      EventsSnoc(raw, steps, choice);
      StepInStep(CpuAfter(steps[..n]), MachineState(raw, EventsOf(steps[..n]), choice), steps[n], choice);
    }
  }

  lemma EventsSnoc(raw: nat -> Byte, steps: seq<ByteStep>, choice: Choice)
    requires Runs(steps) && steps != []
    ensures var n := |steps| - 1;
            var evs := EventsOf(steps[..n]);
            var out := Emitted(CpuAfter(steps[..n]), steps[n]);
            && |out| <= 1
            && MachineState(raw, EventsOf(steps), choice) == After(MachineState(raw, evs, choice), out, choice)
            && (out == [] ==> EventsOf(steps) == evs)
            && (out != [] ==> (MachineValid(raw, EventsOf(steps), choice) <==>
                               MachineValid(raw, evs, choice) && WellFormed(out[0]) && MachineCan(MachineState(raw, evs, choice), out[0], choice)))
  {
    var n := |steps| - 1;
    var evs := EventsOf(steps[..n]);
    var out := Emitted(CpuAfter(steps[..n]), steps[n]);
    if out == [] {
      assert EventsOf(steps) == evs;
    } else {
      assert out == [out[0]];
      MachineSnoc(raw, evs, out[0], choice);
    }
  }

  // ----- Loads without a crash -----

  lemma AppendByte(history: seq<Write>, w: Write, a: nat, clock: nat)
    requires (forall x :: x in history ==> x.clock <= clock) && w.clock == clock + 1
    ensures ByteUpTo(history + [w], a, clock + 1) == if w.Covers(a) then Some(w.At(a)) else ByteUpTo(history, a, clock)
  {
    LastCoveringAppend(history, w, a, clock + 1);
    LastCoveringBetween(history, a, clock, clock + 1);
  }

  lemma LaterClock(history: seq<Write>, a: nat, clock: nat)
    requires forall x :: x in history ==> x.clock <= clock
    ensures ByteUpTo(history, a, clock + 1) == ByteUpTo(history, a, clock)
  {
    LastCoveringBetween(history, a, clock, clock + 1);
  }

  /** The flat byte after one more step. */
  lemma FlatStep(c: Cpu, m: Machine, s: ByteStep, choice: Choice, a: nat)
    requires CanStep(c, s) && InStep(c, m) && !s.PowerFail?
    ensures var u := After(m, Emitted(c, s), choice);
            u.ByteAt(a, u.clock) ==
            if s.Evicting? && Overwrites(c.ThreadOf(s.t).storeBuffer[0], a) then ByteOf(c.ThreadOf(s.t).storeBuffer[0], a)
            else m.ByteAt(a, m.clock)
  {
    hide Issue, Evict, Drain, BeginsAfter, BeginOf, ByteUpTo, StepNext, Machine.Begin;
    LaterClock(m.history, a, m.clock);
    if s.Evicting? {
      var h := c.ThreadOf(s.t).storeBuffer[0];
      AppendByte(m.history, Write(h.loc, h.bytes, m.clock + 1, h.IsInitialization()), a, m.clock);
    }
  }

  /** Although every store keeps its own number and redundant ones are dropped from the lists, without a crash memory is flat. */
  lemma {:induction false} FlatMemory(raw: nat -> Byte, steps: seq<ByteStep>, choice: Choice, a: nat)
    requires Runs(steps) && NoCrash(steps)
    ensures var m := MachineState(raw, EventsOf(steps), choice);
            m.ByteAt(a, m.clock) == FlatByte(raw, steps, a)
  {
    if steps != [] {
      var n := |steps| - 1;
      FlatMemory(raw, steps[..n], choice, a);
      RunInStep(raw, steps[..n], choice);
      EventsSnoc(raw, steps, choice);
      assert steps[n] in steps;
      FlatStep(CpuAfter(steps[..n]), MachineState(raw, EventsOf(steps[..n]), choice), steps[n], choice, a);
    }
  }

  lemma BytesAre(r: seq<Byte>, m: Machine, buffer: seq<Write>, loc: nat, size: nat, raw: nat -> Byte, steps: seq<ByteStep>, t: nat)
    requires Runs(steps)
    requires forall a: nat :: m.Read(buffer, a) == TsoByte(raw, steps, t, a)
    ensures r == m.ReadAll(buffer, loc, size) <==> |r| == size && forall i :: 0 <= i < size ==> r[i] == TsoByte(raw, steps, t, loc + i)
  {
    hide TsoByte;
    var bytes := m.ReadAll(buffer, loc, size);
    if |r| == size && forall i :: 0 <= i < size ==> r[i] == TsoByte(raw, steps, t, loc + i) {
      assert forall i :: 0 <= i < size ==> r[i] == bytes[i];
    }
  }

  lemma ReadIsTso(raw: nat -> Byte, steps: seq<ByteStep>, s: ByteStep, choice: Choice)
    requires Runs(steps) && NoCrash(steps) && s.Reading? && CanStep(CpuAfter(steps), s)
    ensures var m := MachineState(raw, EventsOf(steps), choice);
            MachineCan(m, Emitted(CpuAfter(steps), s)[0], choice) <==> TsoRead(raw, steps, s)
  {
    hide MachineState, CpuAfter, Runs, EventsOf, FlatByte, NewestOwn, ByteUpTo;
    var m := MachineState(raw, EventsOf(steps), choice);
    var c := CpuAfter(steps);
    var buffer := Buffered(c.ThreadOf(s.t).storeBuffer);
    RunInStep(raw, steps, choice);
    forall a: nat
      ensures m.Read(buffer, a) == TsoByte(raw, steps, s.t, a)
    {
      FlatMemory(raw, steps, choice, a);
      BufferedByte(c.ThreadOf(s.t).storeBuffer, a);
    }
    hide Machine.Read, TsoByte, Buffered;
    BytesAre(s.result, m, buffer, s.loc, s.size, raw, steps, s.t);
  }

  lemma EmittedFits(c: Cpu, s: ByteStep)
    requires CanStep(c, s) && AllStores(c)
    ensures forall ev :: ev in Emitted(c, s) ==> WellFormed(ev)
  {
    if s.Evicting? {
      assert FitsAll(c.ThreadOf(s.t).storeBuffer);
    }
  }

  ghost predicate FitsAll(actions: seq<Action>)
  {
    forall a :: a in actions && a.kind.OpWrite? ==> InWord(a.loc, |a.bytes|)
  }

  /** Only stores inside a word are buffered. */
  ghost predicate AllStores(c: Cpu)
  {
    forall t: nat :: FitsAll(c.ThreadOf(t).storeBuffer)
  }

  lemma StepStores<R>(c: Cpu, s: Step<R>)
    requires CanStep(c, s) && AllStores(c)
    ensures AllStores(StepNext(c, s))
  {
    var d := StepNext(c, s);
    forall t: nat
      ensures FitsAll(d.ThreadOf(t).storeBuffer)
    {
      assert FitsAll(c.ThreadOf(t).storeBuffer);
    }
  }

  lemma {:induction false} RunStores<R>(steps: seq<Step<R>>)
    requires Runs(steps)
    ensures AllStores(CpuAfter(steps))
  {
    if steps != [] {
      var n := |steps| - 1;
      RunStores(steps[..n]);
      StepStores(CpuAfter(steps[..n]), steps[n]);
    }
  }

  lemma OtherStepsCan(c: Cpu, m: Machine, s: ByteStep, choice: Choice)
    requires CanStep(c, s) && AllStores(c) && !s.Reading? && !s.PowerFail?
    ensures forall ev :: ev in Emitted(c, s) ==> WellFormed(ev) && MachineCan(m, ev, choice)
  {
    EmittedFits(c, s);
  }

  lemma MachineIsTsoStep(raw: nat -> Byte, steps: seq<ByteStep>, choice: Choice)
    requires Runs(steps) && NoCrash(steps) && steps != []
    ensures var n := |steps| - 1;
            MachineValid(raw, EventsOf(steps), choice) <==>
            MachineValid(raw, EventsOf(steps[..n]), choice) && TsoRead(raw, steps[..n], steps[n])
  {
    hide MachineState, MachineValid, AllStores, TsoByte, WellFormed, CpuAfter, EventsOf, MachineCan;
    var n := |steps| - 1;
    var c := CpuAfter(steps[..n]);
    var m := MachineState(raw, EventsOf(steps[..n]), choice);
    EventsSnoc(raw, steps, choice);
    RunStores(steps[..n]);
    assert steps[n] in steps;
    if steps[n].Reading? {
      EmittedFits(c, steps[n]);
      ReadIsTso(raw, steps[..n], steps[n], choice);
    } else {
      OtherStepsCan(c, m, steps[n], choice);
    }
  }

  lemma {:induction false} MachineIsTso(raw: nat -> Byte, steps: seq<ByteStep>, choice: Choice)
    requires Runs(steps) && NoCrash(steps)
    ensures MachineValid(raw, EventsOf(steps), choice) <==> TsoReads(raw, steps)
  {
    if steps != [] {
      MachineIsTso(raw, steps[..|steps| - 1], choice);
      MachineIsTsoStep(raw, steps, choice);
    }
  }

  lemma EmittedUncrashed(c: Cpu, s: ByteStep)
    requires CanStep(c, s) && !s.PowerFail?
    ensures ByteEvent.Crash !in Emitted(c, s)
  {
  }

  lemma {:induction false} UncrashedEvents(steps: seq<ByteStep>)
    requires Runs(steps) && NoCrash(steps)
    ensures ByteEvent.Crash !in EventsOf(steps)
  {
    if steps != [] {
      hide CpuAfter, StepNext, Emitted;
      var n := |steps| - 1;
      UncrashedEvents(steps[..n]);
      assert steps[n] in steps;
      EmittedUncrashed(CpuAfter(steps[..n]), steps[n]);
    }
  }

  /**
   Refinement of x86-TSO: without a crash, the checker lets the reads of a run of threads
   return exactly what store buffers over one flat memory give, although it numbers every
   store, keeps them all in lists and drops the redundant ones.
   */
  lemma CheckerRefinesTso(raw: nat -> Byte, steps: seq<ByteStep>)
    requires Runs(steps) && NoCrash(steps)
    ensures CheckerShows(raw, EventsOf(steps)) <==> TsoReads(raw, steps)
  {
    CheckerIsExact(raw, EventsOf(steps));
    UncrashedEvents(steps);
    UncrashedMeetsNoInit(raw, EventsOf(steps));
    var choice: Choice := (e, line) => 0;
    MachineIsTso(raw, steps, choice);
    if other: Choice :| MachineValid(raw, EventsOf(steps), other) {
      MachineIsTso(raw, steps, other);
    }
  }
}
