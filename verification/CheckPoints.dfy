/**
 The checks for a crash that a run really makes. A run is a sequence of what the program
 makes the checker do; its store buffers are evicted and its flush buffers drained with the
 checks on the way. Every point that module CrashPoints counts as a check is one that the
 run makes, and if the answer there is yes the run crashes there and nowhere else.
 */
module CheckPoints {
  import opened Memory
  import opened StoreList
  import opened Engine
  import opened StoreBuffers
  import opened ByteMachine
  import opened Tso
  import opened TsoMemory
  import opened CrashPoints
  import opened Fences
  import opened Eviction

  // ----- Runs of the checker -----

  /** The store buffers and flush buffers of the threads, and the running execution. */
  datatype World = World(threads: map<nat, Thread>, core: Core)
  {
    function ThreadOf(t: nat): Thread
    {
      if t in threads then threads[t] else IDLE
    }
  }

  datatype Act =
    | Pends(loc: nat)
    | Buffers(t: nat, kind: Kind, loc: nat, bytes: seq<Byte>)
    | Empties(t: nat, n: nat)
    | Drains(t: nat)
    | Reads(t: nat, loc: nat, size: nat, result: seq<Byte>)
    | Ticks

  const FRESH_WORLD: World := World(map[], Core(NO_EXEC, FRESH_CLOCK, false, false))

  /** ensureInitialValue, which concerns the running execution only if it is the oldest. */
  ghost function Known(raw: nat -> Byte, oldest: bool, core: Core, loc: nat): Core
  {
    if oldest then
      var word := AlignAddress(loc);
      core.(x := Touch(raw, core.x, word), noWrite := core.noWrite && core.x.StoresOf(word) != [])
    else core
  }

  ghost predicate CanAct(act: Act)
  {
    match act
    case Buffers(_, kind, loc, bytes) => kind.OpWrite? ==> InWord(loc, |bytes|)
    case Reads(_, loc, size, _) => InWord(loc, size)
    case _ => true
  }

  function Least(n: nat, m: nat): nat
  {
    if n < m then n else m
  }

  /** Nothing happens any more after a crash. */
  ghost function WorldNext(raw: nat -> Byte, oldest: bool, w: World, act: Act, checks: Checks): World
  {
    if w.core.crashed then w
    else
      match act
      case Pends(loc) => w.(core := Known(raw, oldest, w.core, loc))
      case Buffers(t, kind, loc, bytes) =>
        World(w.threads[t := Issue(w.ThreadOf(t), kind, loc, bytes, w.core.clock)],
              if kind.OpWrite? then Known(raw, oldest, w.core, loc) else w.core)
      case Empties(t, n) =>
        var r := EvictFirst(w.ThreadOf(t), w.core, Least(n, |w.ThreadOf(t).storeBuffer|), checks);
        World(w.threads[t := r.0], r.1)
      case Drains(t) =>
        var r := DrainAll(w.ThreadOf(t), w.core, checks);
        World(w.threads[t := r.0], r.1)
      case Reads(_, loc, _, _) => w.(core := Known(raw, oldest, w.core, loc).(clock := w.core.clock + 1))
      case Ticks => w.(core := w.core.(clock := w.core.clock + 1))
  }

  ghost function WorldAfter(raw: nat -> Byte, oldest: bool, acts: seq<Act>, checks: Checks): World
  {
    if acts == [] then FRESH_WORLD
    else WorldNext(raw, oldest, WorldAfter(raw, oldest, acts[..|acts| - 1], checks), acts[|acts| - 1], checks)
  }

  // ----- The events say what the flag is -----

  /** The lists are those of the events, but for original contents recorded before the first event that needs them. */
  ghost predicate SameLists(raw: nat -> Byte, s: State, x: Exec)
  {
    forall word: nat ::
      x.StoresOf(word) == s.cur.StoresOf(word)
      || (s.past == [] && s.cur.StoresOf(word) == [] && x.StoresOf(word) == [InitStore(raw, word)])
  }

  /** No check was passed over, and none was answered yes. */
  ghost predicate Answered(raw: nat -> Byte, pre: seq<ByteEvent>, run: seq<ByteEvent>, checks: Checks)
  {
    checks.armed ==>
      forall j: nat :: j < |run| && ChecksAt(raw, pre, run, j, checks.first) ==> !checks.Answer(FRESH_CLOCK + j)
  }

  /** The execution `core`, after the events `run` that follow `pre`. */
  ghost predicate Fits(raw: nat -> Byte, pre: seq<ByteEvent>, run: seq<ByteEvent>, core: Core, checks: Checks)
  {
    var s := StateAfter(raw, pre + run);
    && (s.past == [] <==> pre == []) && s.clock == core.clock == FRESH_CLOCK + |run|
    && SameLists(raw, s, core.x)
    && (core.noWrite ==> NoWriteSinceCheck(raw, pre, run, checks.first))
    && Answered(raw, pre, run, checks)
  }

  lemma FitsStart(raw: nat -> Byte, pre: seq<ByteEvent>, checks: Checks)
    requires StartsExecution(pre)
    ensures Fits(raw, pre, [], FRESH_WORLD.core, checks)
  {
    assert pre + [] == pre;
  }

  lemma StateSnoc(raw: nat -> Byte, pre: seq<ByteEvent>, run: seq<ByteEvent>, ev: ByteEvent)
    ensures StateAfter(raw, pre + (run + [ev])) == Next(raw, StateAfter(raw, pre + run), ev)
    ensures (run + [ev])[..|run|] == run
  {
    assert pre + (run + [ev]) == pre + run + [ev];
    assert (pre + run + [ev])[..|pre + run|] == pre + run;
  }

  lemma AnsweredSnoc(raw: nat -> Byte, pre: seq<ByteEvent>, run: seq<ByteEvent>, ev: ByteEvent, checks: Checks)
    requires Answered(raw, pre, run, checks)
    requires checks.armed && ChecksAt(raw, pre, run + [ev], |run|, checks.first) ==> !checks.Answer(FRESH_CLOCK + |run|)
    ensures Answered(raw, pre, run + [ev], checks)
  {
    hide NoWriteSinceCheck;
    var all := run + [ev];
    if checks.armed {
      forall j: nat | j < |all| && ChecksAt(raw, pre, all, j, checks.first)
        ensures !checks.Answer(FRESH_CLOCK + j)
      {
        if j < |run| {
          assert all[..j] == run[..j] && ChecksAt(raw, pre, run, j, checks.first);
        }
      }
    }
  }

  lemma FitsTick(raw: nat -> Byte, pre: seq<ByteEvent>, run: seq<ByteEvent>, core: Core, checks: Checks)
    requires Fits(raw, pre, run, core, checks)
    ensures Fits(raw, pre, run + [Other], core.(clock := core.clock + 1), checks)
  {
    hide SameLists, Answered;
    StateSnoc(raw, pre, run, Other);
    AnsweredSnoc(raw, pre, run, Other, checks);
    SameListsAlike(raw, StateAfter(raw, pre + run), StateAfter(raw, pre + (run + [Other])), core.x);
  }

  lemma SameListsAlike(raw: nat -> Byte, s: State, t: State, x: Exec)
    requires SameLists(raw, s, x) && (t.past == [] <==> s.past == []) && t.cur.stores == s.cur.stores
    ensures SameLists(raw, t, x)
  {
    assert forall word: nat :: t.cur.StoresOf(word) == s.cur.StoresOf(word);
  }

  /** Recording original contents early. */
  lemma FitsKnown(raw: nat -> Byte, pre: seq<ByteEvent>, run: seq<ByteEvent>, core: Core, checks: Checks, loc: nat)
    requires Fits(raw, pre, run, core, checks)
    ensures Fits(raw, pre, run, Known(raw, pre == [], core, loc), checks)
  {
    hide Answered;
  }

  lemma FitsLoad(raw: nat -> Byte, pre: seq<ByteEvent>, run: seq<ByteEvent>, core: Core, checks: Checks, ev: ByteEvent)
    requires Fits(raw, pre, run, core, checks) && ev.Load?
    ensures Fits(raw, pre, run + [ev], Known(raw, pre == [], core, ev.loc).(clock := core.clock + 1), checks)
  {
    hide Answered;
    StateSnoc(raw, pre, run, ev);
    AnsweredSnoc(raw, pre, run, ev, checks);
    LoadLists(raw, StateAfter(raw, pre + run), core, ev.loc);
  }

  lemma LoadLists(raw: nat -> Byte, s: State, core: Core, loc: nat)
    requires SameLists(raw, s, core.x)
    ensures SameLists(raw, EnsureInitialValue(raw, s, loc).(clock := s.clock + 1), Known(raw, s.past == [], core, loc).x)
  {
    var t, y := EnsureInitialValue(raw, s, loc).(clock := s.clock + 1), Known(raw, s.past == [], core, loc).x;
    forall word: nat
      ensures y.StoresOf(word) == t.cur.StoresOf(word)
              || (t.past == [] && t.cur.StoresOf(word) == [] && y.StoresOf(word) == [InitStore(raw, word)])
    {
      assert core.x.StoresOf(word) == s.cur.StoresOf(word)
             || (s.past == [] && s.cur.StoresOf(word) == [] && core.x.StoresOf(word) == [InitStore(raw, word)]);
    }
  }

  /** A store whose word has its original contents recorded. */
  lemma FitsStore(raw: nat -> Byte, pre: seq<ByteEvent>, run: seq<ByteEvent>, core: Core, checks: Checks, a: Action)
    requires Fits(raw, pre, run, core, checks) && a.kind.OpWrite?
    requires pre == [] ==> core.x.StoresOf(AlignAddress(a.loc)) != []
    ensures Fits(raw, pre, run + [Store(a.loc, a.bytes, a.kind.isInit)], Recorded(core, a), checks)
  {
    hide Answered, Subsumed, SameLists;
    var ev: ByteEvent := Store(a.loc, a.bytes, a.kind.isInit);
    StateSnoc(raw, pre, run, ev);
    AnsweredSnoc(raw, pre, run, ev, checks);
    StoreLists(raw, StateAfter(raw, pre + run), core, a);
  }

  lemma StoreLists(raw: nat -> Byte, s: State, core: Core, a: Action)
    requires SameLists(raw, s, core.x) && s.clock == core.clock && a.kind.OpWrite?
    requires s.past == [] ==> core.x.StoresOf(AlignAddress(a.loc)) != []
    ensures SameLists(raw, CommitStore(raw, s, a.loc, a.bytes, a.kind.isInit), Recorded(core, a).x)
    ensures Subsumed(core.x.StoresOf(AlignAddress(a.loc)), Write(a.loc, a.bytes, core.clock + 1, a.IsInitialization()))
            == Redundant(raw, s, ByteEvent.Store(a.loc, a.bytes, a.kind.isInit))
  {
    hide Subsumed;
    var word := AlignAddress(a.loc);
    var t := EnsureInitialValue(raw, s, a.loc);
    assert core.x.StoresOf(word) == t.cur.StoresOf(word);
    var u, y := CommitStore(raw, s, a.loc, a.bytes, a.kind.isInit), Recorded(core, a).x;
    forall other: nat
      ensures y.StoresOf(other) == u.cur.StoresOf(other)
              || (u.past == [] && u.cur.StoresOf(other) == [] && y.StoresOf(other) == [InitStore(raw, other)])
    {
      assert core.x.StoresOf(other) == s.cur.StoresOf(other)
             || (s.past == [] && s.cur.StoresOf(other) == [] && core.x.StoresOf(other) == [InitStore(raw, other)]);
    }
  }

  /** A flush that takes effect has been checked. */
  lemma FitsFlush(raw: nat -> Byte, pre: seq<ByteEvent>, run: seq<ByteEvent>, core: Core, checks: Checks, th: Thread, f: Action, begin: nat)
    requires Fits(raw, pre, run, core, checks) && !core.crashed && !Checked(core, checks).crashed
    ensures Fits(raw, pre, run + [WriteBack(f.Line(), begin)], Flushed(th, Checked(core, checks), f), checks)
  {
    hide Answered, SameLists;
    var ev: ByteEvent := WriteBack(f.Line(), begin);
    StateSnoc(raw, pre, run, ev);
    AnsweredSnoc(raw, pre, run, ev, checks);
    SameListsAlike(raw, StateAfter(raw, pre + run), StateAfter(raw, pre + (run + [ev])), core.x);
    SameStores(raw, StateAfter(raw, pre + (run + [ev])), core.x, Flushed(th, Checked(core, checks), f).x);
  }

  lemma SameStores(raw: nat -> Byte, s: State, x: Exec, y: Exec)
    requires SameLists(raw, s, x) && y.stores == x.stores
    ensures SameLists(raw, s, y)
  {
    assert forall word: nat :: y.StoresOf(word) == x.StoresOf(word);
  }

  // ----- The steps of a run -----

  /** Every buffered store has the original contents of its word recorded. */
  ghost predicate AllKnown(oldest: bool, c: Cpu, x: Exec)
  {
    oldest ==>
      forall u: nat, a :: a in c.ThreadOf(u).storeBuffer && a.kind.OpWrite? ==> x.StoresOf(AlignAddress(a.loc)) != []
  }

  /** The threads and the flushed lines are those of the machine of module Tso. */
  ghost predicate Tied(c: Cpu, w: World, oldest: bool)
  {
    && c.clock == w.core.clock && SameBegins(c.begins, w.core.x) && AllKnown(oldest, c, w.core.x)
    && (!w.core.crashed ==> forall u: nat :: c.ThreadOf(u) == w.ThreadOf(u))
  }

  /** The run `steps` leads to the world `w`, and crashed only where the answer was yes. */
  ghost predicate Tracks(raw: nat -> Byte, pre: seq<ByteEvent>, steps: seq<ByteStep>, w: World, checks: Checks)
  {
    && Runs(steps) && NoCrash(steps)
    && Tied(CpuAfter(steps), w, pre == []) && Fits(raw, pre, EventsOf(steps), w.core, checks)
    && (w.core.crashed ==> checks.armed && checks.first <= w.core.clock && checks.Answer(w.core.clock))
  }

  lemma TracksStart(raw: nat -> Byte, pre: seq<ByteEvent>, checks: Checks)
    requires StartsExecution(pre)
    ensures Tracks(raw, pre, [], FRESH_WORLD, checks)
  {
    FitsStart(raw, pre, checks);
    NoStep<seq<Byte>>();
  }

  lemma TracksStep(raw: nat -> Byte, pre: seq<ByteEvent>, steps: seq<ByteStep>, s: ByteStep, w: World, v: World, checks: Checks)
    requires Tracks(raw, pre, steps, w, checks) && !v.core.crashed
    requires CanStep(CpuAfter(steps), s) && !s.PowerFail? && Tied(StepNext(CpuAfter(steps), s), v, pre == [])
    requires Fits(raw, pre, EventsOf(steps) + Emitted(CpuAfter(steps), s), v.core, checks)
    ensures Tracks(raw, pre, steps + [s], v, checks)
  {
    hide Tied, Fits, CanStep, StepNext, Emitted, CpuAfter, EventsOf, Runs;
    RunsSnoc(steps, s);
  }

  /** A check whose answer is yes. */
  lemma TracksCrash(raw: nat -> Byte, pre: seq<ByteEvent>, steps: seq<ByteStep>, w: World, v: World, checks: Checks)
    requires Tracks(raw, pre, steps, w, checks) && !w.core.crashed
    requires v.core == Checked(w.core, checks) && v.core.crashed
    ensures Tracks(raw, pre, steps, v, checks)
  {
    hide SameLists, SameBegins, AllKnown, Answered, NoWriteSinceCheck;
  }

  lemma FlushesInAll(steps: seq<ByteStep>, t: nat)
    requires Runs(steps)
    ensures FlushesIn(CpuAfter(steps).ThreadOf(t))
  {
    RunGood(steps);
    var c := CpuAfter(steps);
    var th := c.ThreadOf(t);
    assert Good(th, c.clock, c.begins);
    assert forall f :: f in th.flushBuffer ==> IsFlush(th, f);
  }

  lemma KnownSome(raw: nat -> Byte, oldest: bool, core: Core, loc: nat)
    ensures var d := Known(raw, oldest, core, loc);
            && (oldest ==> d.x.StoresOf(AlignAddress(loc)) != [])
            && (forall word: nat :: core.x.StoresOf(word) != [] ==> d.x.StoresOf(word) != [])
            && d.x.ranges == core.x.ranges && d.clock == core.clock && d.crashed == core.crashed
  {
  }

  lemma TiedKnown(raw: nat -> Byte, c: Cpu, w: World, oldest: bool, loc: nat)
    requires Tied(c, w, oldest)
    ensures Tied(c, w.(core := Known(raw, oldest, w.core, loc)), oldest)
  {
    hide Known;
    var d := Known(raw, oldest, w.core, loc);
    KnownSome(raw, oldest, w.core, loc);
    assert forall line: nat :: d.x.RangeOf(line) == w.core.x.RangeOf(line);
  }

  lemma TiedTick(c: Cpu, w: World, oldest: bool)
    requires Tied(c, w, oldest)
    ensures Tied(c.(clock := c.clock + 1), w.(core := w.core.(clock := w.core.clock + 1)), oldest)
  {
    var d := c.(clock := c.clock + 1);
    assert forall u: nat :: d.ThreadOf(u) == c.ThreadOf(u);
  }

  lemma TiedIssue(raw: nat -> Byte, c: Cpu, w: World, oldest: bool, s: ByteStep)
    requires Tied(c, w, oldest) && !w.core.crashed && s.Issuing? && CanStep(c, s)
    ensures var core := if s.kind.OpWrite? then Known(raw, oldest, w.core, s.loc) else w.core;
            Tied(StepNext(c, s), World(w.threads[s.t := Issue(w.ThreadOf(s.t), s.kind, s.loc, s.bytes, w.core.clock)], core), oldest)
  {
    hide Known, SameBegins;
    var th := c.ThreadOf(s.t);
    var u := Issue(th, s.kind, s.loc, s.bytes, c.clock);
    var core := if s.kind.OpWrite? then Known(raw, oldest, w.core, s.loc) else w.core;
    KnownSome(raw, oldest, w.core, s.loc);
    SameRanges(c.begins, w.core.x, core.x);
    assert th == w.ThreadOf(s.t);
    var d := StepNext(c, s);
    hide Issue;
    assert forall v: nat :: d.ThreadOf(v) == if v == s.t then u else c.ThreadOf(v);
    IssueBuffer(th, s.kind, s.loc, s.bytes, c.clock);
  }

  lemma IssueBuffer(th: Thread, kind: Kind, loc: nat, bytes: seq<Byte>, clock: nat)
    ensures var a := NewAction(th, kind, loc, bytes, clock);
            Issue(th, kind, loc, bytes, clock).storeBuffer == th.storeBuffer + [a] && a.kind == kind && a.loc == loc
  {
  }

  lemma SameRanges(begins: map<nat, nat>, x: Exec, y: Exec)
    requires SameBegins(begins, x) && y.ranges == x.ranges
    ensures SameBegins(begins, y)
  {
    assert forall line: nat :: y.RangeOf(line) == x.RangeOf(line) && BeginOf(begins, line) == x.RangeOf(line).begin;
  }

  /** One thread moves and its store buffer gets no new action. */
  lemma TiedMove(c: Cpu, w: World, oldest: bool, t: nat, u: Thread, core: Core, begins: map<nat, nat>)
    requires Tied(c, w, oldest) && !w.core.crashed
    requires SameBegins(begins, core.x) && forall a :: a in u.storeBuffer ==> a in w.ThreadOf(t).storeBuffer
    requires forall word: nat :: w.core.x.StoresOf(word) != [] ==> core.x.StoresOf(word) != []
    ensures Tied(Cpu(c.threads[t := u], begins, core.clock), World(w.threads[t := u], core), oldest)
  {
    hide SameBegins;
    var d := Cpu(c.threads[t := u], begins, core.clock);
    assert forall v: nat :: d.ThreadOf(v) == if v == t then u else c.ThreadOf(v);
  }

  lemma EvictSteps(c: Cpu, t: nat) returns (begin: nat)
    requires CanStep(c, ByteStep.Evicting(t))
    ensures var th := c.ThreadOf(t);
            var a := th.storeBuffer[0];
            && StepNext(c, ByteStep.Evicting(t)) ==
               Cpu(c.threads[t := Evict(th, c.clock + 1)],
                   if a.kind == OpClflush then BeginsAfter(th, a, c.begins, c.clock + 1) else c.begins, ClockAfter(a, c.clock))
            && ClockAfter(a, c.clock) == (if a.kind == OpClflushOpt then c.clock else c.clock + 1)
            && match a.kind
               case OpWrite(isInit) => Emitted(c, ByteStep.Evicting(t)) == [Store(a.loc, a.bytes, isInit)]
               case OpClflush => Emitted(c, ByteStep.Evicting(t)) == [WriteBack(a.Line(), begin)]
               case OpClflushOpt => Emitted(c, ByteStep.Evicting(t)) == []
               case OpSfence => Emitted(c, ByteStep.Evicting(t)) == [Other]
  {
    hide Evict;
    var a := c.ThreadOf(t).storeBuffer[0];
    begin := if a.kind == OpClflush then StepNext(c, ByteStep.Evicting(t)).begins[a.Line()] else 0;
  }

  lemma EvictBuffer(th: Thread, number: nat)
    requires th.storeBuffer != []
    ensures Evict(th, number).storeBuffer == th.storeBuffer[1..]
    ensures |Evict(th, number).flushBuffer| == if th.storeBuffer[0].kind == OpClflushOpt then |th.flushBuffer| + 1 else |th.flushBuffer|
  {
  }

  lemma DrainSteps(c: Cpu, t: nat) returns (begin: nat)
    requires CanStep(c, ByteStep.Draining(t)) && c.ThreadOf(t).flushBuffer[0].IsCacheOp()
    ensures var th := c.ThreadOf(t);
            && StepNext(c, ByteStep.Draining(t)) ==
               Cpu(c.threads[t := Drain(th, c.clock + 1)], BeginsAfter(th, th.flushBuffer[0], c.begins, c.clock + 1), c.clock + 1)
            && Emitted(c, ByteStep.Draining(t)) == [WriteBack(th.flushBuffer[0].Line(), begin)]
  {
    hide Drain;
    begin := StepNext(c, ByteStep.Draining(t)).begins[c.ThreadOf(t).flushBuffer[0].Line()];
  }

  /** What stays of the stores when a flush takes effect. */
  lemma FlushedStores(th: Thread, core: Core, checks: Checks, f: Action)
    ensures var d := Flushed(th, Checked(core, checks), f); d.x.stores == core.x.stores && d.clock == core.clock + 1
  {
  }

  lemma CheckedSame(core: Core, checks: Checks)
    ensures var c := Checked(core, checks); c.x == core.x && c.clock == core.clock
  {
  }

  lemma DrainTracks(raw: nat -> Byte, pre: seq<ByteEvent>, steps: seq<ByteStep>, w: World, checks: Checks, t: nat)
    requires Tracks(raw, pre, steps, w, checks) && !w.core.crashed && w.ThreadOf(t).flushBuffer != []
    requires !Checked(w.core, checks).crashed
    ensures var th, c := w.ThreadOf(t), Checked(w.core, checks);
            Tracks(raw, pre, steps + [Draining(t)],
                   World(w.threads[t := Drain(th, c.clock + 1)], Flushed(th, c, th.flushBuffer[0])), checks)
  {
    hide Fits, AllKnown, SameBegins, Drain, BeginsAfter, Flushed, CpuAfter, Runs, EventsOf, Checked;
    var c := CpuAfter(steps);
    var th, d := w.ThreadOf(t), Checked(w.core, checks);
    var f := th.flushBuffer[0];
    FlushesInAll(steps, t);
    assert f in th.flushBuffer && c.ThreadOf(t) == th;
    CheckedSame(w.core, checks);
    FlushBegins(th, c.begins, d, f);
    FlushedStores(th, w.core, checks, f);
    SameKnown(w.core.x, Flushed(th, d, f).x);
    DrainBuffer(th, c.clock + 1);
    TiedMove(c, w, pre == [], t, Drain(th, c.clock + 1), Flushed(th, d, f), BeginsAfter(th, f, c.begins, c.clock + 1));
    var begin := DrainSteps(c, t);
    FitsFlush(raw, pre, EventsOf(steps), w.core, checks, th, f, begin);
    TracksStep(raw, pre, steps, Draining(t), w, World(w.threads[t := Drain(th, d.clock + 1)], Flushed(th, d, f)), checks);
  }

  lemma SameKnown(x: Exec, y: Exec)
    requires y.stores == x.stores
    ensures forall word: nat :: x.StoresOf(word) != [] ==> y.StoresOf(word) != []
  {
  }

  lemma DrainBuffer(th: Thread, number: nat)
    requires th.flushBuffer != []
    ensures Drain(th, number).storeBuffer == th.storeBuffer && |Drain(th, number).flushBuffer| == |th.flushBuffer| - 1
  {
  }

  /** What the world is once the oldest action of thread `t` has taken effect in the execution `core`. */
  ghost function Evicted(w: World, t: nat, core: Core): World
    requires w.ThreadOf(t).storeBuffer != []
  {
    var th := w.ThreadOf(t);
    World(w.threads[t := Evict(th, w.core.clock + 1)],
          match th.storeBuffer[0].kind
          case OpWrite(_) => Recorded(core, th.storeBuffer[0])
          case OpClflush => Flushed(th, core, th.storeBuffer[0])
          case OpClflushOpt => core
          case OpSfence => core.(clock := core.clock + 1))
  }

  lemma EvictTracks(raw: nat -> Byte, pre: seq<ByteEvent>, steps: seq<ByteStep>, w: World, checks: Checks, t: nat)
    requires Tracks(raw, pre, steps, w, checks) && !w.core.crashed && w.ThreadOf(t).storeBuffer != []
    requires w.ThreadOf(t).storeBuffer[0].kind == OpSfence ==> w.ThreadOf(t).flushBuffer == []
    requires w.ThreadOf(t).storeBuffer[0].kind == OpClflush ==> !Checked(w.core, checks).crashed
    ensures var a := w.ThreadOf(t).storeBuffer[0];
            Tracks(raw, pre, steps + [Evicting(t)], Evicted(w, t, if a.kind == OpClflush then Checked(w.core, checks) else w.core), checks)
  {
    hide Fits, AllKnown, SameBegins, Evict, BeginsAfter, Flushed, CpuAfter, Runs, EventsOf, Checked, Recorded, StepNext, Emitted, ClockAfter;
    var c := CpuAfter(steps);
    var th := w.ThreadOf(t);
    assert c.ThreadOf(t) == th;
    var a := th.storeBuffer[0];
    var d := Checked(w.core, checks);
    var v := Evicted(w, t, if a.kind == OpClflush then d else w.core);
    var begins := if a.kind == OpClflush then BeginsAfter(th, a, c.begins, c.clock + 1) else c.begins;
    var begin := EvictSteps(c, t);
    EvictBuffer(th, c.clock + 1);
    var e := EventsOf(steps);
    match a.kind {
      case OpWrite(_) =>
        KnownBuffered(pre == [], c, w.core.x, t);
        FitsStore(raw, pre, e, w.core, checks, a);
        RecordedStores(w.core, a);
        SameRanges(c.begins, w.core.x, v.core.x);
      case OpClflush =>
        CheckedSame(w.core, checks);
        FlushBegins(th, c.begins, d, a);
        FlushedStores(th, w.core, checks, a);
        SameKnown(w.core.x, v.core.x);
        FitsFlush(raw, pre, e, w.core, checks, th, a, begin);
      case OpClflushOpt =>
        assert e + [] == e;
      case OpSfence =>
        FitsTick(raw, pre, e, w.core, checks);
    }
    TiedMove(c, w, pre == [], t, Evict(th, c.clock + 1), v.core, begins);
    TracksStep(raw, pre, steps, Evicting(t), w, v, checks);
  }

  lemma KnownBuffered(oldest: bool, c: Cpu, x: Exec, t: nat)
    requires AllKnown(oldest, c, x) && c.ThreadOf(t).storeBuffer != []
    ensures var a := c.ThreadOf(t).storeBuffer[0]; oldest && a.kind.OpWrite? ==> x.StoresOf(AlignAddress(a.loc)) != []
  {
    var a := c.ThreadOf(t).storeBuffer[0];
    assert a in c.ThreadOf(t).storeBuffer;
  }

  lemma RecordedStores(core: Core, a: Action)
    ensures var d := Recorded(core, a);
            && (forall word: nat :: core.x.StoresOf(word) != [] ==> d.x.StoresOf(word) != [])
            && d.x.ranges == core.x.ranges && d.clock == core.clock + 1 && d.crashed == core.crashed
  {
  }

  // ----- Emptying buffers -----

  /** The steps of draining a flush buffer without a crash. */
  ghost function DrainPlan(t: nat, n: nat): seq<ByteStep>
  {
    if n == 0 then [] else [Draining(t)] + DrainPlan(t, n - 1)
  }

  ghost function OpPlan(t: nat, kind: Kind, pending: nat): seq<ByteStep>
  {
    if kind == OpSfence then DrainPlan(t, pending) + [Evicting(t)] else [Evicting(t)]
  }

  /** The steps of evicting `n` actions, with `pending` flushes in the flush buffer. */
  ghost function EvictPlan(t: nat, buffer: seq<Action>, pending: nat, n: nat): seq<ByteStep>
    requires n <= |buffer|
    decreases n
  {
    if n == 0 then []
    else OpPlan(t, buffer[0].kind, pending) + EvictPlan(t, buffer[1..], PendingAfter(buffer[0].kind, pending), n - 1)
  }

  function PendingAfter(kind: Kind, pending: nat): nat
  {
    if kind == OpSfence then 0 else if kind == OpClflushOpt then pending + 1 else pending
  }

  ghost function With(w: World, t: nat, r: (Thread, Core)): World
  {
    World(w.threads[t := r.0], r.1)
  }

  lemma WithWith(w: World, t: nat, q: (Thread, Core), r: (Thread, Core))
    ensures With(With(w, t, q), t, r) == With(w, t, r) && With(w, t, q).ThreadOf(t) == q.0 && With(w, t, q).core == q.1
  {
    assert w.threads[t := q.0][t := r.0] == w.threads[t := r.0];
  }

  lemma TracksSame(raw: nat -> Byte, pre: seq<ByteEvent>, steps: seq<ByteStep>, w: World, checks: Checks, t: nat)
    requires Tracks(raw, pre, steps, w, checks)
    ensures Tracks(raw, pre, steps, With(w, t, (w.ThreadOf(t), w.core)), checks)
  {
    hide Fits, SameBegins, AllKnown, Runs, CpuAfter, EventsOf;
    assert forall u: nat :: With(w, t, (w.ThreadOf(t), w.core)).ThreadOf(u) == w.ThreadOf(u);
  }

  /** Part of a plan, all of it unless the execution crashed on the way. */
  ghost predicate Follows(more: seq<ByteStep>, plan: seq<ByteStep>, crashed: bool)
  {
    more <= plan && (!crashed ==> more == plan)
  }

  lemma FollowsOn(a: seq<ByteStep>, b: seq<ByteStep>, plan: seq<ByteStep>, crashed: bool)
    requires Follows(b, plan, crashed)
    ensures Follows(a + b, a + plan, crashed)
  {
    assert a + plan == a + b + plan[|b|..];
  }

  lemma FollowsPart(a: seq<ByteStep>, plan: seq<ByteStep>, rest: seq<ByteStep>)
    requires Follows(a, plan, true)
    ensures Follows(a, plan + rest, true)
  {
  }

  lemma {:induction false} DrainAllTracks(raw: nat -> Byte, pre: seq<ByteEvent>, steps: seq<ByteStep>, w: World, checks: Checks, t: nat)
    returns (more: seq<ByteStep>)
    requires Tracks(raw, pre, steps, w, checks) && !w.core.crashed
    ensures var th := w.ThreadOf(t);
            var r := DrainAll(th, w.core, checks);
            && Tracks(raw, pre, steps + more, With(w, t, r), checks)
            && Follows(more, DrainPlan(t, |th.flushBuffer|), r.1.crashed) && (!r.1.crashed ==> r.0.flushBuffer == [])
    decreases |w.ThreadOf(t).flushBuffer|
  {
    hide Tracks, Checked, Flushed, Drain;
    more := [];
    assert steps + [] == steps;
    var th := w.ThreadOf(t);
    if th.flushBuffer == [] {
      TracksSame(raw, pre, steps, w, checks, t);
    } else {
      var c := Checked(w.core, checks);
      var r := DrainAll(th, w.core, checks);
      if c.crashed {
        TracksCrash(raw, pre, steps, w, With(w, t, r), checks);
      } else {
        var q := (Drain(th, c.clock + 1), Flushed(th, c, th.flushBuffer[0]));
        DrainTracks(raw, pre, steps, w, checks, t);
        DrainBuffer(th, c.clock + 1);
        WithWith(w, t, q, r);
        StillRunning(w.core, checks, th);
        more := DrainAllTracks(raw, pre, steps + [Draining(t)], With(w, t, q), checks, t);
        assert steps + ([Draining(t)] + more) == steps + [Draining(t)] + more;
        FollowsOn([Draining(t)], more, DrainPlan(t, |th.flushBuffer| - 1), r.1.crashed);
        more := [Draining(t)] + more;
      }
    }
  }

  lemma StillRunning(core: Core, checks: Checks, th: Thread)
    requires !Checked(core, checks).crashed && th.flushBuffer != []
    ensures !Flushed(th, Checked(core, checks), th.flushBuffer[0]).crashed
  {
  }

  lemma EvictOpTracks(raw: nat -> Byte, pre: seq<ByteEvent>, steps: seq<ByteStep>, w: World, checks: Checks, t: nat)
    returns (more: seq<ByteStep>)
    requires Tracks(raw, pre, steps, w, checks) && !w.core.crashed && w.ThreadOf(t).storeBuffer != []
    ensures var th := w.ThreadOf(t);
            var a := th.storeBuffer[0];
            var r := EvictOp(th, w.core, checks);
            && Tracks(raw, pre, steps + more, With(w, t, r), checks)
            && Follows(more, OpPlan(t, a.kind, |th.flushBuffer|), r.1.crashed)
            && (!r.1.crashed ==> |r.0.flushBuffer| == PendingAfter(a.kind, |th.flushBuffer|))
  {
    hide Tracks, Checked, Flushed, Recorded, Evict, DrainAll;
    var th := w.ThreadOf(t);
    var a := th.storeBuffer[0];
    var r := EvictOp(th, w.core, checks);
    more := [Evicting(t)];
    match a.kind
    case OpSfence =>
      more := DrainAllTracks(raw, pre, steps, w, checks, t);
      var d := DrainAll(th, w.core, checks);
      WithWith(w, t, d, r);
      if d.1.crashed {
        TracksAfterCrash(raw, pre, steps + more, With(w, t, d), With(w, t, r), checks);
        FollowsPart(more, DrainPlan(t, |th.flushBuffer|), [Evicting(t)]);
      } else {
        EvictTracks(raw, pre, steps + more, With(w, t, d), checks, t);
        EvictBuffer(d.0, d.1.clock + 1);
        assert steps + (more + [Evicting(t)]) == steps + more + [Evicting(t)];
        more := more + [Evicting(t)];
      }
    case OpClflush =>
      var c := Checked(w.core, checks);
      CheckedSame(w.core, checks);
      if c.crashed {
        more := [];
        assert steps + [] == steps;
        TracksCrash(raw, pre, steps, w, With(w, t, r), checks);
      } else {
        EvictTracks(raw, pre, steps, w, checks, t);
        EvictBuffer(th, w.core.clock + 1);
      }
    case _ =>
      EvictTracks(raw, pre, steps, w, checks, t);
      EvictBuffer(th, w.core.clock + 1);
  }

  lemma TracksAfterCrash(raw: nat -> Byte, pre: seq<ByteEvent>, steps: seq<ByteStep>, w: World, v: World, checks: Checks)
    requires Tracks(raw, pre, steps, w, checks) && w.core.crashed && v.core == w.core
    ensures Tracks(raw, pre, steps, v, checks)
  {
    hide Fits, SameBegins, AllKnown, Runs, CpuAfter, EventsOf;
  }

  lemma {:induction false} EvictFirstTracks(raw: nat -> Byte, pre: seq<ByteEvent>, steps: seq<ByteStep>, w: World, checks: Checks, t: nat, n: nat)
    returns (more: seq<ByteStep>)
    requires Tracks(raw, pre, steps, w, checks) && !w.core.crashed && n <= |w.ThreadOf(t).storeBuffer|
    ensures var th := w.ThreadOf(t);
            var r := EvictFirst(th, w.core, n, checks);
            && Tracks(raw, pre, steps + more, With(w, t, r), checks)
            && Follows(more, EvictPlan(t, th.storeBuffer, |th.flushBuffer|, n), r.1.crashed)
    decreases n
  {
    hide Tracks, EvictOp, OpPlan;
    more := [];
    assert steps + [] == steps;
    var th := w.ThreadOf(t);
    if n == 0 {
      TracksSame(raw, pre, steps, w, checks, t);
    } else {
      var r := EvictOp(th, w.core, checks);
      var a := th.storeBuffer[0];
      var first := EvictOpTracks(raw, pre, steps, w, checks, t);
      WithWith(w, t, r, EvictFirst(th, w.core, n, checks));
      var pending := PendingAfter(a.kind, |th.flushBuffer|);
      var rest := EvictPlan(t, th.storeBuffer[1..], pending, n - 1);
      if r.1.crashed {
        more := first;
        FollowsPart(first, OpPlan(t, a.kind, |th.flushBuffer|), rest);
      } else {
        more := EvictFirstTracks(raw, pre, steps + first, With(w, t, r), checks, t, n - 1);
        FollowsOn(first, more, rest, EvictFirst(th, w.core, n, checks).1.crashed);
        assert steps + (first + more) == steps + first + more;
        more := first + more;
      }
    }
  }

  // ----- Whole runs -----

  /** The steps of what happens, if there is no crash. */
  ghost function ActPlan(w: World, act: Act): seq<ByteStep>
  {
    match act
    case Pends(_) => []
    case Buffers(t, kind, loc, bytes) => [Issuing(t, kind, loc, bytes)]
    case Empties(t, n) =>
      var th := w.ThreadOf(t);
      EvictPlan(t, th.storeBuffer, |th.flushBuffer|, Least(n, |th.storeBuffer|))
    case Drains(t) => DrainPlan(t, |w.ThreadOf(t).flushBuffer|)
    case Reads(t, loc, size, result) => [Reading(t, loc, size, result)]
    case Ticks => [Misc]
  }

  const UNCHECKED: Checks := Checks(false, 0, (n: nat) => false)

  /** The steps of a run in which no check is made. */
  ghost function StepsOf(raw: nat -> Byte, oldest: bool, acts: seq<Act>): seq<ByteStep>
  {
    if acts == [] then []
    else
      var n := |acts| - 1;
      StepsOf(raw, oldest, acts[..n]) + ActPlan(WorldAfter(raw, oldest, acts[..n], UNCHECKED), acts[n])
  }

  lemma PlainStep(raw: nat -> Byte, pre: seq<ByteEvent>, steps: seq<ByteStep>, w: World, act: Act, checks: Checks)
    requires Tracks(raw, pre, steps, w, checks) && !w.core.crashed && CanAct(act) && !act.Empties? && !act.Drains?
    ensures Tracks(raw, pre, steps + ActPlan(w, act), WorldNext(raw, pre == [], w, act, checks), checks)
  {
    hide Fits, Tied, Known, CpuAfter, Runs, EventsOf, Issue;
    var c, e, v := CpuAfter(steps), EventsOf(steps), WorldNext(raw, pre == [], w, act, checks);
    match act
    case Pends(loc) =>
      TiedKnown(raw, c, w, pre == [], loc);
      FitsKnown(raw, pre, e, w.core, checks, loc);
      KnownSome(raw, pre == [], w.core, loc);
      assert steps + [] == steps;
    case Buffers(t, kind, loc, bytes) =>
      TiedIssue(raw, c, w, pre == [], Issuing(t, kind, loc, bytes));
      FitsKnown(raw, pre, e, w.core, checks, loc);
      KnownSome(raw, pre == [], w.core, loc);
      assert e + [] == e;
      TracksStep(raw, pre, steps, Issuing(t, kind, loc, bytes), w, v, checks);
    case Reads(t, loc, size, result) =>
      var s: ByteStep := Reading(t, loc, size, result);
      TiedKnown(raw, c, w, pre == [], loc);
      KnownSome(raw, pre == [], w.core, loc);
      TiedTick(c, w.(core := Known(raw, pre == [], w.core, loc)), pre == []);
      FitsLoad(raw, pre, e, w.core, checks, Load(loc, size, Buffered(c.ThreadOf(t).storeBuffer), result));
      TracksStep(raw, pre, steps, s, w, v, checks);
    case Ticks =>
      TiedTick(c, w, pre == []);
      FitsTick(raw, pre, e, w.core, checks);
      TracksStep(raw, pre, steps, Misc, w, v, checks);
  }

  lemma ActTracks(raw: nat -> Byte, pre: seq<ByteEvent>, steps: seq<ByteStep>, w: World, act: Act, checks: Checks) returns (more: seq<ByteStep>)
    requires Tracks(raw, pre, steps, w, checks) && !w.core.crashed && CanAct(act)
    ensures var v := WorldNext(raw, pre == [], w, act, checks);
            Tracks(raw, pre, steps + more, v, checks) && Follows(more, ActPlan(w, act), v.core.crashed)
  {
    hide Tracks, EvictFirst, DrainAll, EvictPlan, DrainPlan;
    match act
    case Empties(t, n) => more := EvictFirstTracks(raw, pre, steps, w, checks, t, Least(n, |w.ThreadOf(t).storeBuffer|));
    case Drains(t) => more := DrainAllTracks(raw, pre, steps, w, checks, t);
    case _ =>
      more := ActPlan(w, act);
      PlainStep(raw, pre, steps, w, act, checks);
  }

  ghost predicate AllCan(acts: seq<Act>)
  {
    forall i :: 0 <= i < |acts| ==> CanAct(acts[i])
  }

  lemma SamePlan(raw: nat -> Byte, pre: seq<ByteEvent>, steps: seq<ByteStep>, w: World, v: World, act: Act, checks: Checks, others: Checks)
    requires Tracks(raw, pre, steps, w, checks) && Tracks(raw, pre, steps, v, others) && !w.core.crashed && !v.core.crashed
    ensures ActPlan(w, act) == ActPlan(v, act)
  {
    hide Fits, SameBegins, AllKnown, Runs, CpuAfter, EventsOf, EvictPlan, DrainPlan;
    forall t: nat
      ensures w.ThreadOf(t) == v.ThreadOf(t)
    {
      assert w.ThreadOf(t) == CpuAfter(steps).ThreadOf(t);
    }
  }

  lemma UncheckedGoesOn(raw: nat -> Byte, pre: seq<ByteEvent>, steps: seq<ByteStep>, w: World)
    requires Tracks(raw, pre, steps, w, UNCHECKED)
    ensures !w.core.crashed
  {
    hide Fits, Tied, Runs, CpuAfter, EventsOf;
  }

  lemma {:induction false} StepsTrack(raw: nat -> Byte, pre: seq<ByteEvent>, acts: seq<Act>)
    requires StartsExecution(pre) && AllCan(acts)
    ensures Tracks(raw, pre, StepsOf(raw, pre == [], acts), WorldAfter(raw, pre == [], acts, UNCHECKED), UNCHECKED)
  {
    hide Tracks, WorldNext, ActPlan;
    if acts == [] {
      TracksStart(raw, pre, UNCHECKED);
    } else {
      var n := |acts| - 1;
      var w := WorldAfter(raw, pre == [], acts[..n], UNCHECKED);
      StepsTrack(raw, pre, acts[..n]);
      UncheckedGoesOn(raw, pre, StepsOf(raw, pre == [], acts[..n]), w);
      var more := ActTracks(raw, pre, StepsOf(raw, pre == [], acts[..n]), w, acts[n], UNCHECKED);
      UncheckedGoesOn(raw, pre, StepsOf(raw, pre == [], acts[..n]) + more, WorldAfter(raw, pre == [], acts, UNCHECKED));
    }
  }

  /**
   With any choices at the checks the run takes the same steps as without checks, up to a
   crash; it has made every check of CrashPoints on the way and none was answered yes but
   the one that crashes it.
   */
  lemma {:induction false} ChecksAreMade(raw: nat -> Byte, pre: seq<ByteEvent>, acts: seq<Act>, checks: Checks) returns (steps: seq<ByteStep>)
    requires StartsExecution(pre) && AllCan(acts)
    ensures var w := WorldAfter(raw, pre == [], acts, checks);
            Tracks(raw, pre, steps, w, checks) && Follows(steps, StepsOf(raw, pre == [], acts), w.core.crashed)
  {
    hide Tracks, WorldNext, ActPlan;
    if acts == [] {
      steps := [];
      TracksStart(raw, pre, checks);
    } else {
      var n := |acts| - 1;
      var w, v := WorldAfter(raw, pre == [], acts[..n], checks), WorldAfter(raw, pre == [], acts[..n], UNCHECKED);
      var before := StepsOf(raw, pre == [], acts[..n]);
      steps := ChecksAreMade(raw, pre, acts[..n], checks);
      if w.core.crashed {
        CrashedStays(raw, pre == [], w, acts[n], checks);
        FollowsPart(steps, before, ActPlan(v, acts[n]));
      } else {
        StepsTrack(raw, pre, acts[..n]);
        UncheckedGoesOn(raw, pre, before, v);
        SamePlan(raw, pre, steps, w, v, acts[n], checks, UNCHECKED);
        var more := ActTracks(raw, pre, steps, w, acts[n], checks);
        FollowsOn(steps, more, ActPlan(v, acts[n]), WorldAfter(raw, pre == [], acts, checks).core.crashed);
        steps := steps + more;
      }
    }
  }

  lemma CrashedStays(raw: nat -> Byte, oldest: bool, w: World, act: Act, checks: Checks)
    requires w.core.crashed
    ensures WorldNext(raw, oldest, w, act, checks) == w
  {
  }

  /** The crash is chosen at the check after number `n`, and at no other. */
  function CrashAt(first: nat, n: nat): Checks
  {
    Checks(true, first, m => m == n)
  }

  /** What a run has done when it crashes after its first `j` events. */
  ghost predicate CrashesAfter(raw: nat -> Byte, pre: seq<ByteEvent>, acts: seq<Act>, run: seq<ByteEvent>, first: nat, j: nat)
    requires j <= |run|
  {
    var checks := CrashAt(first, FRESH_CLOCK + j);
    var w := WorldAfter(raw, pre == [], acts, checks);
    && w.core.crashed && w.core.clock == FRESH_CLOCK + j
    && exists steps :: Tracks(raw, pre, steps, w, checks) && EventsOf(steps) == run[..j]
  }

  lemma SameChecks(raw: nat -> Byte, pre: seq<ByteEvent>, part: seq<ByteEvent>, run: seq<ByteEvent>, j: nat, first: nat)
    requires part <= run && j < |part| && ChecksAt(raw, pre, run, j, first)
    ensures ChecksAt(raw, pre, part, j, first)
  {
    assert part[..j] == run[..j];
  }

  lemma NotAnswered(raw: nat -> Byte, pre: seq<ByteEvent>, run: seq<ByteEvent>, checks: Checks, j: nat)
    requires Answered(raw, pre, run, checks) && checks.armed && j < |run| && ChecksAt(raw, pre, run, j, checks.first)
    ensures !checks.Answer(FRESH_CLOCK + j)
  {
  }

  /** At every check before the end of a run the crash is taken if it is chosen, there and not elsewhere. */
  lemma ChosenCrashHappens(raw: nat -> Byte, pre: seq<ByteEvent>, acts: seq<Act>, first: nat, j: nat)
    requires StartsExecution(pre) && AllCan(acts) && Runs(StepsOf(raw, pre == [], acts))
    requires var run := EventsOf(StepsOf(raw, pre == [], acts)); j < |run| && ChecksAt(raw, pre, run, j, first)
    ensures CrashesAfter(raw, pre, acts, EventsOf(StepsOf(raw, pre == [], acts)), first, j)
  {
    hide Tied, SameLists, NoWriteSinceCheck, StateAfter, WorldAfter, StepsOf, ChecksAt;
    var all := StepsOf(raw, pre == [], acts);
    var checks := CrashAt(first, FRESH_CLOCK + j);
    var w := WorldAfter(raw, pre == [], acts, checks);
    var steps := ChecksAreMade(raw, pre, acts, checks);
    assert all[..|steps|] == steps;
    PrefixRuns(all, |steps|);
    var part, run := EventsOf(steps), EventsOf(all);
    if j < |part| {
      SameChecks(raw, pre, part, run, j, first);
      NotAnswered(raw, pre, part, checks, j);
    }
  }

  /** At the end of a run without a crash the last test is made if CrashPoints counts it. */
  lemma LastTestMade(raw: nat -> Byte, pre: seq<ByteEvent>, acts: seq<Act>, checks: Checks)
    requires StartsExecution(pre) && AllCan(acts) && Runs(StepsOf(raw, pre == [], acts))
    requires var run := EventsOf(StepsOf(raw, pre == [], acts)); ChecksAt(raw, pre, run, |run|, checks.first)
    requires !WorldAfter(raw, pre == [], acts, checks).core.crashed
    ensures var w := WorldAfter(raw, pre == [], acts, checks); !w.core.noWrite && checks.first <= w.core.clock
  {
    hide Tied, SameLists, NoWriteSinceCheck, StateAfter, WorldAfter, StepsOf;
    var all := StepsOf(raw, pre == [], acts);
    var steps := ChecksAreMade(raw, pre, acts, checks);
    var run := EventsOf(all);
    assert run[..|run|] == run;
  }

  /**
   Nothing that a crash can show is missed by the checks that are made. A crash after the
   first `k` events of a run whose completed clflushopts are fenced, with any continuation,
   is one that the run can choose after `j` events, or the one at its end.
   */
  lemma EveryCrashIsChosen(raw: nat -> Byte, pre: seq<ByteEvent>, acts: seq<Act>, post: seq<ByteEvent>, choice: Choice, k: nat, first: nat)
    returns (j: nat)
    requires StartsExecution(pre) && AllCan(acts) && Runs(StepsOf(raw, pre == [], acts)) && AllFenced(StepsOf(raw, pre == [], acts))
    requires var run := EventsOf(StepsOf(raw, pre == [], acts));
             && MachineValid(raw, pre + run, choice) && k <= |run| && first <= FRESH_CLOCK + k
             && MachineValid(raw, pre + run[..k] + [Crash] + post, choice)
    ensures var run := EventsOf(StepsOf(raw, pre == [], acts));
            && j <= |run| && MachineShows(raw, pre + run[..j] + [Crash] + post)
            && if j < |run| then CrashesAfter(raw, pre, acts, run, first, j)
               else var w := WorldAfter(raw, pre == [], acts, Checks(true, first, n => false));
                    !w.core.crashed && !w.core.noWrite && first <= w.core.clock
  {
    hide Tied, NoWriteSinceCheck, StateAfter, WorldAfter, StepsOf, MachineValid, CrashesAfter, ChecksAt, AllFenced;
    var all := StepsOf(raw, pre == [], acts);
    var run := EventsOf(all);
    StepsTrack(raw, pre, acts);
    ClockAt(raw, pre, all, k);
    j := FencedCrashPointsSuffice(raw, pre, all, post, choice, k, first);
    InRange(raw, pre, run, j, first);
    if j < |run| {
      ChosenCrashHappens(raw, pre, acts, first, j);
    } else {
      var checks := Checks(true, first, n => false);
      var steps := ChecksAreMade(raw, pre, acts, checks);
      LastTestMade(raw, pre, acts, checks);
    }
  }

  lemma InRange(raw: nat -> Byte, pre: seq<ByteEvent>, run: seq<ByteEvent>, j: nat, first: nat)
    requires ChecksAt(raw, pre, run, j, first)
    ensures j <= |run|
  {
  }

  /** Every event of an execution takes one number. */
  lemma ClockAt(raw: nat -> Byte, pre: seq<ByteEvent>, steps: seq<ByteStep>, k: nat)
    requires StartsExecution(pre) && Runs(steps) && NoCrash(steps) && k <= |EventsOf(steps)|
    ensures StateAfter(raw, pre + EventsOf(steps)[..k]).clock == FRESH_CLOCK + k
  {
    hide EventsOf, Runs, StateAfter;
    UncrashedEvents(steps);
    ClockAfterEvents(raw, pre, EventsOf(steps), k);
  }

  lemma {:induction false} ClockAfterEvents(raw: nat -> Byte, pre: seq<ByteEvent>, run: seq<ByteEvent>, k: nat)
    requires StartsExecution(pre) && k <= |run| && forall ev :: ev in run ==> !ev.Crash?
    ensures StateAfter(raw, pre + run[..k]).clock == FRESH_CLOCK + k
  {
    if k == 0 {
      assert pre + run[..0] == pre;
    } else {
      ClockAfterEvents(raw, pre, run, k - 1);
      assert run[..k] == run[..k - 1] + [run[k - 1]];
      assert run[k - 1] in run;
      StateSnoc(raw, pre, run[..k - 1], run[k - 1]);
      ClockStep(raw, StateAfter(raw, pre + run[..k - 1]), run[k - 1]);
    }
  }
}
