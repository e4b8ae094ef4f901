/**
 How far a flush moves the start of its line's interval. The start never moves back and
 stays in the past exactly when every clflushopt that completes left the store buffer
 after an sfence of its thread: the clock of the last sfence is otherwise read unset.
 */
module Fences {
  import opened Memory
  import opened Column
  import opened Engine
  import opened StoreBuffers
  import opened ByteMachine
  import opened Tso
  import opened TsoMemory
  import opened CrashPoints

  /** A clflushopt that completes left the store buffer after an sfence of its thread. */
  ghost predicate Fenced<R>(c: Cpu, s: Step<R>)
    requires CanStep(c, s)
  {
    s.Draining? ==> c.ThreadOf(s.t).flushBuffer[0].lastClflush.Some? || VALUE_NONE <= c.clock + 1
  }

  /** The steps from number `first` on are fenced. */
  ghost predicate FencedFrom<R>(steps: seq<Step<R>>, first: nat)
    requires Runs(steps)
  {
    |steps| <= first ||
    var n := |steps| - 1;
    FencedFrom(steps[..n], first) && Fenced(CpuAfter(steps[..n]), steps[n])
  }

  ghost predicate AllFenced<R>(steps: seq<Step<R>>)
    requires Runs(steps)
  {
    FencedFrom(steps, 0)
  }

  /** The step moves no interval's start back, nor past the step's own number. */
  ghost predicate InOrderBegins<R>(c: Cpu, s: Step<R>)
    requires CanStep(c, s)
  {
    forall line: nat, begin: nat :: WriteBack(line, begin) in Emitted(c, s) ==> BeginOf(c.begins, line) <= begin <= c.clock + 1
  }

  ghost predicate AllInOrder<R>(steps: seq<Step<R>>)
    requires Runs(steps)
  {
    steps == [] ||
    var n := |steps| - 1;
    AllInOrder(steps[..n]) && InOrderBegins(CpuAfter(steps[..n]), steps[n])
  }

  ghost predicate PastBegins(c: Cpu)
  {
    forall line: nat :: BeginOf(c.begins, line) <= c.clock
  }

  lemma DrainInOrder<R>(c: Cpu, t: nat)
    requires AllGood(c) && PastBegins(c) && CanStep(c, Step<R>.Draining(t))
    ensures InOrderBegins(c, Step<R>.Draining(t)) <==> Fenced(c, Step<R>.Draining(t))
  {
    hide Good, Drain, Thread.BeginAfter;
    var s := Step<R>.Draining(t);
    var th := c.ThreadOf(t);
    var f := th.flushBuffer[0];
    DrainIsFlush(c, t);
    assert Recent(th, c.clock) && f in th.flushBuffer;
    FlushPointRecent(th, f, BeginOf(c.begins, f.Line()), c.clock);
    assert Emitted(c, s) == [WriteBack(f.Line(), th.BeginAfter(f, BeginOf(c.begins, f.Line()), c.clock + 1))];
    assert InOrderBegins(c, s) ==> WriteBack(f.Line(), StepNext(c, s).begins[f.Line()]) in Emitted(c, s);
  }

  lemma StepInOrder<R>(c: Cpu, s: Step<R>)
    requires AllGood(c) && PastBegins(c) && CanStep(c, s)
    ensures InOrderBegins(c, s) <==> Fenced(c, s)
  {
    if s.Draining? {
      DrainInOrder<R>(c, s.t);
    } else {
      NotDrainedInOrder(c, s);
    }
  }

  lemma NotDrainedInOrder<R>(c: Cpu, s: Step<R>)
    requires PastBegins(c) && CanStep(c, s) && !s.Draining?
    ensures InOrderBegins(c, s)
  {
    hide Evict, Drain, Issue, BeginOf;
    forall line: nat, begin: nat | WriteBack(line, begin) in Emitted(c, s)
      ensures BeginOf(c.begins, line) <= begin <= c.clock + 1
    {
      assert s.Evicting?;
      assert line == c.ThreadOf(s.t).storeBuffer[0].Line() && begin == c.clock + 1;
      assert BeginOf(c.begins, line) <= c.clock;
    }
  }

  lemma StepPastBegins<R>(c: Cpu, s: Step<R>)
    requires AllGood(c) && PastBegins(c) && CanStep(c, s) && InOrderBegins(c, s)
    ensures PastBegins(StepNext(c, s))
  {
    hide Good, Recent, Evict, Drain, Issue;
    var d := StepNext(c, s);
    if s.Draining? {
      DrainIsFlush(c, s.t);
      var f := c.ThreadOf(s.t).flushBuffer[0];
      assert WriteBack(f.Line(), d.begins[f.Line()]) in Emitted(c, s);
    }
    forall line: nat
      ensures BeginOf(d.begins, line) <= d.clock
    {
      assert BeginOf(c.begins, line) <= c.clock;
    }
  }

  /** Starts of intervals never move back and never pass the present, exactly in the runs whose completed clflushopts are fenced. */
  lemma {:induction false} BeginsOrderedExactly<R>(steps: seq<Step<R>>)
    requires Runs(steps)
    ensures AllInOrder(steps) <==> AllFenced(steps)
    ensures AllFenced(steps) ==> PastBegins(CpuAfter(steps))
  {
    if steps != [] {
      var n := |steps| - 1;
      BeginsOrderedExactly(steps[..n]);
      RunGood(steps[..n]);
      if AllFenced(steps[..n]) {
        StepInOrder(CpuAfter(steps[..n]), steps[n]);
        if Fenced(CpuAfter(steps[..n]), steps[n]) {
          StepPastBegins(CpuAfter(steps[..n]), steps[n]);
        }
      }
    }
  }

  // ----- What that means for the events of one execution -----

  /** A machine at the start of an execution. */
  ghost predicate AtStart(m: Machine)
  {
    m.clock == FRESH_CLOCK && m.begins == map[] && m.history == []
  }

  lemma OrderlyEvent(c: Cpu, m: Machine, s: ByteStep)
    requires AllGood(c) && CanStep(c, s) && InStep(c, m) && !s.PowerFail?
    ensures (forall ev :: ev in Emitted(c, s) ==> Orderly(m, ev)) <==> InOrderBegins(c, s)
  {
    hide Good, Recent, Evict, Drain, Issue;
    var out := Emitted(c, s);
    assert forall line: nat :: m.Begin(line) == BeginOf(c.begins, line);
    if InOrderBegins(c, s) {
      forall ev | ev in out
        ensures Orderly(m, ev)
      {
        if ev.WriteBack? {
          assert WriteBack(ev.line, ev.begin) in out;
        }
      }
    }
  }

  lemma OrderlySnoc(m: Machine, run: seq<ByteEvent>, ev: ByteEvent, choice: Choice)
    ensures OrderlyFrom(m, run + [ev], choice) <==> OrderlyFrom(m, run, choice) && Orderly(StateFrom(m, run, choice), ev)
    ensures StateFrom(m, run + [ev], choice) == MachineNext(StateFrom(m, run, choice), ev, choice)
  {
    hide Orderly;
    var all := run + [ev];
    assert all[..|run|] == run;
    if OrderlyFrom(m, all, choice) {
      forall i: nat | i < |run|
        ensures Orderly(StateFrom(m, run[..i], choice), run[i])
      {
        assert all[..i] == run[..i];
        assert Orderly(StateFrom(m, all[..i], choice), all[i]);
      }
      assert Orderly(StateFrom(m, all[..|run|], choice), all[|run|]);
    }
    if OrderlyFrom(m, run, choice) && Orderly(StateFrom(m, run, choice), ev) {
      forall i: nat | i < |all|
        ensures Orderly(StateFrom(m, all[..i], choice), all[i])
      {
        if i < |run| {
          assert all[..i] == run[..i];
        }
      }
    }
  }

  /** The events of a run grow by at most one event with each step. */
  lemma EventsGrow(m: Machine, steps: seq<ByteStep>, choice: Choice)
    requires Runs(steps) && steps != []
    ensures var n := |steps| - 1;
            var before := StateFrom(m, EventsOf(steps[..n]), choice);
            var out := Emitted(CpuAfter(steps[..n]), steps[n]);
            && |out| <= 1
            && StateFrom(m, EventsOf(steps), choice) == After(before, out, choice)
            && (OrderlyFrom(m, EventsOf(steps), choice) <==>
                OrderlyFrom(m, EventsOf(steps[..n]), choice) && forall ev :: ev in out ==> Orderly(before, ev))
  {
    hide OrderlyFrom, Orderly, MachineNext, StepNext;
    var n := |steps| - 1;
    EmittedOnce(CpuAfter(steps[..n]), steps[n]);
    hide Emitted, CpuAfter;
    var evs, out := EventsOf(steps[..n]), Emitted(CpuAfter(steps[..n]), steps[n]);
    if out == [] {
      assert evs + out == evs;
    } else {
      assert out == [out[0]];
      OrderlySnoc(m, evs, out[0], choice);
    }
  }

  lemma {:induction false} FromInStep(m: Machine, steps: seq<ByteStep>, choice: Choice)
    requires AtStart(m) && Runs(steps)
    ensures InStep(CpuAfter(steps), StateFrom(m, EventsOf(steps), choice))
    decreases |steps|
  {
    if steps != [] {
      hide InStep, AllGood, MachineNext, OrderlyFrom, After, Emitted, StateFrom;
      var n := |steps| - 1;
      FromInStep(m, steps[..n], choice);
      RunGood(steps[..n]);
      EventsGrow(m, steps, choice);
      StepInStep(CpuAfter(steps[..n]), StateFrom(m, EventsOf(steps[..n]), choice), steps[n], choice);
    } else {
      StartInStep(m);
    }
  }

  lemma StartInStep(m: Machine)
    requires AtStart(m)
    ensures InStep(Boot(), m)
  {
  }

  lemma EmittedOnce<R>(c: Cpu, s: Step<R>)
    requires CanStep(c, s)
    ensures |Emitted(c, s)| <= 1
  {
  }

  /** The condition under which the checker's crash points suffice, in terms of what the program does. */
  lemma {:induction false} OrderlyExactlyWhenFenced(m: Machine, steps: seq<ByteStep>, choice: Choice)
    requires AtStart(m) && Runs(steps) && NoCrash(steps)
    ensures OrderlyFrom(m, EventsOf(steps), choice) <==> AllFenced(steps)
  {
    BeginsOrderedExactly(steps);
    OrderlyInOrder(m, steps, choice);
  }

  lemma {:induction false} OrderlyInOrder(m: Machine, steps: seq<ByteStep>, choice: Choice)
    requires AtStart(m) && Runs(steps) && NoCrash(steps)
    ensures OrderlyFrom(m, EventsOf(steps), choice) <==> AllInOrder(steps)
  {
    if steps != [] {
      hide OrderlyFrom, Orderly, InOrderBegins, AllGood, InStep, StateFrom, Emitted, EventsOf;
      var n := |steps| - 1;
      OrderlyInOrder(m, steps[..n], choice);
      FromInStep(m, steps[..n], choice);
      RunGood(steps[..n]);
      EventsGrow(m, steps, choice);
      assert steps[n] in steps;
      OrderlyEvent(CpuAfter(steps[..n]), StateFrom(m, EventsOf(steps[..n]), choice), steps[n]);
    } else {
      assert EventsOf(steps) == [];
    }
  }

  /** Crash-point reduction for programs whose completed clflushopts are fenced. */
  lemma FencedCrashPointsSuffice(raw: nat -> Byte, pre: seq<ByteEvent>, steps: seq<ByteStep>, post: seq<ByteEvent>, choice: Choice, k: nat, first: nat)
    returns (j: nat)
    requires StartsExecution(pre) && Runs(steps) && NoCrash(steps) && AllFenced(steps)
    requires MachineValid(raw, pre + EventsOf(steps), choice)
    requires k <= |EventsOf(steps)| && first <= StateAfter(raw, pre + EventsOf(steps)[..k]).clock
    requires MachineValid(raw, pre + EventsOf(steps)[..k] + [Crash] + post, choice)
    ensures ChecksAt(raw, pre, EventsOf(steps), j, first)
    ensures var there := pre + EventsOf(steps)[..j] + [Crash] + post;
            MachineShows(raw, there) && (MeetsNoInit(raw, there) ==> CheckerShows(raw, there))
  {
    hide MachineValid, OrderlyFrom, Runs, EventsOf, AllFenced, NoCrash;
    assert AtStart(MachineState(raw, pre, choice));
    OrderlyExactlyWhenFenced(MachineState(raw, pre, choice), steps, choice);
    j := CrashPointsSuffice(raw, pre, EventsOf(steps), post, choice, k, first);
  }

  lemma FencedReduces(raw: nat -> Byte, pre: seq<ByteEvent>, steps: seq<ByteStep>)
    requires StartsExecution(pre) && Runs(steps) && NoCrash(steps) && AllFenced(steps)
    ensures Reduces(raw, pre, EventsOf(steps))
  {
    hide MachineValid, Runs, EventsOf, AllFenced, NoCrash, ChecksAt, StartsExecution;
    var run := EventsOf(steps);
    forall post, choice, k: nat, first: nat | k <= |run| && first <= StateAfter(raw, pre + run[..k]).clock
        && MachineValid(raw, pre + run, choice) && MachineValid(raw, pre + run[..k] + [Crash] + post, choice)
      ensures CheckShows(raw, pre, run, post, first)
    {
      var j := FencedCrashPointsSuffice(raw, pre, steps, post, choice, k, first);
    }
  }

  // ----- Runs with a flush that is not fenced -----

  lemma {:induction false} FencedJoin<R>(steps: seq<Step<R>>, i: nat)
    requires Runs(steps) && i <= |steps| && Runs(steps[..i])
    ensures AllFenced(steps) <==> AllFenced(steps[..i]) && FencedFrom(steps, i)
    decreases |steps|
  {
    if i < |steps| {
      hide Fenced;
      var n := |steps| - 1;
      assert steps[..n][..i] == steps[..i];
      FencedJoin(steps[..n], i);
    } else {
      assert steps[..i] == steps;
    }
  }

  /** The first flush that is not fenced. */
  lemma {:induction false} FirstUnfenced<R>(steps: seq<Step<R>>) returns (n: nat)
    requires Runs(steps) && !AllFenced(steps)
    ensures n < |steps| && Runs(steps[..n]) && AllFenced(steps[..n])
    ensures CanStep(CpuAfter(steps[..n]), steps[n]) && !Fenced(CpuAfter(steps[..n]), steps[n])
  {
    n := |steps| - 1;
    if !AllFenced(steps[..n]) {
      var i := FirstUnfenced(steps[..n]);
      assert steps[..n][..i] == steps[..i];
      n := i;
    }
  }

  /** It makes its line's interval start in the future. */
  lemma UnfencedOverBegins<R>(c: Cpu, s: Step<R>)
    requires AllGood(c) && PastBegins(c) && CanStep(c, s) && !Fenced(c, s)
    ensures var line := c.ThreadOf(s.t).flushBuffer[0].Line();
            CacheId(line) == line && StepNext(c, s).clock < BeginOf(StepNext(c, s).begins, line)
  {
    hide Good, Drain, Thread.BeginAfter;
    var t := s.t;
    var th := c.ThreadOf(t);
    var f := th.flushBuffer[0];
    DrainIsFlush(c, t);
    assert Recent(th, c.clock) && f in th.flushBuffer;
    FlushPointRecent(th, f, BeginOf(c.begins, f.Line()), c.clock);
    LineOfLine(f.loc);
  }

  lemma LineOfLine(a: nat)
    ensures CacheId(CacheId(a)) == CacheId(a)
  {
    var q := a / CACHE_LINE_SIZE;
    assert CacheId(a) == q * CACHE_LINE_SIZE;
  }

  lemma UnusedThread(c: Cpu) returns (t: nat)
    ensures t !in c.threads
  {
    t := AboveAll(c.threads.Keys);
  }

  lemma {:induction false} AboveAll(s: set<nat>) returns (t: nat)
    ensures forall x :: x in s ==> x < t
  {
    t := 0;
    if s != {} {
      var x :| x in s;
      var rest := AboveAll(s - {x});
      t := if x < rest then rest else x + 1;
      assert forall y :: y in s ==> y == x || y in s - {x};
    }
  }

  /** A thread with an empty store buffer issues a store and evicts it. */
  lemma IssueAndEvict(steps: seq<ByteStep>, t: nat, loc: nat, y: Byte) returns (longer: seq<ByteStep>)
    requires Runs(steps) && CpuAfter(steps).ThreadOf(t).storeBuffer == []
    ensures longer == steps + [Issuing(t, OpWrite(false), loc, [y]), Evicting(t)]
    ensures Runs(longer) && CpuAfter(longer).ThreadOf(t).storeBuffer == []
    ensures EventsOf(longer) == EventsOf(steps) + [Store(loc, [y], false)]
  {
    hide Runs, CpuAfter, EventsOf;
    var issue, evict := ByteStep.Issuing(t, OpWrite(false), loc, [y]), ByteStep.Evicting(t);
    assert InWord(loc, 1);
    RunsSnoc(steps, issue);
    RunsSnoc(steps + [issue], evict);
    assert EventsOf(steps) + [] == EventsOf(steps);
    longer := steps + [issue] + [evict];
    assert longer == steps + [issue, evict];
  }

  /** One more store, by a thread that did nothing so far. */
  lemma OneMoreStore(steps: seq<ByteStep>, line: nat, y: Byte) returns (longer: seq<ByteStep>)
    requires Runs(steps) && NoCrash(steps)
    ensures Runs(longer) && NoCrash(longer) && |longer| == |steps| + 2 && longer[..|steps|] == steps
    ensures FencedFrom(longer, |steps|)
    ensures EventsOf(longer) == EventsOf(steps) + [Store(line, [y], false)]
  {
    hide Runs, CpuAfter, EventsOf, FencedFrom;
    var t := UnusedThread(CpuAfter(steps));
    longer := IssueAndEvict(steps, t, line, y);
    assert longer[..|steps|] == steps;
    NotDraining(longer, |steps|);
  }

  lemma NotDraining(steps: seq<ByteStep>, first: nat)
    requires Runs(steps) && first <= |steps| && forall i :: first <= i < |steps| ==> !steps[i].Draining?
    ensures FencedFrom(steps, first)
  {
    hide CpuAfter;
  }

  lemma {:induction false} UncrashedOf(steps: seq<ByteStep>)
    requires Runs(steps) && NoCrash(steps)
    ensures forall ev :: ev in EventsOf(steps) ==> !ev.Crash?
  {
    UncrashedEvents(steps);
  }

  lemma UnfencedPrefix(raw: nat -> Byte, pre: seq<ByteEvent>, steps: seq<ByteStep>, choice: Choice) returns (i: nat, longer: seq<ByteStep>)
    requires StartsExecution(pre) && Runs(steps) && NoCrash(steps) && !AllFenced(steps)
    requires MachineValid(raw, pre + EventsOf(steps), choice)
    ensures i <= |steps| && Runs(longer) && NoCrash(longer) && i <= |longer| && longer[..i] == steps[..i] && FencedFrom(longer, i)
    ensures !Reduces(raw, pre, EventsOf(longer))
  {
    hide MachineValid, AllGood, PastBegins, Fenced, InStep, Reduces, CpuAfter, MachineState, StateFrom, StartsExecution;
    var n := FirstUnfenced(steps);
    i := n + 1;
    var p := steps[..i];
    assert p[..n] == steps[..n] && p[n] == steps[n];
    PrefixRuns(steps, i);
    hide Runs, EventsOf, FencedFrom;
    BeginsOrderedExactly(steps[..n]);
    RunGood(steps[..n]);
    var line := UnfencedLine(p);
    var m0 := MachineState(raw, pre, choice);
    StartAtStart(raw, pre, choice);
    FromInStep(m0, p, choice);
    FromConcat(raw, pre, EventsOf(p), choice);
    var m := MachineState(raw, pre + EventsOf(p), choice);
    LineInStep(CpuAfter(p), m, line);
    PrefixNoCrash(steps, i);
    UncrashedOf(p);
    MachineSplit(raw, pre, EventsOf(steps), EventsOf(p), choice);
    OverBegunLoses(raw, pre, EventsOf(p), line, choice);
    longer := OneMoreStore(p, line, OtherByte(EarlyByte(m, line)));
  }

  lemma StartAtStart(raw: nat -> Byte, pre: seq<ByteEvent>, choice: Choice)
    requires StartsExecution(pre)
    ensures AtStart(MachineState(raw, pre, choice))
  {
  }

  lemma UnfencedLine(p: seq<ByteStep>) returns (line: nat)
    requires Runs(p) && p != []
    requires var n := |p| - 1; var c := CpuAfter(p[..n]); AllGood(c) && PastBegins(c) && !Fenced(c, p[n])
    ensures CacheId(line) == line && CpuAfter(p).clock < BeginOf(CpuAfter(p).begins, line)
  {
    var n := |p| - 1;
    var c := CpuAfter(p[..n]);
    UnfencedOverBegins(c, p[n]);
    line := c.ThreadOf(p[n].t).flushBuffer[0].Line();
  }

  lemma LineInStep(c: Cpu, m: Machine, line: nat)
    requires InStep(c, m) && c.clock < BeginOf(c.begins, line)
    ensures m.clock < m.Begin(line)
  {
  }

  lemma PrefixNoCrash(steps: seq<ByteStep>, i: nat)
    requires NoCrash(steps) && i <= |steps|
    ensures NoCrash(steps[..i])
  {
  }

  lemma MachineSplit(raw: nat -> Byte, pre: seq<ByteEvent>, run: seq<ByteEvent>, first: seq<ByteEvent>, choice: Choice)
    requires MachineValid(raw, pre + run, choice) && first <= run
    ensures MachineValid(raw, pre + first, choice)
  {
    hide MachineValid, MachineState, ValidFrom, StateFrom;
    assert run[..|first|] == first;
    FromConcat(raw, pre, run, choice);
    ValidPrefix(MachineState(raw, pre, choice), run, |first|, choice);
    FromConcat(raw, pre, first, choice);
  }

  /** However the execution goes on from any of its points, if later flushes are fenced, the checks stand for all crash points. */
  ghost predicate AlwaysReduces(raw: nat -> Byte, pre: seq<ByteEvent>, steps: seq<ByteStep>)
  {
    forall i: nat, longer: seq<ByteStep> ::
      i <= |steps| && Runs(longer) && NoCrash(longer) && i <= |longer| && longer[..i] == steps[..i] && FencedFrom(longer, i)
      ==> Reduces(raw, pre, EventsOf(longer))
  }

  /** The exact condition: the checks stand for all crash points, however the execution goes on, exactly if its flushes are fenced. */
  lemma ReducesExactlyWhenFenced(raw: nat -> Byte, pre: seq<ByteEvent>, steps: seq<ByteStep>, choice: Choice)
    requires StartsExecution(pre) && Runs(steps) && NoCrash(steps)
    requires MachineValid(raw, pre + EventsOf(steps), choice)
    ensures AlwaysReduces(raw, pre, steps) <==> AllFenced(steps)
  {
    hide MachineValid, Runs, EventsOf, Reduces, NoCrash, FencedFrom, AllFenced, StartsExecution;
    if AllFenced(steps) {
      forall i: nat, longer: seq<ByteStep> |
          i <= |steps| && Runs(longer) && NoCrash(longer) && i <= |longer| && longer[..i] == steps[..i] && FencedFrom(longer, i)
        ensures Reduces(raw, pre, EventsOf(longer))
      {
        PrefixRuns(steps, i);
        FencedJoin(steps, i);
        FencedJoin(longer, i);
        FencedReduces(raw, pre, longer);
      }
    } else {
      var i, longer := UnfencedPrefix(raw, pre, steps, choice);
    }
  }

  // ----- The runs in which it fails -----

  /** A clflushopt without an sfence before it, and then a store to its line that nothing flushes. */
  ghost function UnfencedSteps(): seq<ByteStep>
  {
    [Issuing(0, OpClflushOpt, 0, []), Evicting(0), Draining(0), Issuing(0, OpWrite(false), 0, [1]), Evicting(0), PowerFail, Reading(0, 0, 1, [0])]
  }

  ghost function UnfencedEvents(begin: nat): seq<ByteEvent>
  {
    [WriteBack(0, begin), Store(0, [1], false), Crash, Load(0, 1, [], [0])]
  }

  lemma UnfencedFlush()
    ensures var s := UnfencedSteps()[..3];
            && Runs(s) && CpuAfter(s).begins == map[0 := VALUE_NONE] && CpuAfter(s).ThreadOf(0).storeBuffer == []
            && EventsOf(s) == [WriteBack(0, VALUE_NONE)]
  {
    hide Runs, CpuAfter, EventsOf;
    var s := UnfencedSteps();
    var none: seq<ByteStep> := [];
    NoStep<seq<Byte>>();
    RunsSnoc(none, s[0]);
    RunsSnoc(none + [s[0]], s[1]);
    RunsSnoc(none + [s[0]] + [s[1]], s[2]);
    assert none + [s[0]] + [s[1]] + [s[2]] == s[..3];
  }

  lemma UnfencedRun()
    ensures Runs(UnfencedSteps()) && EventsOf(UnfencedSteps()) == UnfencedEvents(VALUE_NONE)
  {
    hide Runs, CpuAfter, EventsOf;
    var s := UnfencedSteps();
    UnfencedFlush();
    RunsSnoc(s[..3], s[3]);
    RunsSnoc(s[..3] + [s[3]], s[4]);
    RunsSnoc(s[..3] + [s[3]] + [s[4]], s[5]);
    RunsSnoc(s[..3] + [s[3]] + [s[4]] + [s[5]], s[6]);
    assert s[..3] + [s[3]] + [s[4]] + [s[5]] + [s[6]] == s;
  }

  lemma NoStep<R>()
    ensures var none: seq<Step<R>> := []; Runs(none) && CpuAfter(none) == Boot() && EventsOf(none) == []
  {
  }

  lemma UnfencedMachine(begin: nat, choice: Choice)
    ensures MachineValid(Zeros(), UnfencedEvents(begin), choice) <==>
            (forall line: nat :: (if line == 0 then begin else 0) <= Pick(choice, 0, line)) && Pick(choice, 0, 0) < 3
  {
    var raw := Zeros();
    var none: seq<ByteEvent> := [];
    var e := UnfencedEvents(begin);
    MachineSnoc(raw, none, e[0], choice);
    MachineSnoc(raw, none + [e[0]], e[1], choice);
    MachineSnoc(raw, none + [e[0]] + [e[1]], e[2], choice);
    MachineSnoc(raw, none + [e[0]] + [e[1]] + [e[2]], e[3], choice);
    assert none + [e[0]] + [e[1]] + [e[2]] + [e[3]] == e;
    var m := MachineState(raw, none + [e[0]] + [e[1]], choice);
    UnfencedBegins(m, begin, choice);
    UnfencedByte(m, MachineNext(m, Crash, choice), choice);
  }

  lemma UnfencedBegins(m: Machine, begin: nat, choice: Choice)
    requires m.begins == map[0 := begin] && m.crashes == 0
    ensures BeginsReached(m, choice) <==> forall line: nat :: (if line == 0 then begin else 0) <= Pick(choice, 0, line)
  {
    assert forall line: nat :: m.Begin(line) == if line == 0 then begin else 0;
  }

  lemma UnfencedByte(m: Machine, n: Machine, choice: Choice)
    requires m.history == [Write(0, [1], 3, false)] && m.image == Zeros() && m.crashes == 0
    requires n == MachineNext(m, Crash, choice)
    ensures n.ReadAll([], 0, 1) == [0] <==> Pick(choice, 0, 0) < 3
  {
    var w := Write(0, [1], 3, false);
    var p := Pick(choice, 0, 0);
    LastCoveringAppend([], w, 0, p);
    assert [] + [w] == m.history;
    CrashByteAt(m, choice, 0);
    assert n.Read([], 0) == Peek(n.image, 0);
    assert n.ReadAll([], 0, 1)[0] == n.Read([], 0 + 0);
  }

  lemma {:induction false} FencedAt<R>(steps: seq<Step<R>>, i: nat)
    requires Runs(steps) && AllFenced(steps) && i < |steps|
    ensures Runs(steps[..i]) && CanStep(CpuAfter(steps[..i]), steps[i]) && Fenced(CpuAfter(steps[..i]), steps[i])
    decreases |steps|
  {
    var n := |steps| - 1;
    if i < n {
      FencedAt(steps[..n], i);
      assert steps[..n][..i] == steps[..i];
    }
  }

  lemma UnfencedIsNotFenced()
    requires Runs(UnfencedSteps())
    ensures !AllFenced(UnfencedSteps())
  {
    hide Runs, CpuAfter, EventsOf, AllFenced;
    var s := UnfencedSteps();
    var none: seq<ByteStep> := [];
    NoStep<seq<Byte>>();
    RunsSnoc(none, s[0]);
    RunsSnoc(none + [s[0]], s[1]);
    assert none + [s[0]] + [s[1]] == s[..2];
    if AllFenced(s) {
      FencedAt(s, 2);
    }
  }

  /**
   An unfenced clflushopt makes the checker treat stores that come after it as written
   back: the crash that loses the store below can happen, since the flush only promises
   what was committed before it was issued as number 1, but the checker does not show it.
   */
  lemma UnfencedFlushLosesState()
    ensures Runs(UnfencedSteps()) && !AllFenced(UnfencedSteps())
    ensures !CheckerShows(Zeros(), EventsOf(UnfencedSteps()))
    ensures CheckerShows(Zeros(), UnfencedEvents(1))
  {
    hide MachineValid, Runs, AllFenced, CpuAfter, EventsOf, CheckerShows, MeetsNoInit;
    UnfencedRun();
    UnfencedIsNotFenced();
    CheckerIsExact(Zeros(), UnfencedEvents(VALUE_NONE));
    if choice: Choice :| MachineValid(Zeros(), UnfencedEvents(VALUE_NONE), choice) {
      UnfencedMachine(VALUE_NONE, choice);
    }
    PlainMeetsNoInit(Zeros(), UnfencedEvents(1));
    CheckerIsExact(Zeros(), UnfencedEvents(1));
    var choice: Choice := (e, line) => 1;
    UnfencedMachine(1, choice);
    assert MachineValid(Zeros(), UnfencedEvents(1), choice);
  }

  // ----- A crash point that is lost -----

  /** A clflushopt without an sfence, and then two stores to its line. */
  ghost function LostSteps(): seq<ByteStep>
  {
    UnfencedSteps()[..3] + [Issuing(0, OpWrite(false), 0, [1]), Evicting(0), Issuing(0, OpWrite(false), 1, [1]), Evicting(0)]
  }

  ghost function LostEvents(): seq<ByteEvent>
  {
    [WriteBack(0, VALUE_NONE), Store(0, [1], false), Store(1, [1], false)]
  }

  /** The first store is there and the second is not. */
  ghost function LostLoad(): seq<ByteEvent>
  {
    [Load(0, 2, [], [1, 0])]
  }

  lemma LostRun()
    ensures Runs(LostSteps()) && NoCrash(LostSteps()) && EventsOf(LostSteps()) == LostEvents()
  {
    hide Runs, CpuAfter, EventsOf;
    UnfencedFlush();
    var one := IssueAndEvict(UnfencedSteps()[..3], 0, 0, 1);
    var two := IssueAndEvict(one, 0, 1, 1);
    assert two == LostSteps();
  }

  lemma LostMachine(choice: Choice)
    ensures var e := LostEvents();
            && MachineState(Zeros(), [], choice) == PowerOn(Zeros())
            && MachineValid(Zeros(), e[..2], choice)
            && MachineState(Zeros(), e[..2], choice) == Machine(Zeros(), [Write(0, [1], 3, false)], map[0 := VALUE_NONE], 0, 3)
            && MachineState(Zeros(), e, choice)
               == Machine(Zeros(), [Write(0, [1], 3, false), Write(1, [1], 4, false)], map[0 := VALUE_NONE], 0, 4)
  {
    var raw := Zeros();
    var none: seq<ByteEvent> := [];
    var e := LostEvents();
    MachineSnoc(raw, none, e[0], choice);
    MachineSnoc(raw, none + [e[0]], e[1], choice);
    MachineSnoc(raw, none + [e[0]] + [e[1]], e[2], choice);
    assert none + [e[0]] + [e[1]] == e[..2];
    assert none + [e[0]] + [e[1]] + [e[2]] == e;
  }

  lemma LoadTwoAfterCrash(m: Machine, choice: Choice)
    ensures var p := Pick(choice, m.crashes, 0);
            ValidFrom(MachineNext(m, Crash, choice), LostLoad(), choice) <==> m.ByteAt(0, p) == 1 && m.ByteAt(1, p) == 0
  {
    var n := MachineNext(m, Crash, choice);
    assert LostLoad()[..0] == [];
    CrashByteAt(m, choice, 0);
    CrashByteAt(m, choice, 1);
    assert n.Read([], 0) == Peek(n.image, 0) && n.Read([], 1) == Peek(n.image, 1);
    var bytes := n.ReadAll([], 0, 2);
    assert bytes[0] == n.Read([], 0 + 0) && bytes[1] == n.Read([], 0 + 1);
    assert bytes == [1, 0] <==> bytes[0] == 1 && bytes[1] == 0;
  }

  lemma LostAtCrash(choice: Choice)
    requires forall e: nat, line: nat :: Pick(choice, e, line) == VALUE_NONE
    ensures MachineValid(Zeros(), LostEvents()[..2] + [Crash] + LostLoad(), choice)
  {
    LostMachine(choice);
    var m := MachineState(Zeros(), LostEvents()[..2], choice);
    LastCoveringAppend([], Write(0, [1], 3, false), 0, VALUE_NONE);
    LastCoveringAppend([], Write(0, [1], 3, false), 1, VALUE_NONE);
    assert [] + [Write(0, [1], 3, false)] == m.history;
    LoadTwoAfterCrash(m, choice);
    ThroughCrash(Zeros(), LostEvents()[..2], LostLoad(), choice);
  }

  lemma LostAtChecks(j: nat, choice: Choice)
    requires j == 0 || j == 3
    ensures !MachineValid(Zeros(), LostEvents()[..j] + [Crash] + LostLoad(), choice)
  {
    LostMachine(choice);
    assert LostEvents()[..3] == LostEvents();
    var m := MachineState(Zeros(), LostEvents()[..j], choice);
    var p := Pick(choice, 0, 0);
    if j == 3 {
      LastCoveringAppend([Write(0, [1], 3, false)], Write(1, [1], 4, false), 1, p);
      assert [Write(0, [1], 3, false)] + [Write(1, [1], 4, false)] == m.history;
      assert BeginsReached(m, choice) ==> m.Begin(0) <= p;
    }
    LoadTwoAfterCrash(m, choice);
    ThroughCrash(Zeros(), LostEvents()[..j], LostLoad(), choice);
  }

  /**
   Without the fence the crash points do not suffice: the crash between the two stores can
   leave the first without the second, and no crash that the checker considers can.
   */
  lemma UnfencedLosesCrashPoint()
    ensures Runs(LostSteps()) && NoCrash(LostSteps()) && EventsOf(LostSteps()) == LostEvents()
    ensures MachineShows(Zeros(), LostEvents()[..2] + [Crash] + LostLoad())
    ensures forall j: nat, first: nat :: ChecksAt(Zeros(), [], LostEvents(), j, first) ==>
                                 !MachineShows(Zeros(), LostEvents()[..j] + [Crash] + LostLoad())
  {
    hide MachineValid, Runs, EventsOf, NoWriteSinceCheck;
    LostRun();
    var choice: Choice := (e, line) => VALUE_NONE;
    LostAtCrash(choice);
    forall j: nat, first: nat | ChecksAt(Zeros(), [], LostEvents(), j, first)
      ensures !MachineShows(Zeros(), LostEvents()[..j] + [Crash] + LostLoad())
    {
      forall other: Choice
        ensures !MachineValid(Zeros(), LostEvents()[..j] + [Crash] + LostLoad(), other)
      {
        LostAtChecks(j, other);
      }
    }
  }
}
