/**
 What a completed flush covers, told by the steps of the run alone: the stores committed
 by any thread before the flush was issued, what its thread committed to the line before
 it, and what was committed up to the last fence before it. Its line's interval starts at
 the latest of these, and not later.
 */
module FlushCoverage {
  import opened Wrappers
  import opened Memory
  import opened StoreBuffers
  import opened Tso

  // ----- Numbers, as the steps give them -----

  ghost predicate Evicts<R>(c: Cpu, s: Step<R>, t: nat, kind: Kind)
    requires CanStep(c, s)
  {
    s == Evicting(t) && c.ThreadOf(t).storeBuffer[0].kind == kind
  }

  /** The number of the last sfence that thread `t` has evicted in this execution. */
  ghost function LastFence<R>(steps: seq<Step<R>>, t: nat): Option<nat>
    requires Runs(steps)
  {
    if steps == [] then None
    else
      var n := |steps| - 1;
      var c := CpuAfter(steps[..n]);
      if steps[n].PowerFail? then None
      else if Evicts(c, steps[n], t, OpSfence) then Some(c.clock + 1)
      else LastFence(steps[..n], t)
  }

  /** The step gives action `id` of thread `t` a number: a clflushopt gets it when it is drained, any other action when it is evicted. */
  ghost predicate Numbers<R>(c: Cpu, s: Step<R>, t: nat, id: nat)
    requires CanStep(c, s)
  {
    || (s == Evicting(t) && c.ThreadOf(t).storeBuffer[0].id == id && c.ThreadOf(t).storeBuffer[0].kind != OpClflushOpt)
    || (s == Draining(t) && c.ThreadOf(t).flushBuffer[0].id == id)
  }

  /** The number given to an action in this execution, 0 if it has none. */
  ghost function NumberGiven<R>(steps: seq<Step<R>>, t: nat, id: nat): nat
    requires Runs(steps)
  {
    if steps == [] then 0
    else
      var n := |steps| - 1;
      var c := CpuAfter(steps[..n]);
      if steps[n].PowerFail? then 0
      else if Numbers(c, steps[n], t, id) then c.clock + 1
      else NumberGiven(steps[..n], t, id)
  }

  lemma {:induction false} LastFenceIs<R>(steps: seq<Step<R>>, t: nat)
    requires Runs(steps)
    ensures CpuAfter(steps).ThreadOf(t).lastSfence == LastFence(steps, t)
  {
    if steps != [] {
      hide StepNext, CanStep;
      var n := |steps| - 1;
      LastFenceIs(steps[..n], t);
      StepFence(CpuAfter(steps[..n]), steps[n], t);
    }
  }

  lemma StepFence<R>(c: Cpu, s: Step<R>, t: nat)
    requires CanStep(c, s)
    ensures StepNext(c, s).ThreadOf(t).lastSfence ==
            if s.PowerFail? then None else if Evicts(c, s, t, OpSfence) then Some(c.clock + 1) else c.ThreadOf(t).lastSfence
  {
  }

  lemma {:induction false} NumberIs<R>(steps: seq<Step<R>>, t: nat, id: nat)
    requires Runs(steps)
    ensures CpuAfter(steps).ThreadOf(t).Number(id) == NumberGiven(steps, t, id)
  {
    if steps != [] {
      hide StepNext, CanStep, Thread.Number, Numbers;
      var n := |steps| - 1;
      NumberIs(steps[..n], t, id);
      StepNumber(CpuAfter(steps[..n]), steps[n], t, id);
    }
  }

  lemma StepNumber<R>(c: Cpu, s: Step<R>, t: nat, id: nat)
    requires CanStep(c, s)
    ensures StepNext(c, s).ThreadOf(t).Number(id) ==
            if s.PowerFail? then 0 else if Numbers(c, s, t, id) then c.clock + 1 else c.ThreadOf(t).Number(id)
  {
  }

  /** The latest store or clflush to the line among the first `n` actions. */
  ghost function LatestOn(program: seq<Action>, n: nat, line: nat): Option<nat>
    requires n <= |program|
  {
    if n == 0 then None
    else
      var a := program[n - 1];
      if (a.kind.OpWrite? || a.kind == OpClflush) && a.Line() == line then Some(n - 1) else LatestOn(program, n - 1, line)
  }

  lemma {:induction false} LatestIs(program: seq<Action>, n: nat, line: nat, last: Option<nat>)
    requires n <= |program| && Latest(program, n, line, last)
    ensures LatestOn(program, n, line) == last
  {
    if n > 0 {
      if program[n - 1].Marks(line) {
        assert last == Some(n - 1);
      } else {
        LatestIs(program, n - 1, line, last);
      }
    }
  }

  // ----- Steps without a crash -----

  ghost predicate NoPowerFail<R>(steps: seq<Step<R>>, from: nat)
  {
    forall m: nat :: from <= m < |steps| ==> !steps[m].PowerFail?
  }

  ghost predicate IsPrefix(a: seq<Action>, b: seq<Action>)
  {
    a <= b
  }

  lemma StepProgram<R>(c: Cpu, s: Step<R>, t: nat)
    requires CanStep(c, s) && !s.PowerFail?
    ensures IsPrefix(c.ThreadOf(t).program, StepNext(c, s).ThreadOf(t).program)
  {
  }

  lemma SameLater(begins: map<nat, nat>, clock: nat)
    ensures Later(begins, begins, clock)
  {
  }

  lemma StepLater<R>(c: Cpu, s: Step<R>)
    requires CanStep(c, s) && !s.PowerFail?
    ensures Later(c.begins, StepNext(c, s).begins, c.clock) && c.clock <= StepNext(c, s).clock
  {
    hide Issue, Evict, Drain, Later;
    match s
    case Evicting(t) => LaterBegins(c.ThreadOf(t), c.ThreadOf(t).storeBuffer[0], c.begins, c.clock);
    case Draining(t) => LaterBegins(c.ThreadOf(t), c.ThreadOf(t).flushBuffer[0], c.begins, c.clock);
    case _ => SameLater(c.begins, c.clock);
  }

  /** One step back from the end of a prefix. */
  lemma StepBack<R>(steps: seq<Step<R>>, i: nat, m: nat)
    requires Runs(steps) && i < m <= |steps| && NoPowerFail(steps[..m], i)
    ensures NoPowerFail(steps[..m - 1], i) && !steps[m - 1].PowerFail?
    ensures Runs(steps[..m - 1]) && CanStep(CpuAfter(steps[..m - 1]), steps[m - 1])
    ensures Runs(steps[..m]) && CpuAfter(steps[..m]) == StepNext(CpuAfter(steps[..m - 1]), steps[m - 1])
  {
    hide Runs, CpuAfter, EventsOf, StepNext, CanStep;
    PrefixRuns(steps, m - 1);
    assert m - 1 + 1 == m;
    var a, b := steps[..m], steps[..m - 1];
    assert a[m - 1] == steps[m - 1];
    forall l: nat | i <= l < |b|
      ensures !b[l].PowerFail?
    {
      assert b[l] == a[l];
    }
  }

  /** What was issued stays in the program. */
  lemma {:induction false} ProgramKept<R>(steps: seq<Step<R>>, i: nat, m: nat, t: nat)
    requires Runs(steps) && i <= m <= |steps| && NoPowerFail(steps[..m], i)
    requires Runs(steps[..i]) && Runs(steps[..m])
    ensures IsPrefix(CpuAfter(steps[..i]).ThreadOf(t).program, CpuAfter(steps[..m]).ThreadOf(t).program)
  {
    if i < m {
      hide CanStep, StepNext, CpuAfter, Runs, EventsOf, NoPowerFail;
      StepBack(steps, i, m);
      ProgramKept(steps, i, m - 1, t);
      StepProgram(CpuAfter(steps[..m - 1]), steps[m - 1], t);
    }
  }

  /** Once an interval starts at a past number or later, it goes on doing so. */
  lemma {:induction false} BeginKept<R>(steps: seq<Step<R>>, k: nat, line: nat, n: nat)
    requires Runs(steps) && k <= |steps| && NoPowerFail(steps, k) && Runs(steps[..k])
    requires n <= CpuAfter(steps[..k]).clock && n <= BeginOf(CpuAfter(steps[..k]).begins, line)
    ensures n <= CpuAfter(steps).clock && n <= BeginOf(CpuAfter(steps).begins, line)
    decreases |steps|
  {
    if k < |steps| {
      hide CanStep, StepNext, BeginOf;
      var last := |steps| - 1;
      PrefixRuns(steps, last);
      assert steps[..last][..k] == steps[..k];
      BeginKept(steps[..last], k, line, n);
      StepLater(CpuAfter(steps[..last]), steps[last]);
      assert steps[..last + 1] == steps;
    } else {
      assert steps[..k] == steps;
    }
  }

  // ----- The flush -----

  /** Step `i` issues action `id` of thread `t`. */
  ghost predicate Issues<R>(steps: seq<Step<R>>, i: nat, t: nat, id: nat, kind: Kind, loc: nat)
    requires Runs(steps)
  {
    && i < |steps| && Runs(steps[..i]) && steps[i].Issuing? && steps[i].t == t && steps[i].kind == kind && steps[i].loc == loc
    && id == |CpuAfter(steps[..i]).ThreadOf(t).program|
  }

  /** Step `k` completes the flush `id` of thread `t`. */
  ghost predicate Completes<R>(steps: seq<Step<R>>, k: nat, t: nat, id: nat)
    requires Runs(steps)
  {
    && k < |steps| && Runs(steps[..k]) && CanStep(CpuAfter(steps[..k]), steps[k])
    && var th := CpuAfter(steps[..k]).ThreadOf(t);
       || (steps[k] == Draining(t) && th.flushBuffer[0].id == id)
       || (steps[k] == Evicting(t) && th.storeBuffer[0].id == id && th.storeBuffer[0].kind == OpClflush)
  }

  /** Step `j` takes the clflushopt `id` of thread `t` out of the store buffer. */
  ghost predicate Leaves<R>(steps: seq<Step<R>>, j: nat, t: nat, id: nat)
    requires Runs(steps)
  {
    && j < |steps| && Runs(steps[..j]) && CanStep(CpuAfter(steps[..j]), steps[j])
    && Evicts(CpuAfter(steps[..j]), steps[j], t, OpClflushOpt) && CpuAfter(steps[..j]).ThreadOf(t).storeBuffer[0].id == id
  }

  /** The flush that completes is the one that was issued. */
  lemma IssuedAction<R>(steps: seq<Step<R>>, i: nat, k: nat, t: nat, id: nat, kind: Kind, loc: nat) returns (a: Action)
    requires Runs(steps) && Issues(steps, i, t, id, kind, loc) && i < k <= |steps| && NoPowerFail(steps[..k], i)
    requires kind == OpClflush || kind == OpClflushOpt
    requires Runs(steps[..k])
    ensures id < |CpuAfter(steps[..k]).ThreadOf(t).program| && a == CpuAfter(steps[..k]).ThreadOf(t).program[id]
    ensures a.kind == kind && a.loc == loc && a.lastCommittedWrite == CpuAfter(steps[..i]).clock
  {
    hide Runs, CpuAfter;
    PrefixRuns(steps, i);
    ProgramKept(steps, i + 1, k, t);
    a := CpuAfter(steps[..k]).ThreadOf(t).program[id];
  }

  /** The flush in the buffer is that action of the program, except for the fence. */
  lemma DrainedAction<R>(steps: seq<Step<R>>, t: nat)
    requires Runs(steps) && CpuAfter(steps).ThreadOf(t).flushBuffer != []
    ensures var th := CpuAfter(steps).ThreadOf(t);
            var f := th.flushBuffer[0];
            && f.kind == OpClflushOpt && f.id < |th.program| && f == th.program[f.id].(lastClflush := f.lastClflush)
  {
    RunGood(steps);
    var c := CpuAfter(steps);
    var th := c.ThreadOf(t);
    assert Good(th, c.clock, c.begins) && th.flushBuffer[0] in th.flushBuffer;
    assert IsFlush(th, th.flushBuffer[0]);
  }

  lemma EvictedAction<R>(steps: seq<Step<R>>, t: nat)
    requires Runs(steps) && CpuAfter(steps).ThreadOf(t).storeBuffer != []
    ensures var th := CpuAfter(steps).ThreadOf(t);
            var a := th.storeBuffer[0];
            && a.id < |th.program| && a == th.program[a.id] && |th.storeBuffer| <= |th.program| && a.id == |th.program| - |th.storeBuffer|
            && a.lastClflush.None? && InOrder(th)
  {
    RunGood(steps);
    var c := CpuAfter(steps);
    var th := c.ThreadOf(t);
    assert Good(th, c.clock, c.begins) && Recent(th, c.clock);
    assert th.storeBuffer[0] in th.storeBuffer;
    EvictInOrder(th, 0);
  }

  ghost function Max(a: nat, b: nat): nat
  {
    if a < b then b else a
  }

  lemma DrainStart(th: Thread, f: Action, begin: nat, number: nat)
    requires f.kind == OpClflushOpt
    ensures th.BeginAfter(f, begin, number) ==
            Max(begin, Max(f.lastClflush.GetOr(VALUE_NONE),
                           Max(f.lastCommittedWrite, if f.lastWrite.Some? then th.Number(f.lastWrite.value) else 0)))
  {
  }

  /** Where the interval of the line starts after the flush. */
  lemma CompletedBegin<R>(c: Cpu, s: Step<R>, t: nat)
    requires CanStep(c, s) && (s == Draining(t) || Evicts(c, s, t, OpClflush))
    requires s == Draining(t) ==> c.ThreadOf(t).flushBuffer[0].kind == OpClflushOpt
    ensures var th := c.ThreadOf(t);
            var f := if s == Draining(t) then th.flushBuffer[0] else th.storeBuffer[0];
            && StepNext(c, s).clock == c.clock + 1
            && BeginOf(StepNext(c, s).begins, f.Line()) == th.BeginAfter(f, BeginOf(c.begins, f.Line()), c.clock + 1)
  {
    hide Evict, Drain, Thread.BeginAfter;
  }

  lemma {:induction false} ClockGrows<R>(steps: seq<Step<R>>, i: nat, m: nat)
    requires Runs(steps) && i <= m <= |steps| && NoPowerFail(steps[..m], i) && Runs(steps[..i]) && Runs(steps[..m])
    ensures CpuAfter(steps[..i]).clock <= CpuAfter(steps[..m]).clock
  {
    if i < m {
      hide CanStep, StepNext, CpuAfter, Runs, EventsOf, NoPowerFail;
      StepBack(steps, i, m);
      ClockGrows(steps, i, m - 1);
      StepLater(CpuAfter(steps[..m - 1]), steps[m - 1]);
    }
  }

  lemma CompletedCovers<R>(steps: seq<Step<R>>, i: nat, k: nat, t: nat, id: nat, kind: Kind, loc: nat)
    requires Runs(steps) && Issues(steps, i, t, id, kind, loc) && (kind == OpClflush || kind == OpClflushOpt)
    requires i < k && Completes(steps, k, t, id) && NoPowerFail(steps, i)
    ensures Runs(steps[..k + 1])
    ensures var n := CpuAfter(steps[..i]).clock;
            n <= CpuAfter(steps[..k + 1]).clock && n <= BeginOf(CpuAfter(steps[..k + 1]).begins, CacheId(loc))
  {
    PrefixRuns(steps, k);
    var a := IssuedAction(steps, i, k, t, id, kind, loc);
    ClockGrows(steps, i, k);
    var c := CpuAfter(steps[..k]);
    var th := c.ThreadOf(t);
    if steps[k] == Draining(t) {
      DrainedAction(steps[..k], t);
      DrainStart(th, th.flushBuffer[0], BeginOf(c.begins, CacheId(loc)), c.clock + 1);
    } else {
      EvictedAction(steps[..k], t);
    }
    hide Runs, CpuAfter, StepNext, Thread.BeginAfter;
    CompletedBegin(c, steps[k], t);
    assert th.storeBuffer != [] && steps[k] != Draining(t) ==> th.BeginAfter(th.storeBuffer[0], 0, c.clock + 1) == c.clock + 1;
  }

  /** Numbers are given up to the clock. */
  lemma NumberBounded<R>(steps: seq<Step<R>>, u: nat, w: nat)
    requires Runs(steps)
    ensures NumberGiven(steps, u, w) <= CpuAfter(steps).clock
  {
    NumberIs(steps, u, w);
    RunGood(steps);
    var c := CpuAfter(steps);
    assert Recent(c.ThreadOf(u), c.clock);
  }

  /**
   A completed flush covers every store of every thread that was committed when it was
   issued: from its completion on, the interval of its line starts at the last number given
   by then, or later.
   */
  lemma FlushCoversCommitted<R>(steps: seq<Step<R>>, i: nat, k: nat, t: nat, id: nat, kind: Kind, loc: nat)
    requires Runs(steps) && Issues(steps, i, t, id, kind, loc) && (kind == OpClflush || kind == OpClflushOpt)
    requires i < k && Completes(steps, k, t, id) && NoPowerFail(steps, i)
    ensures CpuAfter(steps[..i]).clock <= BeginOf(CpuAfter(steps).begins, CacheId(loc))
    ensures forall u: nat, w: nat :: NumberGiven(steps[..i], u, w) <= BeginOf(CpuAfter(steps).begins, CacheId(loc))
  {
    CompletedCovers(steps, i, k, t, id, kind, loc);
    LaterNoFail(steps, i, k + 1);
    hide CpuAfter, BeginOf, Completes, NumberGiven, NoPowerFail;
    BeginKept(steps, k + 1, CacheId(loc), CpuAfter(steps[..i]).clock);
    forall u: nat, w: nat
      ensures NumberGiven(steps[..i], u, w) <= CpuAfter(steps[..i]).clock
    {
      NumberBounded(steps[..i], u, w);
    }
  }

  // ----- Which fence -----

  /** The clflushopt has left the store buffer, and carries this fence as long as it waits. */
  ghost predicate Marked(th: Thread, id: nat, fence: Option<nat>)
  {
    && |th.storeBuffer| <= |th.program| && id < |th.program| - |th.storeBuffer|
    && forall f :: f in th.flushBuffer && f.id == id ==> f.lastClflush == fence
  }

  lemma MarkedStep<R>(c: Cpu, s: Step<R>, t: nat, id: nat, fence: Option<nat>)
    requires CanStep(c, s) && !s.PowerFail? && InOrder(c.ThreadOf(t)) && Marked(c.ThreadOf(t), id, fence)
    ensures Marked(StepNext(c, s).ThreadOf(t), id, fence)
  {
    if s == Evicting(t) {
      EvictInOrder(c.ThreadOf(t), c.clock + 1);
    }
  }

  lemma MarkedFirst<R>(steps: seq<Step<R>>, j: nat, t: nat, id: nat)
    requires Runs(steps) && Leaves(steps, j, t, id)
    ensures Runs(steps[..j + 1]) && Marked(CpuAfter(steps[..j + 1]).ThreadOf(t), id, LastFence(steps[..j], t))
  {
    PrefixRuns(steps, j);
    EvictedAction(steps[..j], t);
    LastFenceIs(steps[..j], t);
    hide Runs, CpuAfter, LastFence;
    RunGood(steps[..j]);
    var c := CpuAfter(steps[..j]);
    FlushIds(c, t);
    EvictInOrder(c.ThreadOf(t), c.clock + 1);
  }

  /** What waits in the flush buffer came before what waits in the store buffer. */
  lemma FlushIds(c: Cpu, t: nat)
    requires AllGood(c)
    ensures var th := c.ThreadOf(t);
            |th.storeBuffer| <= |th.program| && forall f :: f in th.flushBuffer ==> f.id < |th.program| - |th.storeBuffer|
  {
    var th := c.ThreadOf(t);
    assert Good(th, c.clock, c.begins);
    forall f | f in th.flushBuffer
      ensures f.id < |th.program| - |th.storeBuffer|
    {
      assert IsFlush(th, f);
    }
  }

  lemma {:induction false} MarkedKept<R>(steps: seq<Step<R>>, j: nat, k: nat, t: nat, id: nat)
    requires Runs(steps) && Leaves(steps, j, t, id) && j < k <= |steps| && NoPowerFail(steps[..k], j) && Runs(steps[..k])
    ensures Marked(CpuAfter(steps[..k]).ThreadOf(t), id, LastFence(steps[..j], t))
    decreases k
  {
    hide CanStep, StepNext, CpuAfter, Runs, EventsOf, NoPowerFail, Marked, Leaves, LastFence, InOrder;
    LeavesRuns(steps, j, t, id);
    if j + 1 < k {
      StepBack(steps, j, k);
      MarkedKept(steps, j, k - 1, t, id);
      RunInOrder(steps[..k - 1], t);
      MarkedStep(CpuAfter(steps[..k - 1]), steps[k - 1], t, id, LastFence(steps[..j], t));
    } else {
      MarkedFirst(steps, j, t, id);
    }
  }

  lemma LeavesRuns<R>(steps: seq<Step<R>>, j: nat, t: nat, id: nat)
    requires Runs(steps) && Leaves(steps, j, t, id)
    ensures j < |steps| && Runs(steps[..j])
  {
  }

  lemma RunInOrder<R>(steps: seq<Step<R>>, t: nat)
    requires Runs(steps)
    ensures InOrder(CpuAfter(steps).ThreadOf(t))
  {
    RunGood(steps);
    var c := CpuAfter(steps);
    assert Good(c.ThreadOf(t), c.clock, c.begins);
  }

  /** Fences are numbered in the order in which they leave. */
  lemma {:induction false} FencesGrow<R>(steps: seq<Step<R>>, i: nat, j: nat, t: nat)
    requires Runs(steps) && i < j <= |steps| && NoPowerFail(steps[..j], i) && Runs(steps[..i]) && Runs(steps[..j])
    requires CanStep(CpuAfter(steps[..i]), steps[i]) && Evicts(CpuAfter(steps[..i]), steps[i], t, OpSfence)
    ensures LastFence(steps[..j], t).Some? && CpuAfter(steps[..i]).clock + 1 <= LastFence(steps[..j], t).value
    decreases j
  {
    hide CanStep, StepNext, CpuAfter, Runs, Evicts;
    PrefixRuns(steps, j - 1);
    assert steps[..j][j - 1] == steps[j - 1] && steps[..j][..j - 1] == steps[..j - 1];
    ClockGrows(steps, i, j - 1);
    if i < j - 1 {
      FencesGrow(steps, i, j - 1, t);
    }
  }

  /**
   A completed clflushopt covers what its thread's fences before it cover: from its
   completion on, the interval of its line starts at the number of every sfence that left
   the store buffer before the clflushopt did, or later.
   */
  lemma FlushAfterFence<R>(steps: seq<Step<R>>, i: nat, j: nat, k: nat, t: nat, id: nat)
    requires Runs(steps) && i < j < k < |steps| && NoPowerFail(steps, i)
    requires Runs(steps[..i]) && CanStep(CpuAfter(steps[..i]), steps[i]) && Evicts(CpuAfter(steps[..i]), steps[i], t, OpSfence)
    requires Leaves(steps, j, t, id) && Completes(steps, k, t, id) && steps[k] == Draining(t)
    ensures CpuAfter(steps[..i]).clock + 1 <= BeginOf(CpuAfter(steps).begins, CpuAfter(steps[..k]).ThreadOf(t).flushBuffer[0].Line())
  {
    hide Runs, CpuAfter, StepNext, Thread.BeginAfter, LastFence, BeginOf, NoPowerFail, Leaves, Completes, Evicts, CanStep;
    DrainedCovers(steps, i, j, k, t, id);
    NextClock(steps, i, k, t);
    LaterNoFail(steps, i, k + 1);
    BeginKept(steps, k + 1, CpuAfter(steps[..k]).ThreadOf(t).flushBuffer[0].Line(), CpuAfter(steps[..i]).clock + 1);
  }

  lemma LaterNoFail<R>(steps: seq<Step<R>>, i: nat, j: nat)
    requires NoPowerFail(steps, i) && i <= j
    ensures NoPowerFail(steps, j)
  {
  }

  lemma PrefixNoFail<R>(steps: seq<Step<R>>, i: nat, m: nat)
    requires NoPowerFail(steps, i) && m <= |steps|
    ensures NoPowerFail(steps[..m], i)
  {
  }

  lemma CompletedRuns<R>(steps: seq<Step<R>>, k: nat, t: nat, id: nat)
    requires Runs(steps) && Completes(steps, k, t, id) && steps[k] == Draining(t)
    ensures Runs(steps[..k]) && CanStep(CpuAfter(steps[..k]), steps[k]) && Runs(steps[..k + 1])
    ensures CpuAfter(steps[..k + 1]) == StepNext(CpuAfter(steps[..k]), steps[k])
    ensures CpuAfter(steps[..k]).ThreadOf(t).flushBuffer != [] && CpuAfter(steps[..k]).ThreadOf(t).flushBuffer[0].id == id
  {
    PrefixRuns(steps, k);
  }

  /** The interval right after the flush. */
  lemma DrainedCovers<R>(steps: seq<Step<R>>, i: nat, j: nat, k: nat, t: nat, id: nat)
    requires Runs(steps) && i < j < k < |steps| && NoPowerFail(steps, i)
    requires Runs(steps[..i]) && CanStep(CpuAfter(steps[..i]), steps[i]) && Evicts(CpuAfter(steps[..i]), steps[i], t, OpSfence)
    requires Leaves(steps, j, t, id) && Completes(steps, k, t, id) && steps[k] == Draining(t)
    ensures Runs(steps[..k]) && Runs(steps[..k + 1]) && CpuAfter(steps[..k]).ThreadOf(t).flushBuffer != []
    ensures CpuAfter(steps[..i]).clock + 1 <= BeginOf(CpuAfter(steps[..k + 1]).begins, CpuAfter(steps[..k]).ThreadOf(t).flushBuffer[0].Line())
  {
    hide Runs, CpuAfter, StepNext, Thread.BeginAfter, LastFence, BeginOf, NoPowerFail, Leaves, Completes, Evicts, CanStep;
    CompletedRuns(steps, k, t, id);
    LeavesRuns(steps, j, t, id);
    PrefixNoFail(steps, i, j);
    PrefixNoFail(steps, i, k);
    LaterNoFail(steps[..k], i, j);
    MarkedKept(steps, j, k, t, id);
    FencesGrow(steps, i, j, t);
    DrainedAction(steps[..k], t);
    var c := CpuAfter(steps[..k]);
    var f := c.ThreadOf(t).flushBuffer[0];
    assert f in c.ThreadOf(t).flushBuffer;
    DrainStart(c.ThreadOf(t), f, BeginOf(c.begins, f.Line()), c.clock + 1);
    CompletedBegin(c, steps[k], t);
  }

  lemma NextClock<R>(steps: seq<Step<R>>, i: nat, k: nat, t: nat)
    requires Runs(steps) && i < k < |steps| && NoPowerFail(steps, i) && Runs(steps[..i]) && Runs(steps[..k + 1])
    requires CanStep(CpuAfter(steps[..i]), steps[i]) && Evicts(CpuAfter(steps[..i]), steps[i], t, OpSfence)
    ensures CpuAfter(steps[..i]).clock + 1 <= CpuAfter(steps[..k + 1]).clock
  {
    hide Runs, CpuAfter;
    PrefixRuns(steps, i);
    LaterNoFail(steps, i, i + 1);
    PrefixNoFail(steps, i + 1, k + 1);
    ClockGrows(steps, i + 1, k + 1);
  }

  /** The number of the latest store or clflush of the thread to the line before action `id`, 0 if there is none. */
  ghost function OwnNumber<R>(steps: seq<Step<R>>, t: nat, id: nat, line: nat): nat
    requires Runs(steps) && id <= |CpuAfter(steps).ThreadOf(t).program|
  {
    var last := LatestOn(CpuAfter(steps).ThreadOf(t).program, id, line);
    if last.Some? then NumberGiven(steps, t, last.value) else 0
  }

  /**
   What a clflushopt covers, exactly: when it completes, the interval of its line starts at
   the latest of where it started before, the clock at the issue of the flush, the number of
   the thread's latest store or clflush to the line before it, and the number of the last
   sfence that left the store buffer before it; without one, the unset clock counts instead.
   */
  lemma FlushMovesExactly<R>(steps: seq<Step<R>>, i: nat, j: nat, k: nat, t: nat, id: nat, loc: nat)
    requires Runs(steps) && i < j < k < |steps| && NoPowerFail(steps, i)
    requires Issues(steps, i, t, id, OpClflushOpt, loc) && Leaves(steps, j, t, id)
    requires Completes(steps, k, t, id) && steps[k] == Draining(t)
    ensures Runs(steps[..k + 1]) && id <= |CpuAfter(steps[..k]).ThreadOf(t).program|
    ensures var line := CacheId(loc);
            BeginOf(CpuAfter(steps[..k + 1]).begins, line) ==
            Max(BeginOf(CpuAfter(steps[..k]).begins, line),
                Max(LastFence(steps[..j], t).GetOr(VALUE_NONE),
                    Max(CpuAfter(steps[..i]).clock, OwnNumber(steps[..k], t, id, line))))
  {
    PrefixRuns(steps, k);
    PrefixRuns(steps, j);
    MarkedKept(steps, j, k, t, id);
    DrainedAction(steps[..k], t);
    var a := IssuedAction(steps, i, k, t, id, OpClflushOpt, loc);
    var c := CpuAfter(steps[..k]);
    var th := c.ThreadOf(t);
    var f := th.flushBuffer[0];
    assert f in th.flushBuffer;
    hide Runs, CpuAfter, StepNext, Thread.BeginAfter, LastFence, NumberGiven, LatestOn, Marked;
    OwnNumberIs(steps[..k], t, f);
    DrainStart(th, f, BeginOf(c.begins, f.Line()), c.clock + 1);
    CompletedBegin(c, steps[k], t);
  }

  lemma OwnNumberIs<R>(steps: seq<Step<R>>, t: nat, f: Action)
    requires Runs(steps) && f in CpuAfter(steps).ThreadOf(t).flushBuffer
    ensures f.id <= |CpuAfter(steps).ThreadOf(t).program|
    ensures OwnNumber(steps, t, f.id, f.Line()) ==
            if f.lastWrite.Some? then CpuAfter(steps).ThreadOf(t).Number(f.lastWrite.value) else 0
  {
    RunGood(steps);
    var c := CpuAfter(steps);
    var th := c.ThreadOf(t);
    assert Good(th, c.clock, c.begins);
    assert IsFlush(th, f) && Linked(th.program, f.id);
    hide NumberGiven, LatestOn, Good, Runs, CpuAfter;
    LatestIs(th.program, f.id, f.Line(), f.lastWrite);
    if f.lastWrite.Some? {
      NumberIs(steps, t, f.lastWrite.value);
    }
  }
}
