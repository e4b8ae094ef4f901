/**
 Runs of threads with store buffers: every interleaving of issuing, evicting, draining,
 reading and crashing, the memory events that come out of it, and what holds of them.
 */
module Tso {
  import opened Memory
  import opened Column
  import opened Engine
  import opened StoreBuffers
  import opened ByteMachine

  datatype Cpu = Cpu(threads: map<nat, Thread>, begins: map<nat, nat>, clock: nat)
  {
    function ThreadOf(t: nat): Thread
    {
      if t in threads then threads[t] else IDLE
    }
  }

  /** `R` is what a read returned: a read-from vector or bytes. */
  datatype Step<R> =
    | Issuing(t: nat, kind: Kind, loc: nat, bytes: seq<Byte>)
    | Evicting(t: nat)
    | Draining(t: nat)
    | Reading(t: nat, loc: nat, size: nat, result: R)
    | Misc
    | PowerFail

  function Boot(): Cpu
  {
    Cpu(map[], map[], FRESH_CLOCK)
  }

  /** A store fence leaves the store buffer only with the flush buffer drained. */
  ghost predicate CanStep<R>(c: Cpu, s: Step<R>)
  {
    match s
    case Issuing(_, kind, loc, bytes) => kind.OpWrite? ==> InWord(loc, |bytes|)
    case Evicting(t) =>
      var th := c.ThreadOf(t);
      th.storeBuffer != [] && (th.storeBuffer[0].kind == OpSfence ==> th.flushBuffer == [])
    case Draining(t) => c.ThreadOf(t).flushBuffer != []
    case Reading(_, loc, size, _) => InWord(loc, size)
    case _ => true
  }

  ghost function StepNext<R>(c: Cpu, s: Step<R>): Cpu
    requires CanStep(c, s)
  {
    match s
    case Issuing(t, kind, loc, bytes) =>
      c.(threads := c.threads[t := Issue(c.ThreadOf(t), kind, loc, bytes, c.clock)])
    case Evicting(t) =>
      var th := c.ThreadOf(t);
      var a := th.storeBuffer[0];
      Cpu(c.threads[t := Evict(th, c.clock + 1)],
          if a.kind == OpClflush then BeginsAfter(th, a, c.begins, c.clock + 1) else c.begins,
          ClockAfter(a, c.clock))
    case Draining(t) =>
      var th := c.ThreadOf(t);
      Cpu(c.threads[t := Drain(th, c.clock + 1)], BeginsAfter(th, th.flushBuffer[0], c.begins, c.clock + 1), c.clock + 1)
    case PowerFail => Boot()
    case _ => c.(clock := c.clock + 1)
  }

  /** The memory event of a step. */
  ghost function Emitted<R>(c: Cpu, s: Step<R>): seq<Event<R>>
    requires CanStep(c, s)
  {
    match s
    case Issuing(_, _, _, _) => []
    case Evicting(t) =>
      var th := c.ThreadOf(t);
      var a := th.storeBuffer[0];
      (match a.kind
       case OpWrite(isInit) => [Store(a.loc, a.bytes, isInit)]
       case OpClflush => [WriteBack(a.Line(), StepNext(c, s).begins[a.Line()])]
       case OpClflushOpt => []
       case OpSfence => [Other])
    case Draining(t) =>
      var f := c.ThreadOf(t).flushBuffer[0];
      if f.IsCacheOp() then [WriteBack(f.Line(), StepNext(c, s).begins[f.Line()])] else [Other]
    case Reading(t, loc, size, result) => [Load(loc, size, Buffered(c.ThreadOf(t).storeBuffer), result)]
    case Misc => [Other]
    case PowerFail => [Crash]
  }

  ghost predicate Runs<R>(steps: seq<Step<R>>)
    decreases |steps|, 0
  {
    steps == [] ||
    var n := |steps| - 1;
    Runs(steps[..n]) && CanStep(CpuAfter(steps[..n]), steps[n])
  }

  ghost function CpuAfter<R>(steps: seq<Step<R>>): Cpu
    requires Runs(steps)
    decreases |steps|, 1
  {
    if steps == [] then Boot()
    else
      var n := |steps| - 1;
      StepNext(CpuAfter(steps[..n]), steps[n])
  }

  ghost function EventsOf<R>(steps: seq<Step<R>>): seq<Event<R>>
    requires Runs(steps)
  {
    if steps == [] then []
    else
      var n := |steps| - 1;
      EventsOf(steps[..n]) + Emitted(CpuAfter(steps[..n]), steps[n])
  }

  lemma RunsSnoc<R>(steps: seq<Step<R>>, s: Step<R>)
    requires Runs(steps) && CanStep(CpuAfter(steps), s)
    ensures Runs(steps + [s])
    ensures CpuAfter(steps + [s]) == StepNext(CpuAfter(steps), s)
    ensures EventsOf(steps + [s]) == EventsOf(steps) + Emitted(CpuAfter(steps), s)
  {
    assert (steps + [s])[..|steps|] == steps;
  }

  lemma {:induction false} PrefixRuns<R>(steps: seq<Step<R>>, i: nat)
    requires Runs(steps) && i <= |steps|
    ensures Runs(steps[..i]) && (i < |steps| ==> CanStep(CpuAfter(steps[..i]), steps[i]))
    ensures EventsOf(steps[..i]) <= EventsOf(steps)
    ensures i < |steps| ==> Runs(steps[..i + 1]) && CpuAfter(steps[..i + 1]) == StepNext(CpuAfter(steps[..i]), steps[i])
    decreases |steps|
  {
    hide CanStep, StepNext, Emitted;
    if i < |steps| {
      var n := |steps| - 1;
      assert steps[..n][..i] == steps[..i];
      if i < n {
        PrefixRuns(steps[..n], i);
        assert steps[..n][..i + 1] == steps[..i + 1];
      } else {
        assert steps[..i + 1] == steps;
      }
    } else {
      assert steps[..i] == steps;
    }
  }

  // ----- The invariant of every run -----

  ghost predicate AllGood(c: Cpu)
  {
    forall t: nat :: Good(c.ThreadOf(t), c.clock, c.begins) && Recent(c.ThreadOf(t), c.clock)
  }

  lemma IdleGood(clock: nat, begins: map<nat, nat>)
    ensures Good(IDLE, clock, begins) && Recent(IDLE, clock)
  {
  }

  lemma OthersGood(c: Cpu, d: Cpu, t: nat, u: Thread)
    requires AllGood(c) && d.threads == c.threads[t := u] && c.clock <= d.clock
    requires Later(c.begins, d.begins, c.clock)
    requires Good(u, d.clock, d.begins) && Recent(u, d.clock)
    ensures AllGood(d)
  {
    hide Good;
    forall s: nat
      ensures Good(d.ThreadOf(s), d.clock, d.begins) && Recent(d.ThreadOf(s), d.clock)
    {
      if s != t {
        assert d.ThreadOf(s) == c.ThreadOf(s);
        LaterGood(c.ThreadOf(s), c.clock, c.begins, d.clock, d.begins);
      }
    }
  }

  lemma LaterBegins(t: Thread, f: Action, begins: map<nat, nat>, clock: nat)
    ensures Later(begins, BeginsAfter(t, f, begins, clock + 1), clock) && Later(begins, begins, clock)
  {
  }

  lemma EvictingGood(c: Cpu, t: nat)
    requires AllGood(c) && c.ThreadOf(t).storeBuffer != []
    ensures var th := c.ThreadOf(t);
            var a := th.storeBuffer[0];
            AllGood(Cpu(c.threads[t := Evict(th, c.clock + 1)],
                        if a.kind == OpClflush then BeginsAfter(th, a, c.begins, c.clock + 1) else c.begins,
                        ClockAfter(a, c.clock)))
  {
    hide Good, Recent, Later, Evict;
    var th := c.ThreadOf(t);
    var a := th.storeBuffer[0];
    var d := Cpu(c.threads[t := Evict(th, c.clock + 1)],
                 if a.kind == OpClflush then BeginsAfter(th, a, c.begins, c.clock + 1) else c.begins,
                 ClockAfter(a, c.clock));
    EvictGood(th, c.clock, c.begins);
    RecentEvict(th, c.clock);
    LaterBegins(th, a, c.begins, c.clock);
    OthersGood(c, d, t, Evict(th, c.clock + 1));
  }

  lemma TickGood(c: Cpu)
    requires AllGood(c)
    ensures AllGood(c.(clock := c.clock + 1))
  {
    hide Good;
    LaterBegins(IDLE, NewAction(IDLE, OpSfence, 0, [], 0), c.begins, c.clock);
    forall t: nat
      ensures Good(c.ThreadOf(t), c.clock + 1, c.begins) && Recent(c.ThreadOf(t), c.clock + 1)
    {
      LaterGood(c.ThreadOf(t), c.clock, c.begins, c.clock + 1, c.begins);
    }
    var d := c.(clock := c.clock + 1);
    assert forall t: nat :: d.ThreadOf(t) == c.ThreadOf(t);
  }

  lemma StepGood<R>(c: Cpu, s: Step<R>)
    requires AllGood(c) && CanStep(c, s)
    ensures AllGood(StepNext(c, s))
  {
    hide Good, Recent, Later, Issue, Evict, Drain;
    var d := StepNext(c, s);
    match s
    case Issuing(t, kind, loc, bytes) =>
      var th := c.ThreadOf(t);
      IssueGood(th, kind, loc, bytes, c.clock, c.begins);
      RecentIssue(th, kind, loc, bytes, c.clock);
      LaterBegins(th, NewAction(th, kind, loc, bytes, c.clock), c.begins, c.clock);
      OthersGood(c, d, t, Issue(th, kind, loc, bytes, c.clock));
    case Evicting(t) =>
      EvictingGood(c, t);
    case Draining(t) =>
      var th := c.ThreadOf(t);
      DrainGood(th, c.clock, c.begins);
      RecentDrain(th, c.clock);
      LaterBegins(th, th.flushBuffer[0], c.begins, c.clock);
      OthersGood(c, d, t, Drain(th, c.clock + 1));
    case PowerFail =>
      IdleGood(FRESH_CLOCK, map[]);
    case _ =>
      TickGood(c);
  }

  lemma {:induction false} RunGood<R>(steps: seq<Step<R>>)
    requires Runs(steps)
    ensures AllGood(CpuAfter(steps))
  {
    if steps == [] {
      IdleGood(FRESH_CLOCK, map[]);
    } else {
      var n := |steps| - 1;
      RunGood(steps[..n]);
      StepGood(CpuAfter(steps[..n]), steps[n]);
    }
  }

  /**
   The flush guarantee: in every run, once a flush of a thread has completed, every store
   of that thread to the line that came before the flush in program order is committed,
   and the line's interval starts at or after all of them.
   */
  lemma FlushGuarantee<R>(steps: seq<Step<R>>, t: nat, f: Action, i: nat)
    requires Runs(steps)
    requires var th := CpuAfter(steps).ThreadOf(t);
             && f in th.flushed
             && i < f.id && i < |th.program|
             && th.program[i].kind.OpWrite? && th.program[i].Line() == f.Line()
    ensures var c := CpuAfter(steps);
            && i in c.ThreadOf(t).numbers
            && c.ThreadOf(t).numbers[i] <= BeginOf(c.begins, f.Line())
  {
    RunGood(steps);
    var c := CpuAfter(steps);
    var th := c.ThreadOf(t);
    assert Good(th, c.clock, c.begins);
    assert Guaranteed(th, f, BeginOf(c.begins, f.Line()));
  }

  /** hasPendingFlushes: the counter is zero exactly when no flush of the thread is pending. */
  lemma PendingFlushesCounted<R>(steps: seq<Step<R>>, t: nat)
    requires Runs(steps)
    ensures var th := CpuAfter(steps).ThreadOf(t);
            th.flushCount == 0 <==> th.flushBuffer == [] && forall a :: a in th.storeBuffer ==> !a.IsCacheOp()
  {
    RunGood(steps);
    var th := CpuAfter(steps).ThreadOf(t);
    assert CountsFlushes(th);
    CacheOpsNone(th.storeBuffer);
  }

  lemma {:induction false} CacheOpsNone(actions: seq<Action>)
    ensures CacheOps(actions) == 0 <==> forall a :: a in actions ==> !a.IsCacheOp()
  {
    if actions != [] {
      CacheOpsNone(actions[1..]);
      assert actions == [actions[0]] + actions[1..];
    }
  }
}
