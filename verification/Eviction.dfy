/**
 What evicting store buffers and draining flush buffers does to a thread and to the
 running execution, including the checks for a crash on the way.
 */
module Eviction {
  import opened Memory
  import opened StoreList
  import opened Engine
  import opened StoreBuffers
  import opened Tso

  /** The parts of the running execution that evictions change. */
  datatype Core = Core(x: Exec, clock: nat, noWrite: bool, crashed: bool)

  /**
   Checks for a crash are made if there is a crash left to inject and from sequence number
   `first` on; `answer` is the choice taken at the check made when that number was the last.
   */
  datatype Checks = Checks(armed: bool, first: nat, answer: nat -> bool)
  {
    function Answer(clock: nat): bool
    {
      answer(clock)
    }

    predicate Made(clock: nat, noWrite: bool)
    {
      armed && !noWrite && first <= clock
    }
  }

  /** shouldInsertCrash. */
  function Checked(core: Core, checks: Checks): Core
  {
    if !checks.Made(core.clock, core.noWrite) then core
    else if checks.Answer(core.clock) then core.(crashed := true)
    else core.(noWrite := true)
  }

  /** A flush takes its number and moves the start of its line's interval. */
  function Flushed(t: Thread, core: Core, f: Action): (r: Core)
    ensures r.crashed == core.crashed && r.clock == core.clock + 1
  {
    var range := core.x.RangeOf(f.Line());
    core.(x := core.x.(ranges := core.x.ranges[f.Line() := range.(begin := t.BeginAfter(f, range.begin, core.clock + 1))]),
          clock := core.clock + 1)
  }

  /** A store takes its number and joins the list of its word. */
  ghost function Recorded(core: Core, a: Action): Core
  {
    var word := AlignAddress(a.loc);
    var w := Write(a.loc, a.bytes, core.clock + 1, a.IsInitialization());
    core.(x := core.x.(stores := core.x.stores[word := AddStore(core.x.StoresOf(word), w)]),
          clock := core.clock + 1,
          noWrite := core.noWrite && Subsumed(core.x.StoresOf(word), w))
  }

  /** Drains the flush buffer, up to a crash. */
  ghost function DrainAll(t: Thread, core: Core, checks: Checks): (r: (Thread, Core))
    ensures r.0.storeBuffer == t.storeBuffer
    decreases |t.flushBuffer|
  {
    if t.flushBuffer == [] then (t, core)
    else
      var c := Checked(core, checks);
      if c.crashed then (t.(flushBuffer := t.flushBuffer[1..]), c)
      else DrainAll(Drain(t, c.clock + 1), Flushed(t, c, t.flushBuffer[0]), checks)
  }

  /** Evicts the oldest action of the store buffer. */
  ghost function EvictOp(t: Thread, core: Core, checks: Checks): (r: (Thread, Core))
    requires t.storeBuffer != []
    ensures r.0.storeBuffer == t.storeBuffer[1..]
  {
    var a := t.storeBuffer[0];
    var popped := t.(storeBuffer := t.storeBuffer[1..]);
    match a.kind
    case OpWrite(_) => (Evict(t, core.clock + 1), Recorded(core, a))
    case OpSfence =>
      var d := DrainAll(t, core, checks);
      if d.1.crashed then (d.0.(storeBuffer := t.storeBuffer[1..]), d.1)
      else (Evict(d.0, d.1.clock + 1), d.1.(clock := d.1.clock + 1))
    case OpClflush =>
      var c := Checked(core, checks);
      if c.crashed then (popped, c) else (Evict(t, c.clock + 1), Flushed(t, c, a))
    case OpClflushOpt => (Evict(t, core.clock + 1), core)
  }

  /** Evicts the `n` oldest actions, up to a crash. */
  ghost function EvictFirst(t: Thread, core: Core, n: nat, checks: Checks): (r: (Thread, Core))
    requires n <= |t.storeBuffer|
    ensures !r.1.crashed ==> r.0.storeBuffer == t.storeBuffer[n..]
    decreases n
  {
    if n == 0 || core.crashed then (t, core)
    else
      var r := EvictOp(t, core, checks);
      EvictFirst(r.0, r.1, n - 1, checks)
  }

  // ----- These are runs of the machine of module Tso -----

  /** How many actions thread `t` evicts on the way. */
  ghost function Evictions<R>(steps: seq<Step<R>>, t: nat): nat
  {
    if steps == [] then 0 else Evictions(steps[..|steps| - 1], t) + if steps[|steps| - 1] == Evicting(t) then 1 else 0
  }

  lemma {:induction false} EvictionsConcat<R>(a: seq<Step<R>>, b: seq<Step<R>>, t: nat)
    ensures Evictions(a + b, t) == Evictions(a, t) + Evictions(b, t)
  {
    if b == [] {
      assert a + b == a;
    } else {
      var n := |b| - 1;
      EvictionsConcat(a, b[..n], t);
      assert (a + b)[..|a| + n] == a + b[..n];
      assert (a + b)[|a| + n] == b[n];
    }
  }

  /** Thread `t` alone moves. */
  ghost predicate OnlyBy<R>(steps: seq<Step<R>>, t: nat)
  {
    forall s :: s in steps ==> s == Evicting(t) || s == Draining(t)
  }

  ghost predicate SameBegins(begins: map<nat, nat>, x: Exec)
  {
    forall line: nat :: BeginOf(begins, line) == x.RangeOf(line).begin
  }

  /** The run `steps` leads to this execution. */
  ghost predicate LeadsToCore<R>(steps: seq<Step<R>>, core: Core)
  {
    Runs(steps) &&
    var c := CpuAfter(steps);
    c.clock == core.clock && SameBegins(c.begins, core.x)
  }

  /** And, unless the execution crashed, to this state of thread `t`. */
  ghost predicate LeadsTo<R>(steps: seq<Step<R>>, t: nat, th: Thread, core: Core)
  {
    LeadsToCore(steps, core) && (!core.crashed ==> CpuAfter(steps).ThreadOf(t) == th)
  }

  lemma FlushBegins(t: Thread, begins: map<nat, nat>, core: Core, f: Action)
    requires SameBegins(begins, core.x) && f.IsCacheOp()
    ensures SameBegins(BeginsAfter(t, f, begins, core.clock + 1), Flushed(t, core, f).x)
  {
    var after, y := BeginsAfter(t, f, begins, core.clock + 1), Flushed(t, core, f).x;
    assert BeginOf(begins, f.Line()) == core.x.RangeOf(f.Line()).begin;
    forall line: nat
      ensures BeginOf(after, line) == y.RangeOf(line).begin
    {
      assert BeginOf(begins, line) == core.x.RangeOf(line).begin;
    }
  }

  lemma DrainLeads<R>(steps: seq<Step<R>>, t: nat, th: Thread, core: Core)
    requires LeadsTo(steps, t, th, core) && !core.crashed && th.flushBuffer != [] && th.flushBuffer[0].IsCacheOp()
    ensures LeadsTo(steps + [Draining(t)], t, Drain(th, core.clock + 1), Flushed(th, core, th.flushBuffer[0]))
  {
    hide SameBegins, Drain, Runs, CpuAfter, BeginsAfter;
    RunsSnoc(steps, Step<R>.Draining(t));
    FlushBegins(th, CpuAfter(steps).begins, core, th.flushBuffer[0]);
  }

  lemma EvictLeads<R>(steps: seq<Step<R>>, t: nat, th: Thread, core: Core)
    requires LeadsTo(steps, t, th, core) && !core.crashed && th.storeBuffer != []
    ensures var a := th.storeBuffer[0];
            var next := steps + [Evicting(t)];
            var u := Evict(th, core.clock + 1);
            match a.kind
            case OpWrite(_) => LeadsTo(next, t, u, Recorded(core, a))
            case OpClflush => LeadsTo(next, t, u, Flushed(th, core, a))
            case OpClflushOpt => LeadsTo(next, t, u, core)
            case OpSfence => th.flushBuffer == [] ==> LeadsTo(next, t, u, core.(clock := core.clock + 1))
  {
    hide Evict, Runs, CpuAfter, BeginsAfter;
    var a := th.storeBuffer[0];
    if a.kind == OpSfence ==> th.flushBuffer == [] {
      RunsSnoc(steps, Step<R>.Evicting(t));
      if a.kind == OpClflush {
        hide SameBegins;
        FlushBegins(th, CpuAfter(steps).begins, core, a);
      }
    }
  }

  ghost predicate FlushesIn(th: Thread)
  {
    forall f :: f in th.flushBuffer ==> f.IsCacheOp()
  }

  lemma CheckedLeads<R>(steps: seq<Step<R>>, t: nat, th: Thread, core: Core, checks: Checks)
    requires LeadsTo(steps, t, th, core) && !core.crashed
    ensures LeadsTo(steps, t, th, Checked(core, checks))
  {
  }

  lemma {:induction false} DrainAllLeads<R>(steps: seq<Step<R>>, t: nat, th: Thread, core: Core, checks: Checks) returns (more: seq<Step<R>>)
    requires LeadsTo(steps, t, th, core) && !core.crashed && FlushesIn(th)
    ensures var r := DrainAll(th, core, checks); LeadsTo(steps + more, t, r.0, r.1)
    ensures forall s :: s in more ==> s == Draining(t)
    ensures !DrainAll(th, core, checks).1.crashed ==> DrainAll(th, core, checks).0.flushBuffer == []
    decreases |th.flushBuffer|
  {
    hide LeadsTo, Drain, Flushed;
    more := [];
    assert steps + [] == steps;
    if th.flushBuffer != [] {
      CheckedLeads(steps, t, th, core, checks);
      var c := Checked(core, checks);
      if c.crashed {
        CrashLeads(steps, t, th, th.(flushBuffer := th.flushBuffer[1..]), c);
      } else {
        assert th.flushBuffer[0] in th.flushBuffer;
        DrainLeads(steps, t, th, c);
        DrainFlushes(th, c.clock + 1);
        more := DrainAllLeads(steps + [Draining(t)], t, Drain(th, c.clock + 1), Flushed(th, c, th.flushBuffer[0]), checks);
        assert steps + ([Draining(t)] + more) == steps + [Draining(t)] + more;
        more := [Draining(t)] + more;
      }
    }
  }

  lemma DrainFlushes(th: Thread, number: nat)
    requires FlushesIn(th) && th.flushBuffer != []
    ensures FlushesIn(Drain(th, number)) && |Drain(th, number).flushBuffer| < |th.flushBuffer|
  {
  }

  lemma CrashLeads<R>(steps: seq<Step<R>>, t: nat, th: Thread, other: Thread, core: Core)
    requires LeadsTo(steps, t, th, core) && core.crashed
    ensures LeadsTo(steps, t, other, core)
  {
  }

  lemma {:induction false} NoEvictions<R>(steps: seq<Step<R>>, t: nat)
    requires forall s :: s in steps ==> s == Draining(t)
    ensures Evictions(steps, t) == 0
  {
    if steps != [] {
      var n := |steps| - 1;
      assert steps[n] in steps && forall s :: s in steps[..n] ==> s in steps;
      NoEvictions(steps[..n], t);
    }
  }

  lemma EvictOpLeads<R>(steps: seq<Step<R>>, t: nat, th: Thread, core: Core, checks: Checks) returns (more: seq<Step<R>>)
    requires LeadsTo(steps, t, th, core) && !core.crashed && FlushesIn(th) && th.storeBuffer != []
    ensures var r := EvictOp(th, core, checks); LeadsTo(steps + more, t, r.0, r.1)
    ensures OnlyBy(more, t) && (!EvictOp(th, core, checks).1.crashed ==> Evictions(more, t) == 1)
  {
    hide LeadsTo, Evict, Drain, Flushed, Recorded, DrainAll;
    var a := th.storeBuffer[0];
    match a.kind
    case OpSfence =>
      more := DrainAllLeads(steps, t, th, core, checks);
      var d := DrainAll(th, core, checks);
      if d.1.crashed {
        CrashLeads(steps + more, t, d.0, d.0.(storeBuffer := th.storeBuffer[1..]), d.1);
      } else {
        EvictLeads(steps + more, t, d.0, d.1);
        assert steps + more + [Evicting(t)] == steps + (more + [Evicting(t)]);
        NoEvictions(more, t);
        assert (more + [Evicting(t)])[..|more|] == more;
        more := more + [Evicting(t)];
      }
    case OpClflush =>
      CheckedLeads(steps, t, th, core, checks);
      var c := Checked(core, checks);
      if c.crashed {
        more := [];
        assert steps + more == steps;
        CrashLeads(steps, t, th, th.(storeBuffer := th.storeBuffer[1..]), c);
      } else {
        more := [Evicting(t)];
        EvictLeads(steps, t, th, c);
      }
    case _ =>
      more := [Evicting(t)];
      EvictLeads(steps, t, th, core);
  }

  lemma {:induction false} DrainAllFlushes(th: Thread, core: Core, checks: Checks)
    requires FlushesIn(th)
    ensures FlushesIn(DrainAll(th, core, checks).0)
    decreases |th.flushBuffer|
  {
    if th.flushBuffer != [] {
      var c := Checked(core, checks);
      DrainFlushes(th, c.clock + 1);
      if !c.crashed {
        DrainAllFlushes(Drain(th, c.clock + 1), Flushed(th, c, th.flushBuffer[0]), checks);
      }
    }
  }

  lemma EvictOpFlushes(th: Thread, core: Core, checks: Checks)
    requires FlushesIn(th) && th.storeBuffer != []
    ensures FlushesIn(EvictOp(th, core, checks).0)
  {
    DrainAllFlushes(th, core, checks);
  }

  /** Emptying a store buffer, or its first part, is a run of evictions and drains, up to a crash; without one, of exactly `n` evictions. */
  lemma {:induction false} EvictFirstLeads<R>(steps: seq<Step<R>>, t: nat, th: Thread, core: Core, n: nat, checks: Checks)
    returns (more: seq<Step<R>>)
    requires LeadsTo(steps, t, th, core) && FlushesIn(th) && n <= |th.storeBuffer|
    ensures var r := EvictFirst(th, core, n, checks); LeadsTo(steps + more, t, r.0, r.1)
    ensures OnlyBy(more, t) && (!EvictFirst(th, core, n, checks).1.crashed ==> Evictions(more, t) == n)
    decreases n
  {
    hide LeadsTo, EvictOp;
    more := [];
    assert steps + [] == steps;
    if n > 0 && !core.crashed {
      more := EvictOpLeads(steps, t, th, core, checks);
      EvictOpFlushes(th, core, checks);
      var r := EvictOp(th, core, checks);
      var rest := EvictFirstLeads(steps + more, t, r.0, r.1, n - 1, checks);
      assert steps + more + rest == steps + (more + rest);
      EvictionsConcat(more, rest, t);
      EvictFirstOf(th, core, n, checks);
      more := more + rest;
    }
  }

  /** If evicting on ends without a crash, the first eviction did. */
  lemma {:induction false} EvictFirstOf(th: Thread, core: Core, n: nat, checks: Checks)
    requires 0 < n <= |th.storeBuffer| && !core.crashed
    ensures var r := EvictOp(th, core, checks);
            EvictFirst(th, core, n, checks) == EvictFirst(r.0, r.1, n - 1, checks)
            && (!EvictFirst(th, core, n, checks).1.crashed ==> !r.1.crashed)
  {
    hide EvictOp;
  }

  /** Recording a store is the commit of module Engine, once the word's original contents are recorded. */
  lemma RecordedIsCommit(raw: nat -> Byte, s: State, core: Core, a: Action)
    requires s.cur == core.x && s.clock == core.clock
    requires EnsureInitialValue(raw, s, a.loc).cur == s.cur
    ensures var t := CommitStore(raw, s, a.loc, a.bytes, a.IsInitialization());
            t.cur == Recorded(core, a).x && t.clock == Recorded(core, a).clock
  {
  }
}
