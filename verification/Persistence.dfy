/**
 The promise of persistent memory to the program: a store that is followed by a flush of
 its line, and the flush by a fence, survives every crash after the fence took effect.
 */
module Persistence {
  import opened Memory
  import opened StoreBuffers
  import opened Tso
  import opened FlushCoverage

  ghost predicate IsIn(fs: seq<Action>, id: nat)
  {
    exists f :: f in fs && f.id == id
  }

  /** Every flush that left the store buffer is completed or waits, and waits for no fence that is through. */
  ghost predicate Settled(t: Thread)
    requires InOrder(t)
  {
    && (forall k: nat :: k < t.Evicted() && t.program[k].IsCacheOp() ==> IsIn(t.flushBuffer, k) || IsIn(t.flushed, k))
    && (forall f, j: nat :: f in t.flushBuffer && j < t.Evicted() && t.program[j].kind == OpSfence ==> j < f.id)
  }

  lemma IsInAppend(fs: seq<Action>, f: Action, k: nat)
    ensures IsIn(fs + [f], k) <==> IsIn(fs, k) || f.id == k
  {
    assert forall g :: g in fs + [f] <==> g in fs || g == f;
    assert f in fs + [f];
    if IsIn(fs, k) {
      var g :| g in fs && g.id == k;
      assert g in fs + [f];
    }
  }

  lemma IsInTail(fs: seq<Action>, k: nat)
    requires fs != []
    ensures IsIn(fs, k) <==> fs[0].id == k || IsIn(fs[1..], k)
  {
    assert forall g :: g in fs <==> g == fs[0] || g in fs[1..];
    if IsIn(fs[1..], k) {
      var g :| g in fs[1..] && g.id == k;
      assert g in fs;
    }
    assert fs[0] in fs;
  }

  lemma SettledIssue(t: Thread, kind: Kind, loc: nat, bytes: seq<Byte>, clock: nat)
    requires InOrder(t) && Settled(t)
    ensures InOrder(Issue(t, kind, loc, bytes, clock)) && Settled(Issue(t, kind, loc, bytes, clock))
  {
    hide IsIn;
    IssueInOrder(t, kind, loc, bytes, clock);
  }

  lemma SettledEvict(t: Thread, number: nat)
    requires InOrder(t) && Settled(t) && t.storeBuffer != [] && (t.storeBuffer[0].kind == OpSfence ==> t.flushBuffer == [])
    ensures InOrder(Evict(t, number)) && Settled(Evict(t, number))
  {
    hide IsIn;
    EvictInOrder(t, number);
    var a, u, n := t.storeBuffer[0], Evict(t, number), t.Evicted();
    var marked := if t.lastSfence.Some? then a.(lastClflush := t.lastSfence) else a;
    forall k: nat | k < u.Evicted() && u.program[k].IsCacheOp()
      ensures IsIn(u.flushBuffer, k) || IsIn(u.flushed, k)
    {
      IsInAppend(t.flushBuffer, marked, k);
      IsInAppend(t.flushed, a, k);
    }
  }

  lemma SettledDrain(t: Thread, number: nat)
    requires InOrder(t) && Settled(t) && t.flushBuffer != []
    ensures InOrder(Drain(t, number)) && Settled(Drain(t, number))
  {
    hide IsIn;
    var u := Drain(t, number);
    forall k: nat | k < u.Evicted() && u.program[k].IsCacheOp()
      ensures IsIn(u.flushBuffer, k) || IsIn(u.flushed, k)
    {
      IsInTail(t.flushBuffer, k);
      IsInAppend(t.flushed, t.flushBuffer[0], k);
    }
    assert forall f :: f in u.flushBuffer ==> f in t.flushBuffer;
  }

  ghost predicate SettledThread(c: Cpu, t: nat)
  {
    InOrder(c.ThreadOf(t)) && Settled(c.ThreadOf(t))
  }

  lemma SettledStep<R>(c: Cpu, s: Step<R>, t: nat)
    requires CanStep(c, s) && SettledThread(c, t)
    ensures SettledThread(StepNext(c, s), t)
  {
    hide Settled, InOrder, Issue, Evict, Drain;
    var th := c.ThreadOf(t);
    match s
    case Issuing(u, kind, loc, bytes) => SettledIssue(th, kind, loc, bytes, c.clock);
    case Evicting(u) =>
      if u == t {
        SettledEvict(th, c.clock + 1);
      }
    case Draining(u) =>
      if u == t {
        SettledDrain(th, c.clock + 1);
      }
    case PowerFail => SettledIdle();
    case _ =>
  }

  lemma SettledIdle()
    ensures InOrder(IDLE) && Settled(IDLE)
  {
  }

  lemma {:induction false} RunSettled<R>(steps: seq<Step<R>>, t: nat)
    requires Runs(steps)
    ensures SettledThread(CpuAfter(steps), t)
  {
    if steps == [] {
      SettledIdle();
    } else {
      hide SettledThread, StepNext, CanStep;
      var n := |steps| - 1;
      RunSettled(steps[..n], t);
      SettledStep(CpuAfter(steps[..n]), steps[n], t);
    }
  }

  /** Flush `k` has taken effect by itself, or with fence `j`, or because nothing waits any more. */
  ghost predicate FencedOff(th: Thread, k: nat, j: nat)
    requires k < |th.program| && |th.storeBuffer| <= |th.program|
  {
    || th.program[k].kind == OpClflush
    || th.flushBuffer == []
    || (k < j < th.Evicted() && th.program[j].kind == OpSfence)
  }

  /** Such a flush is completed: it cannot wait in the flush buffer. */
  lemma FencedFlushCompletes(th: Thread, k: nat, j: nat)
    requires InOrder(th) && FlushesLeft(th) && Settled(th)
    requires k < th.Evicted() && th.program[k].IsCacheOp() && FencedOff(th, k, j)
    ensures exists f :: f in th.flushed && f.id == k && f.Line() == th.program[k].Line()
  {
    forall f | f in th.flushBuffer
      ensures f.id != k
    {
      assert IsFlush(th, f);
    }
    assert IsIn(th.flushed, k);
    var f :| f in th.flushed && f.id == k;
    assert IsFlush(th, f);
  }

  /**
   Action `i` of a thread stores to a line that its action `k` flushes later, and the flush
   has left the store buffer and been fenced off. Then the store has its number, and the
   interval of the line starts there or later: no crash loses the store any more.
   */
  lemma StoreFlushFence<R>(steps: seq<Step<R>>, t: nat, i: nat, k: nat, j: nat)
    requires Runs(steps)
    requires var th := CpuAfter(steps).ThreadOf(t);
             && |th.storeBuffer| <= |th.program| && i < k < th.Evicted()
             && th.program[i].kind.OpWrite? && th.program[k].IsCacheOp() && th.program[i].Line() == th.program[k].Line()
             && FencedOff(th, k, j)
    ensures var n := NumberGiven(steps, t, i);
            0 < n <= BeginOf(CpuAfter(steps).begins, CpuAfter(steps).ThreadOf(t).program[i].Line())
  {
    hide Runs, CpuAfter, Settled, FencedOff, NumberGiven;
    RunGood(steps);
    RunSettled(steps, t);
    NumberIs(steps, t, i);
    var c := CpuAfter(steps);
    var th := c.ThreadOf(t);
    assert Good(th, c.clock, c.begins);
    FencedFlushCompletes(th, k, j);
    var f :| f in th.flushed && f.id == k && f.Line() == th.program[k].Line();
    FlushGuarantee(steps, t, f, i);
  }
}
