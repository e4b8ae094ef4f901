/**
 Store buffers and flush buffers of the threads, under x86-TSO.

 Stores, flushes and store fences wait in the store buffer of their thread and take
 effect in order. A clflushopt then waits in the flush buffer until the next fence of
 its thread, and may let its line be written back as early as the stores before it.
 */
module StoreBuffers {
  import opened Wrappers
  import opened Memory

  /** `isInit` marks the store of an atomic_init. */
  datatype Kind = OpWrite(isInit: bool) | OpClflush | OpClflushOpt | OpSfence

  /** What reading the clock of the last fence gives while it is unset: it shares its storage with the stored value. */
  const VALUE_NONE: nat := 0xdeadbeef

  /**
   An action of one thread; `id` is its position in program order and pointers to
   actions are ids. The last three fields are those of a clflushopt.
   */
  datatype Action = Action(id: nat, kind: Kind, loc: nat, bytes: seq<Byte>,
                           lastCommittedWrite: nat, lastWrite: Option<nat>, lastClflush: Option<nat>)
  {
    predicate IsCacheOp()
    {
      kind == OpClflush || kind == OpClflushOpt
    }

    predicate IsInitialization()
    {
      kind.OpWrite? && kind.isInit
    }

    function Line(): nat
    {
      CacheId(loc)
    }

    /** Recorded as the latest operation on its line. */
    predicate Marks(line: nat)
    {
      (kind.OpWrite? || kind == OpClflush) && Line() == line
    }
  }

  /**
   `numbers` are the sequence numbers given so far. `program` lists the actions issued
   and `flushed` the flushes completed; no operation reads them.
   */
  datatype Thread = Thread(
    storeBuffer: seq<Action>,
    flushBuffer: seq<Action>,
    objToLastWrite: map<nat, nat>,
    lastSfence: Option<nat>,
    flushCount: int,
    numbers: map<nat, nat>,
    program: seq<Action>,
    flushed: seq<Action>)
  {
    function Number(id: nat): nat
    {
      if id in numbers then numbers[id] else 0
    }

    /** How many actions have left the store buffer. */
    function Evicted(): nat
      requires |storeBuffer| <= |program|
    {
      |program| - |storeBuffer|
    }

    /** Where a clflushopt moves the start of its line's interval at least. */
    function FlushPoint(f: Action): nat
    {
      var earliest := f.lastClflush.GetOr(VALUE_NONE);
      var afterWrite := if f.lastWrite.Some? && Number(f.lastWrite.value) > earliest then Number(f.lastWrite.value) else earliest;
      if f.lastCommittedWrite > afterWrite then f.lastCommittedWrite else afterWrite
    }

    /** The start of the line's interval once the flush `f`, numbered `number`, completes. */
    function BeginAfter(f: Action, begin: nat, number: nat): nat
    {
      if f.kind == OpClflush then number else if begin < FlushPoint(f) then FlushPoint(f) else begin
    }
  }

  const IDLE: Thread := Thread([], [], map[], None, 0, map[], [], [])

  // ----- Operations of one thread -----

  function NewAction(t: Thread, kind: Kind, loc: nat, bytes: seq<Byte>, clock: nat): Action
  {
    var lastWrite := if CacheId(loc) in t.objToLastWrite then Some(t.objToLastWrite[CacheId(loc)]) else None;
    if kind == OpClflush || kind == OpClflushOpt then Action(|t.program|, kind, loc, bytes, clock, lastWrite, None)
    else Action(|t.program|, kind, loc, bytes, 0, None, None)
  }

  /** The action enters the store buffer. */
  function Issue(t: Thread, kind: Kind, loc: nat, bytes: seq<Byte>, clock: nat): Thread
  {
    var a := NewAction(t, kind, loc, bytes, clock);
    t.(storeBuffer := t.storeBuffer + [a],
       objToLastWrite := if a.Marks(a.Line()) then t.objToLastWrite[a.Line() := a.id] else t.objToLastWrite,
       flushCount := if a.IsCacheOp() then t.flushCount + 1 else t.flushCount,
       program := t.program + [a])
  }

  /** The oldest action leaves the store buffer; all but a clflushopt get the number `number`. */
  function Evict(t: Thread, number: nat): Thread
    requires t.storeBuffer != []
  {
    var a := t.storeBuffer[0];
    var u := t.(storeBuffer := t.storeBuffer[1..]);
    match a.kind
    case OpWrite(_) => u.(numbers := t.numbers[a.id := number])
    case OpSfence => u.(numbers := t.numbers[a.id := number], lastSfence := Some(number))
    case OpClflush =>
      u.(numbers := t.numbers[a.id := number], flushCount := t.flushCount - 1, flushed := t.flushed + [a])
    case OpClflushOpt =>
      u.(flushBuffer := t.flushBuffer + [if t.lastSfence.Some? then a.(lastClflush := t.lastSfence) else a])
  }

  /** The last sequence number once `a` has left the store buffer. */
  function ClockAfter(a: Action, clock: nat): nat
  {
    if a.kind == OpClflushOpt then clock else clock + 1
  }

  /** The oldest clflushopt of the flush buffer completes. */
  function Drain(t: Thread, number: nat): Thread
    requires t.flushBuffer != []
  {
    var f := t.flushBuffer[0];
    t.(flushBuffer := t.flushBuffer[1..],
       numbers := t.numbers[f.id := number],
       flushCount := t.flushCount - 1,
       flushed := t.flushed + [f])
  }

  /** The stores of a buffer, as a reader of the same thread sees them. */
  ghost function Buffered(actions: seq<Action>): (r: seq<Write>)
    ensures forall w :: w in r ==> w.clock == 0
  {
    if actions == [] then []
    else
      var n := |actions| - 1;
      Buffered(actions[..n]) + if actions[n].kind.OpWrite? then [Write(actions[n].loc, actions[n].bytes, 0, actions[n].IsInitialization())] else []
  }

  // ----- What every thread keeps -----

  ghost function BeginOf(begins: map<nat, nat>, line: nat): nat
  {
    if line in begins then begins[line] else 0
  }

  /** The store buffer holds the last actions of the program, in program order. */
  ghost predicate InOrder(t: Thread)
  {
    && |t.storeBuffer| <= |t.program|
    && t.storeBuffer == t.program[t.Evicted()..]
    && forall i :: 0 <= i < |t.program| ==> t.program[i].id == i
  }

  /** The first `n` actions, other than clflushopts, are numbered in program order. */
  ghost predicate NumberedUpTo(program: seq<Action>, n: nat, numbers: map<nat, nat>, clock: nat)
    requires n <= |program|
  {
    && (forall i: nat :: i < n && program[i].kind != OpClflushOpt ==> i in numbers && 0 < numbers[i] <= clock)
    && forall i: nat, j: nat :: i < j < n && program[i].kind != OpClflushOpt && program[j].kind != OpClflushOpt ==>
                                  i in numbers && j in numbers && numbers[i] < numbers[j]
  }

  ghost predicate Numbered(t: Thread, clock: nat)
    requires InOrder(t)
  {
    NumberedUpTo(t.program, t.Evicted(), t.numbers, clock)
  }

  /** `last` is the latest of the first `n` actions that marks the line. */
  ghost predicate Latest(program: seq<Action>, n: nat, line: nat, last: Option<nat>)
    requires n <= |program|
  {
    && (last.Some? ==> last.value < n && program[last.value].Marks(line))
    && forall i: nat :: i < n && program[i].Marks(line) ==> last.Some? && i <= last.value
  }

  ghost function LastOn(t: Thread, line: nat): Option<nat>
  {
    if line in t.objToLastWrite then Some(t.objToLastWrite[line]) else None
  }

  ghost predicate TracksLines(t: Thread)
  {
    forall line: nat :: Latest(t.program, |t.program|, line, LastOn(t, line))
  }

  /** A flush remembers the latest operation on its line before it. */
  ghost predicate Linked(program: seq<Action>, i: nat)
    requires i < |program|
  {
    program[i].IsCacheOp() ==> Latest(program, i, program[i].Line(), program[i].lastWrite)
  }

  ghost predicate FlushesLinked(t: Thread)
  {
    forall i: nat :: i < |t.program| ==> Linked(t.program, i)
  }

  /** The action of the program that `f` is, up to the point of the last fence. */
  ghost predicate IsFlush(t: Thread, f: Action)
    requires InOrder(t)
  {
    f.id < t.Evicted() && f.IsCacheOp() && f == t.program[f.id].(lastClflush := f.lastClflush)
  }

  ghost predicate FlushesLeft(t: Thread)
    requires InOrder(t)
  {
    && (forall f :: f in t.flushBuffer ==> IsFlush(t, f) && f.kind == OpClflushOpt)
    && forall f :: f in t.flushed ==> IsFlush(t, f)
  }

  /** Every earlier store of the thread to the flushed line has been committed, at or before the start of the line's interval. */
  ghost predicate Guaranteed(t: Thread, f: Action, begin: nat)
  {
    forall i: nat :: i < f.id && i < |t.program| && t.program[i].kind.OpWrite? && t.program[i].Line() == f.Line() ==>
                       i in t.numbers && t.numbers[i] <= begin
  }

  ghost predicate AllGuaranteed(t: Thread, begins: map<nat, nat>)
  {
    forall f :: f in t.flushed ==> Guaranteed(t, f, BeginOf(begins, f.Line()))
  }

  ghost function CacheOps(actions: seq<Action>): nat
  {
    if actions == [] then 0 else CacheOps(actions[1..]) + if actions[0].IsCacheOp() then 1 else 0
  }

  ghost predicate CountsFlushes(t: Thread)
  {
    t.flushCount == CacheOps(t.storeBuffer) + |t.flushBuffer|
  }

  ghost predicate Good(t: Thread, clock: nat, begins: map<nat, nat>)
  {
    && InOrder(t) && Numbered(t, clock) && TracksLines(t) && FlushesLinked(t) && FlushesLeft(t)
    && AllGuaranteed(t, begins) && CountsFlushes(t)
  }

  lemma IssueInOrder(t: Thread, kind: Kind, loc: nat, bytes: seq<Byte>, clock: nat)
    requires InOrder(t)
    ensures var u := Issue(t, kind, loc, bytes, clock); InOrder(u) && u.Evicted() == t.Evicted()
  {
    var u := Issue(t, kind, loc, bytes, clock);
    assert u.program[t.Evicted()..] == t.program[t.Evicted()..] + [NewAction(t, kind, loc, bytes, clock)];
  }

  lemma IssueTracksLines(t: Thread, kind: Kind, loc: nat, bytes: seq<Byte>, clock: nat)
    requires InOrder(t) && TracksLines(t)
    ensures TracksLines(Issue(t, kind, loc, bytes, clock))
  {
    var u := Issue(t, kind, loc, bytes, clock);
    forall line: nat
      ensures Latest(u.program, |u.program|, line, LastOn(u, line))
    {
      assert Latest(t.program, |t.program|, line, LastOn(t, line));
    }
  }

  lemma IssueLinked(t: Thread, kind: Kind, loc: nat, bytes: seq<Byte>, clock: nat)
    requires TracksLines(t) && FlushesLinked(t)
    ensures FlushesLinked(Issue(t, kind, loc, bytes, clock))
  {
    var u := Issue(t, kind, loc, bytes, clock);
    forall i: nat | i < |u.program|
      ensures Linked(u.program, i)
    {
      if i < |t.program| {
        assert Linked(t.program, i);
      } else {
        assert Latest(t.program, |t.program|, CacheId(loc), LastOn(t, CacheId(loc)));
      }
    }
  }

  lemma {:induction false} CacheOpsAppend(actions: seq<Action>, a: Action)
    ensures CacheOps(actions + [a]) == CacheOps(actions) + if a.IsCacheOp() then 1 else 0
  {
    if actions == [] {
      assert [a][1..] == [];
    } else {
      CacheOpsAppend(actions[1..], a);
      assert (actions + [a])[1..] == actions[1..] + [a];
    }
  }

  lemma IssueNumbered(t: Thread, kind: Kind, loc: nat, bytes: seq<Byte>, clock: nat)
    requires InOrder(t) && InOrder(Issue(t, kind, loc, bytes, clock))
    requires Issue(t, kind, loc, bytes, clock).Evicted() == t.Evicted()
    requires Numbered(t, clock) && FlushesLeft(t)
    ensures Numbered(Issue(t, kind, loc, bytes, clock), clock) && FlushesLeft(Issue(t, kind, loc, bytes, clock))
  {
    var u := Issue(t, kind, loc, bytes, clock);
    assert forall i :: 0 <= i < t.Evicted() ==> u.program[i] == t.program[i];
    assert forall f :: IsFlush(t, f) ==> IsFlush(u, f);
  }

  lemma IssueGuaranteed(t: Thread, kind: Kind, loc: nat, bytes: seq<Byte>, clock: nat, begins: map<nat, nat>)
    requires InOrder(t) && FlushesLeft(t) && AllGuaranteed(t, begins)
    ensures AllGuaranteed(Issue(t, kind, loc, bytes, clock), begins)
  {
    var u := Issue(t, kind, loc, bytes, clock);
    forall f | f in u.flushed
      ensures Guaranteed(u, f, BeginOf(begins, f.Line()))
    {
      assert IsFlush(t, f) && Guaranteed(t, f, BeginOf(begins, f.Line()));
    }
  }

  lemma IssueGood(t: Thread, kind: Kind, loc: nat, bytes: seq<Byte>, clock: nat, begins: map<nat, nat>)
    requires Good(t, clock, begins)
    ensures Good(Issue(t, kind, loc, bytes, clock), clock, begins)
  {
    IssueInOrder(t, kind, loc, bytes, clock);
    IssueTracksLines(t, kind, loc, bytes, clock);
    IssueLinked(t, kind, loc, bytes, clock);
    IssueNumbered(t, kind, loc, bytes, clock);
    IssueGuaranteed(t, kind, loc, bytes, clock, begins);
    CacheOpsAppend(t.storeBuffer, NewAction(t, kind, loc, bytes, clock));
    hide InOrder, TracksLines, FlushesLinked, Numbered, AllGuaranteed, CacheOps, FlushesLeft;
  }

  // ----- Eviction -----

  lemma EvictInOrder(t: Thread, number: nat)
    requires InOrder(t) && t.storeBuffer != []
    ensures var u := Evict(t, number);
            && InOrder(u) && u.Evicted() == t.Evicted() + 1
            && u.program == t.program && t.storeBuffer[0] == t.program[t.Evicted()] && t.storeBuffer[0].id == t.Evicted()
  {
  }

  lemma NumberedNext(program: seq<Action>, n: nat, numbers: map<nat, nat>, clock: nat)
    requires n < |program| && NumberedUpTo(program, n, numbers, clock)
    ensures program[n].kind != OpClflushOpt ==> NumberedUpTo(program, n + 1, numbers[n := clock + 1], clock + 1)
    ensures program[n].kind == OpClflushOpt ==> NumberedUpTo(program, n + 1, numbers, clock)
  {
  }

  lemma NumberedLater(program: seq<Action>, n: nat, numbers: map<nat, nat>, clock: nat, now: nat)
    requires n <= |program| && NumberedUpTo(program, n, numbers, clock) && clock <= now
    ensures NumberedUpTo(program, n, numbers, now)
  {
  }

  lemma EvictNumbered(t: Thread, clock: nat)
    requires InOrder(t) && t.storeBuffer != [] && Numbered(t, clock)
    ensures var u := Evict(t, clock + 1); InOrder(u) && Numbered(u, ClockAfter(t.storeBuffer[0], clock))
  {
    EvictInOrder(t, clock + 1);
    hide NumberedUpTo;
    NumberedNext(t.program, t.Evicted(), t.numbers, clock);
  }

  lemma EvictFlushesLeft(t: Thread, number: nat)
    requires InOrder(t) && t.storeBuffer != [] && InOrder(Evict(t, number))
    requires FlushesLeft(t)
    ensures FlushesLeft(Evict(t, number))
  {
    EvictInOrder(t, number);
    var u := Evict(t, number);
    assert forall f :: IsFlush(t, f) ==> IsFlush(u, f);
  }

  /** The operations after which other threads' flushes keep their guarantees. */
  ghost predicate Later(begins: map<nat, nat>, after: map<nat, nat>, clock: nat)
  {
    forall line: nat :: BeginOf(after, line) >= BeginOf(begins, line) || BeginOf(after, line) >= clock
  }

  /** `begins` after the step of a thread that evicts or drains `f` as number clock + 1. */
  function BeginsAfter(t: Thread, f: Action, begins: map<nat, nat>, number: nat): map<nat, nat>
  {
    if f.IsCacheOp() then begins[f.Line() := t.BeginAfter(f, if f.Line() in begins then begins[f.Line()] else 0, number)] else begins
  }

  lemma GuaranteeKept(t: Thread, f: Action, begin: nat, after: nat, clock: nat)
    requires InOrder(t) && Numbered(t, clock) && IsFlush(t, f) && Guaranteed(t, f, begin)
    requires after >= begin || after >= clock
    ensures Guaranteed(t, f, after)
  {
  }

  lemma LaterGuaranteed(t: Thread, clock: nat, begins: map<nat, nat>, after: map<nat, nat>)
    requires InOrder(t) && Numbered(t, clock) && FlushesLeft(t) && AllGuaranteed(t, begins) && Later(begins, after, clock)
    ensures AllGuaranteed(t, after)
  {
    forall f | f in t.flushed
      ensures Guaranteed(t, f, BeginOf(after, f.Line()))
    {
      GuaranteeKept(t, f, BeginOf(begins, f.Line()), BeginOf(after, f.Line()), clock);
    }
  }

  /** A thread keeps its invariant while others commit and flush. */
  lemma LaterGood(t: Thread, clock: nat, begins: map<nat, nat>, now: nat, after: map<nat, nat>)
    requires Good(t, clock, begins) && clock <= now && Later(begins, after, clock)
    ensures Good(t, now, after)
  {
    LaterGuaranteed(t, clock, begins, after);
    NumberedLater(t.program, t.Evicted(), t.numbers, clock, now);
  }

  /** Numbering one more action of the program does not touch the stores before a flush. */
  lemma RenumberGuaranteed(t: Thread, u: Thread, f: Action, begin: nat, id: nat, number: nat)
    requires InOrder(t) && Guaranteed(t, f, begin)
    requires u.program == t.program && (u.numbers == t.numbers || u.numbers == t.numbers[id := number])
    requires id >= f.id || id >= |t.program| || !t.program[id].kind.OpWrite?
    ensures Guaranteed(u, f, begin)
  {
  }

  /** A clflush takes effect after every earlier store of its thread. */
  lemma ClflushGuarantees(t: Thread, clock: nat)
    requires InOrder(t) && Numbered(t, clock) && t.storeBuffer != [] && t.storeBuffer[0].kind == OpClflush
    ensures Guaranteed(Evict(t, clock + 1), t.storeBuffer[0], clock + 1)
  {
    EvictInOrder(t, clock + 1);
  }

  lemma EvictGuaranteed(t: Thread, clock: nat, begins: map<nat, nat>)
    requires InOrder(t) && Numbered(t, clock) && FlushesLeft(t) && AllGuaranteed(t, begins) && t.storeBuffer != []
    ensures var u := Evict(t, clock + 1);
            AllGuaranteed(u, if t.storeBuffer[0].kind == OpClflush then BeginsAfter(t, t.storeBuffer[0], begins, clock + 1) else begins)
  {
    var a := t.storeBuffer[0];
    var u := Evict(t, clock + 1);
    var after := if a.kind == OpClflush then BeginsAfter(t, a, begins, clock + 1) else begins;
    EvictInOrder(t, clock + 1);
    assert Later(begins, after, clock);
    LaterGuaranteed(t, clock, begins, after);
    hide Guaranteed, NumberedUpTo;
    forall f | f in u.flushed
      ensures Guaranteed(u, f, BeginOf(after, f.Line()))
    {
      if f in t.flushed {
        assert IsFlush(t, f);
        RenumberGuaranteed(t, u, f, BeginOf(after, f.Line()), a.id, clock + 1);
      } else {
        ClflushGuarantees(t, clock);
      }
    }
  }

  lemma EvictGood(t: Thread, clock: nat, begins: map<nat, nat>)
    requires Good(t, clock, begins) && t.storeBuffer != []
    ensures var a := t.storeBuffer[0];
            Good(Evict(t, clock + 1), ClockAfter(a, clock), if a.kind == OpClflush then BeginsAfter(t, a, begins, clock + 1) else begins)
  {
    hide Numbered, AllGuaranteed, FlushesLeft, Latest, Linked;
    EvictInOrder(t, clock + 1);
    EvictNumbered(t, clock);
    EvictFlushesLeft(t, clock + 1);
    EvictGuaranteed(t, clock, begins);
    EvictKeeps(t, clock + 1);
  }

  lemma EvictKeeps(t: Thread, number: nat)
    requires t.storeBuffer != [] && TracksLines(t) && FlushesLinked(t) && CountsFlushes(t)
    ensures TracksLines(Evict(t, number)) && FlushesLinked(Evict(t, number)) && CountsFlushes(Evict(t, number))
  {
    var u := Evict(t, number);
    assert forall line: nat :: LastOn(u, line) == LastOn(t, line);
  }

  /** The last operation on the line before a clflushopt is numbered no later than its flush point. */
  lemma DrainGuarantees(t: Thread, clock: nat, f: Action, begin: nat)
    requires InOrder(t) && Numbered(t, clock) && FlushesLinked(t) && IsFlush(t, f) && f.kind == OpClflushOpt
    ensures Guaranteed(t, f, t.BeginAfter(f, begin, clock + 1))
  {
    assert Linked(t.program, f.id);
    assert Latest(t.program, f.id, f.Line(), f.lastWrite);
    var after := t.BeginAfter(f, begin, clock + 1);
    assert f.lastWrite.Some? ==> after >= t.Number(f.lastWrite.value);
    forall i: nat | i < f.id && i < |t.program| && t.program[i].kind.OpWrite? && t.program[i].Line() == f.Line()
      ensures i in t.numbers && t.numbers[i] <= after
    {
      assert t.program[i].Marks(f.Line());
      assert t.program[f.lastWrite.value].Marks(f.Line());
      assert i == f.lastWrite.value || t.numbers[i] < t.numbers[f.lastWrite.value];
    }
  }

  lemma DrainNumbered(t: Thread, clock: nat)
    requires InOrder(t) && Numbered(t, clock) && FlushesLeft(t) && t.flushBuffer != []
    ensures var u := Drain(t, clock + 1); InOrder(u) && Numbered(u, clock + 1) && FlushesLeft(u)
  {
    var u := Drain(t, clock + 1);
    assert IsFlush(t, t.flushBuffer[0]);
    assert forall f :: IsFlush(t, f) ==> IsFlush(u, f);
  }

  lemma DrainGuaranteed(t: Thread, clock: nat, begins: map<nat, nat>)
    requires InOrder(t) && Numbered(t, clock) && FlushesLinked(t) && FlushesLeft(t) && AllGuaranteed(t, begins)
    requires t.flushBuffer != []
    ensures AllGuaranteed(Drain(t, clock + 1), BeginsAfter(t, t.flushBuffer[0], begins, clock + 1))
  {
    var d := t.flushBuffer[0];
    var u := Drain(t, clock + 1);
    var after := BeginsAfter(t, d, begins, clock + 1);
    assert IsFlush(t, d);
    LaterGuaranteed(t, clock, begins, after);
    DrainGuarantees(t, clock, d, BeginOf(begins, d.Line()));
    forall f | f in u.flushed
      ensures Guaranteed(u, f, BeginOf(after, f.Line()))
    {
      assert f in t.flushed || f == d;
      RenumberGuaranteed(t, u, f, BeginOf(after, f.Line()), d.id, clock + 1);
    }
  }

  lemma DrainGood(t: Thread, clock: nat, begins: map<nat, nat>)
    requires Good(t, clock, begins) && t.flushBuffer != []
    ensures Good(Drain(t, clock + 1), clock + 1, BeginsAfter(t, t.flushBuffer[0], begins, clock + 1))
  {
    hide Numbered, AllGuaranteed, FlushesLeft, Latest, Linked;
    DrainNumbered(t, clock);
    DrainGuaranteed(t, clock, begins);
    var u := Drain(t, clock + 1);
    assert forall line: nat :: LastOn(u, line) == LastOn(t, line);
  }

  // ----- Clocks recorded in actions are clocks of the past -----

  ghost predicate RecentAction(a: Action, clock: nat)
  {
    a.lastCommittedWrite <= clock && (a.lastClflush.Some? ==> a.lastClflush.value <= clock)
  }

  ghost predicate Recent(t: Thread, clock: nat)
  {
    && (forall id :: id in t.numbers ==> t.numbers[id] <= clock)
    && (t.lastSfence.Some? ==> t.lastSfence.value <= clock)
    && (forall a :: a in t.storeBuffer ==> RecentAction(a, clock) && a.lastClflush.None?)
    && (forall a :: a in t.flushBuffer ==> RecentAction(a, clock))
  }

  lemma RecentIssue(t: Thread, kind: Kind, loc: nat, bytes: seq<Byte>, clock: nat)
    requires Recent(t, clock)
    ensures Recent(Issue(t, kind, loc, bytes, clock), clock)
  {
  }

  lemma RecentEvict(t: Thread, clock: nat)
    requires Recent(t, clock) && t.storeBuffer != []
    ensures Recent(Evict(t, clock + 1), ClockAfter(t.storeBuffer[0], clock))
  {
    assert forall a :: a in Evict(t, clock + 1).storeBuffer ==> a in t.storeBuffer;
    assert t.storeBuffer[0] in t.storeBuffer;
  }

  lemma RecentDrain(t: Thread, clock: nat)
    requires Recent(t, clock) && t.flushBuffer != []
    ensures Recent(Drain(t, clock + 1), clock + 1)
  {
    var u := Drain(t, clock + 1);
    assert forall a :: a in u.storeBuffer ==> RecentAction(a, clock + 1) && a.lastClflush.None?;
    assert forall a :: a in u.flushBuffer ==> a in t.flushBuffer;
    assert forall a :: a in u.flushBuffer ==> RecentAction(a, clock + 1);
  }

  /** The start of an interval stays in the past exactly when the thread had evicted an sfence before the flush. */
  lemma FlushPointRecent(t: Thread, f: Action, begin: nat, clock: nat)
    requires Recent(t, clock) && RecentAction(f, clock) && begin <= clock
    ensures begin <= t.BeginAfter(f, begin, clock + 1)
    ensures t.BeginAfter(f, begin, clock + 1) <= clock + 1 <==>
            f.kind == OpClflush || f.lastClflush.Some? || VALUE_NONE <= clock + 1
  {
    assert f.lastClflush.Some? ==> t.FlushPoint(f) <= clock;
    assert f.lastClflush.None? ==> t.FlushPoint(f) >= VALUE_NONE;
  }
}
