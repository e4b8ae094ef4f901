/** The store buffer and the flush buffer of a thread, as the object that its operations update. */
module ThreadMemories {
  import opened Wrappers
  import opened Memory
  import opened Column
  import opened Enumeration
  import opened StoreList
  import opened Engine
  import opened StoreBuffers
  import opened Execution
  import opened Eviction

  ghost function CoreOf(exec: ModelExecution): Core
    reads exec
  {
    Core(exec.Model(), exec.usedSequenceNumbers, exec.noWriteSinceCrashCheck, exec.hasCrashed)
  }

  /** shouldInsertCrash: true if the crash happens here. */
  method ShouldInsertCrash(exec: ModelExecution, checks: Checks) returns (crash: bool)
    modifies exec`hasCrashed, exec`noWriteSinceCrashCheck
    ensures CoreOf(exec) == Checked(old(CoreOf(exec)), checks)
    ensures crash <==> checks.armed && !old(exec.noWriteSinceCrashCheck) && checks.first <= old(exec.usedSequenceNumbers)
                       && checks.Answer(old(exec.usedSequenceNumbers))
    ensures exec.hasCrashed == (old(exec.hasCrashed) || crash)
    ensures exec.noWriteSinceCrashCheck <==>
            old(exec.noWriteSinceCrashCheck) || (checks.armed && checks.first <= old(exec.usedSequenceNumbers) && !crash)
  {
    if !checks.armed || exec.noWriteSinceCrashCheck || exec.usedSequenceNumbers < checks.first {
      return false;
    }
    if checks.Answer(exec.usedSequenceNumbers) {
      exec.hasCrashed := true;
      return true;
    }
    exec.noWriteSinceCrashCheck := true;
    return false;
  }

  /** Moves the start of the interval of the flushed line. */
  method PersistCacheLine(exec: ModelExecution, clflush: Action, number: nat, lastWriteNumber: nat)
    requires CacheId(clflush.loc) in exec.objToCacheline
    modifies exec`objToCacheline
    ensures var x := old(exec.Model());
            var range := x.RangeOf(clflush.Line());
            exec.Model() == x.(ranges := x.ranges[clflush.Line() := range.(begin := PersistPoint(clflush, range.begin, number, lastWriteNumber))])
  {
    var line := CacheId(clflush.loc);
    if clflush.kind == OpClflush {
      exec.SetBeginRange(line, number);
    } else {
      var earliestclock := clflush.lastClflush.GetOr(VALUE_NONE);
      if clflush.lastWrite.Some? && lastWriteNumber > earliestclock {
        earliestclock := lastWriteNumber;
      }
      if clflush.lastCommittedWrite > earliestclock {
        earliestclock := clflush.lastCommittedWrite;
      }
      var currstart := exec.objToCacheline[line].begin;
      if currstart < earliestclock {
        exec.SetBeginRange(line, earliestclock);
      } else {
        assert exec.objToCacheline[line := exec.objToCacheline[line]] == exec.objToCacheline;
      }
    }
  }

  /** The new start of the interval, with the number of the last operation on the line looked up. */
  ghost function PersistPoint(f: Action, begin: nat, number: nat, lastWriteNumber: nat): nat
  {
    IDLE.(numbers := if f.lastWrite.Some? then map[f.lastWrite.value := lastWriteNumber] else map[]).BeginAfter(f, begin, number)
  }

  lemma PersistPointIs(t: Thread, f: Action, begin: nat, number: nat)
    ensures PersistPoint(f, begin, number, if f.lastWrite.Some? then t.Number(f.lastWrite.value) else 0) == t.BeginAfter(f, begin, number)
  {
  }

  lemma MapTwice<T>(m: map<nat, T>, k: nat, v: T, w: T)
    ensures m[k := v][k := w] == m[k := w]
  {
  }

  class ThreadMemory {
    var storeBuffer: seq<Action>
    var flushBuffer: seq<Action>
    var objToLastWrite: map<nat, nat>
    var lastSfence: Option<nat>
    var flushCount: int
    /** The sequence numbers the thread's actions have been given. */
    var numbers: map<nat, nat>
    var issued: nat
    ghost var program: seq<Action>
    ghost var flushed: seq<Action>

    ghost function View(): Thread
      reads this
    {
      Thread(storeBuffer, flushBuffer, objToLastWrite, lastSfence, flushCount, numbers, program, flushed)
    }

    ghost predicate Valid()
      reads this
    {
      && issued == |program|
      && (forall line :: line in objToLastWrite ==> objToLastWrite[line] < issued)
      && (forall a :: a in storeBuffer ==> a.lastWrite != Some(a.id))
      && (forall f :: f in flushBuffer ==> f.lastWrite != Some(f.id) && f.IsCacheOp())
    }

    constructor ()
      ensures Valid() && View() == IDLE
    {
      storeBuffer, flushBuffer := [], [];
      objToLastWrite, numbers := map[], map[];
      lastSfence, flushCount, issued := None, 0, 0;
      program, flushed := [], [];
    }

    /** A clflush or clflushopt enters the store buffer. */
    method AddCacheOp(kind: Kind, loc: nat, currSeqNum: nat)
      requires Valid() && (kind == OpClflush || kind == OpClflushOpt)
      modifies this
      ensures Valid() && View() == Issue(old(View()), kind, loc, [], currSeqNum)
    {
      var lastWrite := if CacheId(loc) in objToLastWrite then Some(objToLastWrite[CacheId(loc)]) else None;
      var act := Action(issued, kind, loc, [], currSeqNum, lastWrite, None);
      storeBuffer := storeBuffer + [act];
      if kind == OpClflush {
        objToLastWrite := objToLastWrite[CacheId(loc) := act.id];
      }
      flushCount := flushCount + 1;
      issued, program := issued + 1, program + [act];
    }

    /** A store fence enters the store buffer. */
    method AddOp()
      requires Valid()
      modifies this
      ensures Valid() && View() == Issue(old(View()), OpSfence, 0, [], 0)
    {
      var act := Action(issued, OpSfence, 0, [], 0, None, None);
      storeBuffer := storeBuffer + [act];
      issued, program := issued + 1, program + [act];
    }

    method AddWrite(loc: nat, bytes: seq<Byte>, isInit: bool)
      requires Valid()
      modifies this
      ensures Valid() && View() == Issue(old(View()), OpWrite(isInit), loc, bytes, 0)
    {
      var act := Action(issued, OpWrite(isInit), loc, bytes, 0, None, None);
      storeBuffer := storeBuffer + [act];
      objToLastWrite := objToLastWrite[CacheId(loc) := act.id];
      issued, program := issued + 1, program + [act];
    }

    /** The action takes the next sequence number. */
    method RemoveActionFromStoreBuffer(exec: ModelExecution, act: Action)
      modifies this`numbers, exec`usedSequenceNumbers
      ensures exec.usedSequenceNumbers == old(exec.usedSequenceNumbers) + 1
      ensures numbers == old(numbers)[act.id := exec.usedSequenceNumbers]
    {
      exec.usedSequenceNumbers := exec.usedSequenceNumbers + 1;
      numbers := numbers[act.id := exec.usedSequenceNumbers];
    }

    /** A flush takes effect; true if the execution crashes first. */
    method EvictCacheOp(exec: ModelExecution, cacheop: Action, checks: Checks) returns (crash: bool)
      requires Valid() && !exec.hasCrashed && cacheop.IsCacheOp() && cacheop.lastWrite != Some(cacheop.id)
      modifies this`numbers, exec
      ensures exec.Valid() == old(exec.Valid())
      ensures var c := Checked(old(CoreOf(exec)), checks);
              && crash == c.crashed
              && (crash ==> CoreOf(exec) == c && numbers == old(numbers))
              && (!crash ==> CoreOf(exec) == Flushed(old(View()), c, cacheop) && numbers == old(numbers)[cacheop.id := c.clock + 1])
    {
      ghost var t := View();
      crash := ShouldInsertCrash(exec, checks);
      if crash {
        return;
      }
      ghost var x := exec.Model();
      RemoveActionFromStoreBuffer(exec, cacheop);
      var cl := exec.GetCacheLine(cacheop.loc);
      var lastWriteNumber := if cacheop.lastWrite.Some? && cacheop.lastWrite.value in numbers then numbers[cacheop.lastWrite.value] else 0;
      PersistPointIs(t, cacheop, cl.begin, exec.usedSequenceNumbers);
      PersistCacheLine(exec, cacheop, exec.usedSequenceNumbers, lastWriteNumber);
      MapTwice(x.ranges, cacheop.Line(), cl, exec.Model().RangeOf(cacheop.Line()));
    }

    /** The oldest clflushopt of the flush buffer completes. */
    method DrainOne(exec: ModelExecution, checks: Checks) returns (crash: bool)
      requires Valid() && exec.Valid() && !exec.hasCrashed && flushBuffer != []
      modifies this, exec
      ensures Valid() && exec.Valid()
      ensures flushBuffer == old(flushBuffer)[1..]
      ensures var t := old(View());
              var c := Checked(old(CoreOf(exec)), checks);
              && crash == c.crashed
              && (crash ==> View() == t.(flushBuffer := t.flushBuffer[1..]) && CoreOf(exec) == c)
              && (!crash ==> View() == Drain(t, c.clock + 1) && CoreOf(exec) == Flushed(t, c, t.flushBuffer[0]))
    {
      var curr := flushBuffer[0];
      flushBuffer := flushBuffer[1..];
      crash := EvictCacheOp(exec, curr, checks);
      if !crash {
        flushCount := flushCount - 1;
        flushed := flushed + [curr];
      }
    }

    /** True if the execution crashes on the way. */
    method EmptyFlushBuffer(exec: ModelExecution, checks: Checks) returns (crash: bool)
      requires Valid() && exec.Valid() && !exec.hasCrashed
      modifies this, exec
      ensures Valid() && exec.Valid()
      ensures (View(), CoreOf(exec)) == DrainAll(old(View()), old(CoreOf(exec)), checks)
      ensures crash == exec.hasCrashed
    {
      hide Valid, ModelExecution.Valid, Checked, Flushed, Drain;
      while flushBuffer != []
        invariant Valid() && exec.Valid() && !exec.hasCrashed
        invariant DrainAll(View(), CoreOf(exec), checks) == DrainAll(old(View()), old(CoreOf(exec)), checks)
        decreases |flushBuffer|
      {
        ghost var t, core := View(), CoreOf(exec);
        crash := DrainOne(exec, checks);
        DrainAllStep(t, core, checks);
        if crash {
          return;
        }
      }
      crash := false;
    }

    method EvictWrite(exec: ModelExecution, write: Action)
      requires Valid() && exec.Valid()
      modifies this`numbers, exec
      ensures Valid() && exec.Valid()
      ensures CoreOf(exec) == Recorded(old(CoreOf(exec)), write) && exec.hasCrashed == old(exec.hasCrashed)
      ensures numbers == old(numbers)[write.id := old(exec.usedSequenceNumbers) + 1]
    {
      RemoveActionFromStoreBuffer(exec, write);
      var _ := exec.AddWriteToLists(Write(write.loc, write.bytes, exec.usedSequenceNumbers, write.IsInitialization()));
    }

    /** An action that left the store buffer takes effect; true if the execution crashes instead. */
    method EvictOpFromStoreBuffer(exec: ModelExecution, act: Action, checks: Checks) returns (crash: bool)
      requires Valid() && exec.Valid() && !exec.hasCrashed && act.lastWrite != Some(act.id)
      modifies this, exec
      ensures Valid() && exec.Valid()
      ensures (View(), CoreOf(exec)) == EvictOp(old(View()).(storeBuffer := [act] + old(storeBuffer)), old(CoreOf(exec)), checks)
      ensures crash == exec.hasCrashed
    {
      hide Drain, DrainAll, Recorded;
      assert ([act] + storeBuffer)[1..] == storeBuffer;
      match act.kind
      case OpWrite(_) =>
        EvictWrite(exec, act);
        crash := false;
      case OpSfence =>
        crash := EvictSfence(exec, act, checks);
      case OpClflush =>
        crash := EvictCacheOp(exec, act, checks);
        if !crash {
          flushCount := flushCount - 1;
          flushed := flushed + [act];
        }
      case OpClflushOpt =>
        EvictFlushOpt(act);
        crash := false;
    }

    /** A store fence first drains the flush buffer. */
    method EvictSfence(exec: ModelExecution, act: Action, checks: Checks) returns (crash: bool)
      requires Valid() && exec.Valid() && !exec.hasCrashed && act.kind == OpSfence
      modifies this, exec
      ensures Valid() && exec.Valid()
      ensures (View(), CoreOf(exec)) == EvictOp(old(View()).(storeBuffer := [act] + old(storeBuffer)), old(CoreOf(exec)), checks)
      ensures crash == exec.hasCrashed
    {
      hide Drain, Flushed, DrainAll;
      DrainAllAnyBuffer(View(), [act] + storeBuffer, CoreOf(exec), checks);
      crash := EmptyFlushBuffer(exec, checks);
      assert ([act] + storeBuffer)[1..] == storeBuffer;
      if crash {
        return;
      }
      lastSfence := Some(exec.usedSequenceNumbers + 1);
      RemoveActionFromStoreBuffer(exec, act);
    }

    method EvictFlushOpt(act: Action)
      requires Valid() && act.kind == OpClflushOpt && act.lastWrite != Some(act.id)
      modifies this`flushBuffer
      ensures Valid()
      ensures flushBuffer == old(flushBuffer) + [if lastSfence.Some? then act.(lastClflush := lastSfence) else act]
    {
      var flushed := act;
      if lastSfence.Some? {
        flushed := act.(lastClflush := lastSfence);
      }
      flushBuffer := flushBuffer + [flushed];
    }

    /** Evicts the oldest action, if there is one. */
    method PopFromStoreBuffer(exec: ModelExecution, checks: Checks) returns (crash: bool)
      requires Valid() && exec.Valid() && !exec.hasCrashed
      modifies this, exec
      ensures Valid() && exec.Valid()
      ensures (View(), CoreOf(exec)) ==
              if old(storeBuffer) == [] then (old(View()), old(CoreOf(exec))) else EvictOp(old(View()), old(CoreOf(exec)), checks)
      ensures crash == exec.hasCrashed
    {
      if |storeBuffer| > 0 {
        var head := storeBuffer[0];
        storeBuffer := storeBuffer[1..];
        assert [head] + storeBuffer == old(storeBuffer);
        crash := EvictOpFromStoreBuffer(exec, head, checks);
      } else {
        crash := false;
      }
    }

    /** True if the execution crashes on the way. */
    method EmptyStoreBuffer(exec: ModelExecution, checks: Checks) returns (crash: bool)
      requires Valid() && exec.Valid() && !exec.hasCrashed
      modifies this, exec
      ensures Valid() && exec.Valid()
      ensures (View(), CoreOf(exec)) == EvictFirst(old(View()), old(CoreOf(exec)), |old(storeBuffer)|, checks)
      ensures crash == exec.hasCrashed && (!crash ==> storeBuffer == [])
    {
      hide Valid, ModelExecution.Valid, EvictOp;
      crash := false;
      while |storeBuffer| > 0
        invariant Valid() && exec.Valid() && !exec.hasCrashed && !crash
        invariant EvictFirst(View(), CoreOf(exec), |storeBuffer|, checks) ==
                  EvictFirst(old(View()), old(CoreOf(exec)), |old(storeBuffer)|, checks)
        decreases |storeBuffer|
      {
        crash := PopFromStoreBuffer(exec, checks);
        if crash {
          return;
        }
      }
    }

    /** Evicts everything up to the newest store to `address`; true if there was one and no crash came first. */
    method EmptyWrites(exec: ModelExecution, address: nat, checks: Checks) returns (didFlush: bool)
      requires Valid() && exec.Valid() && !exec.hasCrashed
      modifies this, exec
      ensures Valid() && exec.Valid()
      ensures (View(), CoreOf(exec)) == EvictFirst(old(View()), old(CoreOf(exec)), UpToNewest(old(storeBuffer), address), checks)
      ensures didFlush <==> (exists i :: 0 <= i < |old(storeBuffer)| && Stores(old(storeBuffer)[i], address)) && !exec.hasCrashed
      ensures didFlush ==> forall i :: 0 <= i < |storeBuffer| ==> !Stores(storeBuffer[i], address)
      ensures didFlush ==> storeBuffer == old(storeBuffer)[UpToNewest(old(storeBuffer), address)..]
    {
      hide Valid, ModelExecution.Valid, EvictOp;
      var rit := |storeBuffer|;
      assert storeBuffer[..rit] == storeBuffer;
      while rit > 0
        invariant rit <= |storeBuffer| && UpToNewest(storeBuffer[..rit], address) == UpToNewest(storeBuffer, address)
      {
        var curr := storeBuffer[rit - 1];
        if Stores(curr, address) {
          break;
        }
        assert storeBuffer[..rit][..rit - 1] == storeBuffer[..rit - 1];
        rit := rit - 1;
      }
      if rit == 0 {
        return false;
      }
      while rit > 0
        invariant Valid() && exec.Valid() && !exec.hasCrashed && rit <= |storeBuffer|
        invariant EvictFirst(View(), CoreOf(exec), rit, checks) ==
                  EvictFirst(old(View()), old(CoreOf(exec)), UpToNewest(old(storeBuffer), address), checks)
      {
        var crash := PopFromStoreBuffer(exec, checks);
        if crash {
          return false;
        }
        rit := rit - 1;
      }
      return true;
    }

    predicate HasPendingFlushes()
      reads this
    {
      flushCount != 0
    }

    /** The crash takes what was still buffered. */
    method FreeActions()
      requires Valid()
      modifies this`storeBuffer, this`flushBuffer, this`flushCount
      ensures Valid() && storeBuffer == [] && flushBuffer == [] && !HasPendingFlushes()
    {
      storeBuffer, flushBuffer := [], [];
      flushCount := 0;
    }

    /** Fills the slots of a load from the thread's own stores, newest first; true once none is open. */
    method GetLastWriteFromStoreBuffer(e: nat, vec: Slots, numslotsleft: nat, rbot: nat) returns (writes: Slots, left: nat, done: bool)
      requires numslotsleft == OpenSlots(vec) > 0
      ensures writes == FillUpTo(vec, e, Buffered(storeBuffer), 0, rbot)
      ensures left == OpenSlots(writes) && (done <==> left == 0)
    {
      writes, left, done := vec, numslotsleft, false;
      var rit := |storeBuffer|;
      assert storeBuffer[rit..] == [];
      while rit > 0
        invariant 0 <= rit <= |storeBuffer|
        invariant writes == FillUpTo(vec, e, Buffered(storeBuffer[rit..]), 0, rbot)
        invariant left == OpenSlots(writes) && !done && left > 0
      {
        rit := rit - 1;
        var write := storeBuffer[rit];
        BufferedFrom(storeBuffer, rit);
        if write.kind.OpWrite? {
          var w := Write(write.loc, write.bytes, 0, write.IsInitialization());
          FillHead(vec, e, w, Buffered(storeBuffer[rit + 1..]), rbot);
          writes, left, done := CheckOverlap(e, writes, w, left, rbot);
          if done {
            BufferedSplit(storeBuffer, rit);
            FillDone(vec, e, Buffered(storeBuffer), |Buffered(storeBuffer[..rit])|, 0, rbot);
            return;
          }
        }
      }
      assert storeBuffer[0..] == storeBuffer;
    }
  }

  /** A store that covers the address. */
  predicate Stores(a: Action, address: nat)
  {
    a.kind.OpWrite? && a.loc <= address < a.loc + |a.bytes|
  }

  /** How many actions of the store buffer to evict so that the newest store to `address` is out. */
  ghost function UpToNewest(actions: seq<Action>, address: nat): (n: nat)
    ensures n <= |actions| && (n > 0 ==> Stores(actions[n - 1], address))
    ensures forall i :: n <= i < |actions| ==> !Stores(actions[i], address)
  {
    if actions == [] then 0
    else
      var last := actions[|actions| - 1];
      if Stores(last, address) then |actions|
      else UpToNewest(actions[..|actions| - 1], address)
  }

  lemma DrainAllStep(t: Thread, core: Core, checks: Checks)
    requires t.flushBuffer != []
    ensures var c := Checked(core, checks);
            DrainAll(t, core, checks) ==
            if c.crashed then (t.(flushBuffer := t.flushBuffer[1..]), c)
            else DrainAll(Drain(t, c.clock + 1), Flushed(t, c, t.flushBuffer[0]), checks)
  {
  }

  /** The store buffer plays no part in draining. */
  lemma {:induction false} DrainAllAnyBuffer(t: Thread, actions: seq<Action>, core: Core, checks: Checks)
    ensures var r := DrainAll(t, core, checks);
            DrainAll(t.(storeBuffer := actions), core, checks) == (r.0.(storeBuffer := actions), r.1)
    decreases |t.flushBuffer|
  {
    if t.flushBuffer != [] {
      hide Checked;
      var c := Checked(core, checks);
      if !c.crashed {
        var u := Drain(t, c.clock + 1);
        DrainAllAnyBuffer(u, actions, Flushed(t, c, t.flushBuffer[0]), checks);
        assert Drain(t.(storeBuffer := actions), c.clock + 1) == u.(storeBuffer := actions);
        assert Flushed(t.(storeBuffer := actions), c, t.flushBuffer[0]) == Flushed(t, c, t.flushBuffer[0]);
      }
    }
  }

  lemma {:induction false} BufferedConcat(a: seq<Action>, b: seq<Action>)
    ensures Buffered(a + b) == Buffered(a) + Buffered(b)
  {
    if b == [] {
      assert a + b == a;
    } else {
      var n := |b| - 1;
      BufferedConcat(a, b[..n]);
      assert (a + b)[..|a| + n] == a + b[..n];
    }
  }

  lemma BufferedSplit(actions: seq<Action>, i: nat)
    requires i <= |actions|
    ensures Buffered(actions) == Buffered(actions[..i]) + Buffered(actions[i..])
    ensures Buffered(actions)[|Buffered(actions[..i])|..] == Buffered(actions[i..])
  {
    assert actions == actions[..i] + actions[i..];
    BufferedConcat(actions[..i], actions[i..]);
  }

  lemma BufferedFrom(actions: seq<Action>, i: nat)
    requires i < |actions|
    ensures var rest := Buffered(actions[i + 1..]);
            Buffered(actions[i..]) ==
            if actions[i].kind.OpWrite? then [Write(actions[i].loc, actions[i].bytes, 0, actions[i].IsInitialization())] + rest else rest
  {
    assert actions[i..] == [actions[i]] + actions[i + 1..];
    BufferedConcat([actions[i]], actions[i + 1..]);
    assert [actions[i]][..0] == [];
  }

  lemma FillHead(vec: Slots, e: nat, w: Write, rest: seq<Write>, rbot: nat)
    requires w.clock == 0
    ensures FillUpTo(vec, e, [w] + rest, 0, rbot) == FillOne(FillUpTo(vec, e, rest, 0, rbot), e, w, rbot)
  {
    var all := [w] + rest;
    FillStep(vec, e, all, 0, 0, rbot);
    assert all[0..] == all && all[1..] == rest;
  }
}
