/**
 Where the checker crashes. It considers a crash only just before a cache operation takes
 effect and at the end of the program, and skips the check if no store has been recorded
 since the last one. Nothing that a crash at any other point could show is lost.
 */
module CrashPoints {
  import opened Memory
  import opened Column
  import opened Enumeration
  import opened StoreList
  import opened Engine
  import opened EngineInvariant
  import opened LazyEager
  import opened ByteMachine

  // ----- Runs from a given machine -----

  ghost function StateFrom(m: Machine, run: seq<ByteEvent>, choice: Choice): Machine
  {
    if run == [] then m
    else MachineNext(StateFrom(m, run[..|run| - 1], choice), run[|run| - 1], choice)
  }

  ghost predicate ValidFrom(m: Machine, run: seq<ByteEvent>, choice: Choice)
  {
    run == [] ||
    var n := |run| - 1;
    ValidFrom(m, run[..n], choice) && WellFormed(run[n]) && MachineCan(StateFrom(m, run[..n], choice), run[n], choice)
  }

  lemma {:induction false} FromConcat(raw: nat -> Byte, a: seq<ByteEvent>, b: seq<ByteEvent>, choice: Choice)
    ensures MachineState(raw, a + b, choice) == StateFrom(MachineState(raw, a, choice), b, choice)
    ensures MachineValid(raw, a + b, choice) <==> MachineValid(raw, a, choice) && ValidFrom(MachineState(raw, a, choice), b, choice)
  {
    if b == [] {
      assert a + b == a;
    } else {
      var n := |b| - 1;
      FromConcat(raw, a, b[..n], choice);
      assert (a + b)[..|a| + n] == a + b[..n];
      assert (a + b)[|a| + n] == b[n];
    }
  }

  /** Machines that differ at most in how the image is written down. */
  ghost predicate Alike(m: Machine, n: Machine)
  {
    && n == m.(image := n.image)
    && forall a: nat :: Peek(m.image, a) == Peek(n.image, a)
  }

  ghost predicate SamePicks(choice: Choice, other: Choice, first: nat, end: nat)
  {
    forall e: nat, line: nat :: first <= e < end ==> Pick(choice, e, line) == Pick(other, e, line)
  }

  lemma AlikeBytes(m: Machine, n: Machine, a: nat, p: nat)
    requires Alike(m, n)
    ensures m.ByteAt(a, p) == n.ByteAt(a, p)
  {
    assert Peek(m.image, a) == Peek(n.image, a);
  }

  lemma AlikeStep(m: Machine, n: Machine, ev: ByteEvent, choice: Choice, other: Choice)
    requires Alike(m, n) && (ev.Crash? ==> SamePicks(choice, other, m.crashes, m.crashes + 1))
    ensures MachineCan(m, ev, choice) <==> MachineCan(n, ev, other)
    ensures Alike(MachineNext(m, ev, choice), MachineNext(n, ev, other))
  {
    match ev
    case Load(loc, size, buffer, result) =>
      AlikeReads(m, n, buffer, loc, size);
    case Crash =>
      AlikeCrash(m, n, choice, other);
    case _ =>
  }

  lemma AlikeReads(m: Machine, n: Machine, buffer: seq<Write>, loc: nat, size: nat)
    requires Alike(m, n)
    ensures m.ReadAll(buffer, loc, size) == n.ReadAll(buffer, loc, size)
  {
    forall i | 0 <= i < size
      ensures m.ReadAll(buffer, loc, size)[i] == n.ReadAll(buffer, loc, size)[i]
    {
      AlikeBytes(m, n, loc + i, m.clock);
    }
  }

  lemma AlikeCrash(m: Machine, n: Machine, choice: Choice, other: Choice)
    requires Alike(m, n) && SamePicks(choice, other, m.crashes, m.crashes + 1)
    ensures BeginsReached(m, choice) <==> BeginsReached(n, other)
    ensures Alike(MachineNext(m, Crash, choice), MachineNext(n, Crash, other))
  {
    assert forall line: nat :: Pick(choice, m.crashes, line) == Pick(other, m.crashes, line);
    assert forall line: nat :: m.Begin(line) == n.Begin(line);
    var u, v := MachineNext(m, Crash, choice), MachineNext(n, Crash, other);
    forall a: nat
      ensures Peek(u.image, a) == Peek(v.image, a)
    {
      CrashByteAt(m, choice, a);
      CrashByteAt(n, other, a);
      AlikeBytes(m, n, a, Pick(choice, m.crashes, CacheId(a)));
    }
  }

  lemma CrashByteAt(m: Machine, choice: Choice, a: nat)
    ensures Peek(MachineNext(m, Crash, choice).image, a) == m.ByteAt(a, Pick(choice, m.crashes, CacheId(a)))
  {
  }

  lemma {:induction false} CrashesGrow(m: Machine, run: seq<ByteEvent>, choice: Choice)
    ensures m.crashes <= StateFrom(m, run, choice).crashes
  {
    if run != [] {
      CrashesGrow(m, run[..|run| - 1], choice);
    }
  }

  /** The same run from alike machines, with the same points at the crashes it goes through. */
  lemma {:induction false} AlikeRun(m: Machine, n: Machine, run: seq<ByteEvent>, choice: Choice, other: Choice)
    requires Alike(m, n) && SamePicks(choice, other, m.crashes, StateFrom(m, run, choice).crashes)
    ensures ValidFrom(m, run, choice) <==> ValidFrom(n, run, other)
    ensures Alike(StateFrom(m, run, choice), StateFrom(n, run, other))
  {
    if run != [] {
      hide Alike, MachineCan;
      var k := |run| - 1;
      var before := StateFrom(m, run[..k], choice);
      CrashesGrow(m, run[..k], choice);
      assert before.crashes <= StateFrom(m, run, choice).crashes;
      AlikeRun(m, n, run[..k], choice, other);
      AlikeStep(before, StateFrom(n, run[..k], other), run[k], choice, other);
    }
  }

  // ----- Redundant stores -----

  lemma NextErased(raw: nat -> Byte, s: State, ev: Event<Slots>)
    ensures Next(raw, s, EraseEvent(ev)) == Next(raw, s, ev)
  {
  }

  lemma {:induction false} ErasedState(raw: nat -> Byte, evs: seq<Event<Slots>>)
    ensures StateAfter(raw, Erase(evs)) == StateAfter(raw, evs)
  {
    if evs != [] {
      hide Next;
      var n := |evs| - 1;
      ErasePrefix(evs);
      ErasedState(raw, evs[..n]);
      NextErased(raw, StateAfter(raw, evs[..n]), evs[n]);
    }
  }

  lemma RunAgrees(raw: nat -> Byte, run: seq<ByteEvent>, choice: Choice)
    requires MachineValid(raw, run, choice)
    ensures Inv(raw, StateAfter(raw, run)) && Agree(raw, StateAfter(raw, run), MachineState(raw, run, choice), choice)
  {
    var evs := MachineIsEager(raw, run, choice);
    EagerIsMachine(raw, evs, choice);
    ErasedState(raw, evs);
  }

  /** add_write_to_lists drops the store. */
  ghost predicate Redundant(raw: nat -> Byte, s: State, ev: ByteEvent)
  {
    ev.Store? &&
    Subsumed(EnsureInitialValue(raw, s, ev.loc).cur.StoresOf(AlignAddress(ev.loc)), Write(ev.loc, ev.bytes, s.clock + 1, ev.isInit))
  }

  /** The two machines hold the same bytes at every point of every line. */
  ghost predicate SameBytesAt(m: Machine, n: Machine)
  {
    forall a: nat, p: nat :: m.ByteAt(a, p) == n.ByteAt(a, p)
  }

  lemma RedundantInvisible(raw: nat -> Byte, s: State, m: Machine, choice: Choice, ev: ByteEvent)
    requires Inv(raw, s) && Agree(raw, s, m, choice) && WellFormed(ev) && Redundant(raw, s, ev)
    ensures SameBytesAt(m, MachineNext(m, ev, choice))
  {
    hide Inv, AgreeOn, Subsumed;
    var t := EnsureInitialValue(raw, s, ev.loc);
    var n := MachineNext(m, ev, choice);
    EnsureInv(raw, s, ev.loc);
    EnsureAgrees(raw, s, m, choice, ev.loc);
    var u := CommitStore(raw, s, ev.loc, ev.bytes, ev.isInit);
    CommitAgrees(raw, s, m, choice, ev.loc, ev.bytes, ev.isInit);
    assert u.cur.StoresOf(AlignAddress(ev.loc)) == t.cur.StoresOf(AlignAddress(ev.loc));
    forall a: nat, p: nat
      ensures m.ByteAt(a, p) == n.ByteAt(a, p)
    {
      SameListSameByte(raw, t, m, u, n, choice, a, p);
    }
  }

  lemma SameListSameByte(raw: nat -> Byte, s: State, m: Machine, t: State, n: Machine, choice: Choice, a: nat, p: nat)
    requires AgreeOn(raw, s, m, choice, a) && AgreeOn(raw, t, n, choice, a)
    requires s.past == t.past && m.image == n.image
    requires s.cur.StoresOf(AlignAddress(a)) == t.cur.StoresOf(AlignAddress(a))
    ensures m.ByteAt(a, p) == n.ByteAt(a, p)
  {
    var stores := s.cur.StoresOf(AlignAddress(a));
    if s.past == [] {
      assert ByteUpTo(stores, a, p).GetOr(Peek(raw, a)) == ByteUpTo(m.history, a, p).GetOr(Peek(raw, a));
      assert ByteUpTo(stores, a, p).GetOr(Peek(raw, a)) == ByteUpTo(n.history, a, p).GetOr(Peek(raw, a));
    } else {
      assert ByteUpTo(stores, a, p) == ByteUpTo(m.history, a, p);
      assert ByteUpTo(stores, a, p) == ByteUpTo(n.history, a, p);
    }
  }

  // ----- One execution -----

  /** No crash happens and every write-back moves the start of its line's interval forward, at most to its own number. */
  ghost predicate Orderly(m: Machine, ev: ByteEvent)
  {
    !ev.Crash? && (ev.WriteBack? ==> m.Begin(ev.line) <= ev.begin <= m.clock + 1)
  }

  ghost predicate OrderlyFrom(m: Machine, run: seq<ByteEvent>, choice: Choice)
  {
    forall i: nat :: i < |run| ==> Orderly(StateFrom(m, run[..i], choice), run[i])
  }

  ghost predicate Bounded(m: Machine)
  {
    HistoryUpTo(m) && forall line: nat :: m.Begin(line) <= m.clock
  }

  lemma BoundedStep(m: Machine, ev: ByteEvent, choice: Choice)
    requires Bounded(m) && Orderly(m, ev)
    ensures Bounded(MachineNext(m, ev, choice))
  {
    var n := MachineNext(m, ev, choice);
    forall line: nat
      ensures n.Begin(line) <= n.clock
    {
      assert m.Begin(line) <= m.clock;
    }
  }

  lemma PrefixStep(m: Machine, run: seq<ByteEvent>, i: nat, choice: Choice)
    requires i < |run|
    ensures StateFrom(m, run[..i + 1], choice) == MachineNext(StateFrom(m, run[..i], choice), run[i], choice)
    ensures ValidFrom(m, run[..i + 1], choice) <==>
            ValidFrom(m, run[..i], choice) && WellFormed(run[i]) && MachineCan(StateFrom(m, run[..i], choice), run[i], choice)
  {
    assert run[..i + 1][..i] == run[..i];
  }

  lemma {:induction false} BoundedRun(m: Machine, run: seq<ByteEvent>, i: nat, choice: Choice)
    requires Bounded(m) && OrderlyFrom(m, run, choice) && i <= |run|
    ensures Bounded(StateFrom(m, run[..i], choice))
  {
    if i > 0 {
      BoundedRun(m, run, i - 1, choice);
      PrefixStep(m, run, i - 1, choice);
      BoundedStep(StateFrom(m, run[..i - 1], choice), run[i - 1], choice);
    }
  }

  // ----- From any point forward to the next point the checker looks at -----

  /** `n` comes after `m` in the same execution and shows every write-back point up to `q` the same bytes. */
  ghost predicate Forward(m: Machine, n: Machine, q: nat)
  {
    && m.crashes == n.crashes && m.clock <= n.clock
    && (forall line: nat :: m.Begin(line) == n.Begin(line))
    && forall a: nat, p: nat :: p <= q ==> m.ByteAt(a, p) == n.ByteAt(a, p)
  }

  lemma ForwardStep(m: Machine, ev: ByteEvent, choice: Choice, q: nat)
    requires !ev.Crash? && !ev.WriteBack? && q <= m.clock
    ensures Forward(m, MachineNext(m, ev, choice), q)
  {
    var n := MachineNext(m, ev, choice);
    forall a: nat, p: nat | p <= q
      ensures m.ByteAt(a, p) == n.ByteAt(a, p)
    {
      if ev.Store? {
        LastCoveringAppend(m.history, Write(ev.loc, ev.bytes, m.clock + 1, ev.isInit), a, p);
      }
    }
  }

  lemma ForwardForward(m: Machine, n: Machine, o: Machine, q: nat)
    requires Forward(m, n, q) && Forward(n, o, q)
    ensures Forward(m, o, q)
  {
  }

  /** The next cache operation, or the end of the execution. */
  lemma {:induction false} NextPoint(m: Machine, run: seq<ByteEvent>, k: nat, choice: Choice) returns (next: nat)
    requires k <= |run| && OrderlyFrom(m, run, choice)
    ensures k <= next <= |run| && (next < |run| ==> run[next].WriteBack?)
    ensures Forward(StateFrom(m, run[..k], choice), StateFrom(m, run[..next], choice), StateFrom(m, run[..k], choice).clock)
    decreases |run| - k
  {
    next := k;
    if k < |run| && !run[k].WriteBack? {
      var here := StateFrom(m, run[..k], choice);
      assert Orderly(here, run[k]);
      next := NextPoint(m, run, k + 1, choice);
      PrefixStep(m, run, k, choice);
      hide StateFrom;
      ForwardStep(here, run[k], choice, here.clock);
      ForwardLess(StateFrom(m, run[..k + 1], choice), StateFrom(m, run[..next], choice), here.clock);
      ForwardForward(here, StateFrom(m, run[..k + 1], choice), StateFrom(m, run[..next], choice), here.clock);
    }
  }

  lemma ForwardLess(m: Machine, n: Machine, q: nat)
    requires Forward(m, n, m.clock) && q <= m.clock
    ensures Forward(m, n, q)
  {
  }

  // ----- From a skipped check back to the last one made -----

  /** The value of hasNoWriteSinceCrashCheck once `run` has followed `pre`, with no checks before number `first`. */
  ghost predicate NoWriteSinceCheck(raw: nat -> Byte, pre: seq<ByteEvent>, run: seq<ByteEvent>, first: nat)
  {
    run != [] &&
    var n := |run| - 1;
    var before := NoWriteSinceCheck(raw, pre, run[..n], first);
    var s := StateAfter(raw, pre + run[..n]);
    match run[n]
    case WriteBack(_, _) => before || first <= s.clock
    case Store(_, _, _) => before && Redundant(raw, s, run[n])
    case _ => before
  }

  /** The checker considers a crash after the first `j` events of the execution. */
  ghost predicate ChecksAt(raw: nat -> Byte, pre: seq<ByteEvent>, run: seq<ByteEvent>, j: nat, first: nat)
  {
    && j <= |run| && (j < |run| ==> run[j].WriteBack?)
    && !NoWriteSinceCheck(raw, pre, run[..j], first)
    && first <= StateAfter(raw, pre + run[..j]).clock
  }

  ghost predicate OnlyRedundant(raw: nat -> Byte, pre: seq<ByteEvent>, run: seq<ByteEvent>, j: nat, k: nat)
  {
    forall i: nat :: j <= i < k && i < |run| && run[i].Store? ==> Redundant(raw, StateAfter(raw, pre + run[..i]), run[i])
  }

  lemma {:induction false} LastCheck(raw: nat -> Byte, pre: seq<ByteEvent>, run: seq<ByteEvent>, k: nat, first: nat) returns (j: nat)
    requires k <= |run| && NoWriteSinceCheck(raw, pre, run[..k], first)
    ensures j < k && ChecksAt(raw, pre, run, j, first) && OnlyRedundant(raw, pre, run, j, k)
  {
    hide Redundant, StateAfter;
    j := k - 1;
    assert run[..k][..j] == run[..j];
    if NoWriteSinceCheck(raw, pre, run[..j], first) {
      j := LastCheck(raw, pre, run, j, first);
    }
  }

  /** Nothing a crash at `n` can leave behind is beyond a crash at `m`. */
  ghost predicate Covers(m: Machine, n: Machine)
  {
    && m.crashes == n.crashes && SameBytesAt(m, n)
    && forall line: nat :: m.Begin(line) <= n.Begin(line)
  }

  lemma CoversStep(raw: nat -> Byte, s: State, m: Machine, ev: ByteEvent, choice: Choice)
    requires Inv(raw, s) && Agree(raw, s, m, choice) && WellFormed(ev) && Orderly(m, ev)
    requires ev.Store? ==> Redundant(raw, s, ev)
    ensures Covers(m, MachineNext(m, ev, choice))
  {
    if ev.Store? {
      RedundantInvisible(raw, s, m, choice, ev);
    }
  }

  lemma CoversCovers(m: Machine, n: Machine, o: Machine)
    requires Covers(m, n) && Covers(n, o)
    ensures Covers(m, o)
  {
    forall a: nat, p: nat
      ensures m.ByteAt(a, p) == o.ByteAt(a, p)
    {
      assert m.ByteAt(a, p) == n.ByteAt(a, p);
    }
  }

  lemma CoversSelf(m: Machine)
    ensures Covers(m, m)
  {
  }

  lemma {:induction false} CoversRun(raw: nat -> Byte, pre: seq<ByteEvent>, run: seq<ByteEvent>, j: nat, k: nat, choice: Choice)
    requires j <= k <= |run| && MachineValid(raw, pre, choice)
    requires ValidFrom(MachineState(raw, pre, choice), run[..k], choice) && OrderlyFrom(MachineState(raw, pre, choice), run, choice)
    requires OnlyRedundant(raw, pre, run, j, k)
    ensures var m := MachineState(raw, pre, choice);
            Covers(StateFrom(m, run[..j], choice), StateFrom(m, run[..k], choice))
  {
    hide Covers, Inv, Agree, Redundant;
    var m := MachineState(raw, pre, choice);
    if j == k {
      CoversSelf(StateFrom(m, run[..j], choice));
    } else {
      var i := k - 1;
      PrefixStep(m, run, i, choice);
      CoversRun(raw, pre, run, j, i, choice);
      FromConcat(raw, pre, run[..i], choice);
      RunAgrees(raw, pre + run[..i], choice);
      CoversStep(raw, StateAfter(raw, pre + run[..i]), StateFrom(m, run[..i], choice), run[i], choice);
      CoversCovers(StateFrom(m, run[..j], choice), StateFrom(m, run[..i], choice), StateFrom(m, run[..k], choice));
    }
  }

  // ----- The crash itself -----

  /** `choice`, but with the points of crash `n` cut off at `q`. */
  ghost function CutOff(choice: Choice, n: nat, q: nat): (r: Choice)
    ensures forall e: nat, line: nat ::
              Pick(r, e, line) == if e == n && q < Pick(choice, e, line) then q else Pick(choice, e, line)
  {
    (e, line) => if e == n && q < Pick(choice, e, line) then q else Pick(choice, e, line)
  }

  lemma LateByte(m: Machine, a: nat, p: nat)
    requires HistoryUpTo(m) && m.clock <= p
    ensures m.ByteAt(a, p) == m.ByteAt(a, m.clock)
  {
    LastCoveringBetween(m.history, a, p, m.clock);
  }

  /** A crash at `m` leaves what a crash at `c` can leave too, where `c` covers a later point of the same execution. */
  lemma CrashCovered(m: Machine, n: Machine, c: Machine, choice: Choice)
    requires Bounded(m) && Forward(m, n, m.clock) && Covers(c, n)
    requires BeginsReached(m, choice)
    ensures var other := CutOff(choice, m.crashes, m.clock);
            BeginsReached(c, other) && SameCrash(m, choice, c, other)
  {
    var other := CutOff(choice, m.crashes, m.clock);
    forall line: nat
      ensures c.Begin(line) <= Pick(other, c.crashes, line)
    {
      assert c.Begin(line) <= n.Begin(line) && n.Begin(line) == m.Begin(line) <= m.clock;
    }
    forall a: nat
      ensures m.ByteAt(a, Pick(choice, m.crashes, CacheId(a))) == c.ByteAt(a, Pick(other, c.crashes, CacheId(a)))
    {
      var p, q := Pick(choice, m.crashes, CacheId(a)), Pick(other, c.crashes, CacheId(a));
      if m.clock < p {
        LateByte(m, a, p);
      }
      assert m.ByteAt(a, q) == n.ByteAt(a, q) == c.ByteAt(a, q);
    }
  }

  ghost predicate SameCrash(m: Machine, choice: Choice, c: Machine, other: Choice)
  {
    && m.crashes == c.crashes
    && forall a: nat :: m.ByteAt(a, Pick(choice, m.crashes, CacheId(a))) == c.ByteAt(a, Pick(other, c.crashes, CacheId(a)))
  }

  lemma SameCrashAlike(m: Machine, choice: Choice, c: Machine, other: Choice)
    requires SameCrash(m, choice, c, other)
    ensures Alike(MachineNext(m, Crash, choice), MachineNext(c, Crash, other))
  {
    var u, v := MachineNext(m, Crash, choice), MachineNext(c, Crash, other);
    forall a: nat
      ensures Peek(u.image, a) == Peek(v.image, a)
    {
      CrashByteAt(m, choice, a);
      CrashByteAt(c, other, a);
    }
  }

  lemma AlikeAlike(m: Machine, n: Machine, o: Machine)
    requires Alike(m, n) && Alike(n, o)
    ensures Alike(m, o)
  {
    forall a: nat
      ensures Peek(m.image, a) == Peek(o.image, a)
    {
      assert Peek(m.image, a) == Peek(n.image, a);
    }
  }

  lemma {:induction false} SameCrashes(m: Machine, run: seq<ByteEvent>, i: nat, choice: Choice)
    requires OrderlyFrom(m, run, choice) && i <= |run|
    ensures StateFrom(m, run[..i], choice).crashes == m.crashes
  {
    if i > 0 {
      SameCrashes(m, run, i - 1, choice);
      PrefixStep(m, run, i - 1, choice);
    }
  }

  /** Different points at later crashes do not change a run. */
  lemma SameUpTo(raw: nat -> Byte, run: seq<ByteEvent>, choice: Choice, other: Choice)
    requires MachineValid(raw, run, choice)
    requires SamePicks(choice, other, 0, MachineState(raw, run, choice).crashes)
    ensures MachineValid(raw, run, other) && Alike(MachineState(raw, run, choice), MachineState(raw, run, other))
  {
    FromConcat(raw, [], run, choice);
    FromConcat(raw, [], run, other);
    assert [] + run == run;
    AlikeRun(PowerOn(raw), PowerOn(raw), run, choice, other);
  }

  /** Crash and carry on. */
  lemma ThroughCrash(raw: nat -> Byte, run: seq<ByteEvent>, post: seq<ByteEvent>, choice: Choice)
    ensures var m := MachineState(raw, run, choice);
            MachineValid(raw, run + [Crash] + post, choice) <==>
            && MachineValid(raw, run, choice) && BeginsReached(m, choice)
            && ValidFrom(MachineNext(m, Crash, choice), post, choice)
  {
    FromConcat(raw, run + [Crash], post, choice);
    assert (run + [Crash])[..|run|] == run;
  }

  /** A crash at a point that is covered elsewhere can be moved there, whatever follows. */
  lemma MoveCrash(raw: nat -> Byte, run: seq<ByteEvent>, there: seq<ByteEvent>, post: seq<ByteEvent>, choice: Choice, other: Choice)
    requires MachineValid(raw, run + [Crash] + post, choice) && MachineValid(raw, there, choice)
    requires var m, c := MachineState(raw, run, choice), MachineState(raw, there, choice);
             && SameCrash(m, choice, c, other) && BeginsReached(c, other)
             && other == CutOff(choice, m.crashes, m.clock)
    ensures MachineValid(raw, there + [Crash] + post, other)
  {
    hide MachineNext, Alike, BeginsReached, SameCrash;
    var m, c := MachineState(raw, run, choice), MachineState(raw, there, choice);
    var d := MachineState(raw, there, other);
    ThroughCrash(raw, run, post, choice);
    SameCrashNumber(m, choice, c, other);
    SameUpTo(raw, there, choice, other);
    AlikeStep(c, d, Crash, other, other);
    CanCrash(c, other);
    CanCrash(d, other);
    SameCrashAlike(m, choice, c, other);
    var u, v := MachineNext(m, Crash, choice), MachineNext(d, Crash, other);
    AlikeAlike(u, MachineNext(c, Crash, other), v);
    AfterCrash(m, choice);
    AlikeRun(u, v, post, choice, other);
    ThroughCrash(raw, there, post, other);
  }

  lemma SameCrashNumber(m: Machine, choice: Choice, c: Machine, other: Choice)
    requires SameCrash(m, choice, c, other)
    ensures m.crashes == c.crashes
  {
  }

  lemma CanCrash(m: Machine, choice: Choice)
    ensures MachineCan(m, Crash, choice) <==> BeginsReached(m, choice)
  {
  }

  lemma AfterCrash(m: Machine, choice: Choice)
    ensures MachineNext(m, Crash, choice).crashes == m.crashes + 1
  {
  }

  ghost predicate StartsExecution(pre: seq<ByteEvent>)
  {
    pre == [] || pre[|pre| - 1] == Crash
  }

  lemma StartBounded(raw: nat -> Byte, pre: seq<ByteEvent>, choice: Choice)
    requires StartsExecution(pre)
    ensures Bounded(MachineState(raw, pre, choice))
  {
  }

  lemma {:induction false} ValidPrefix(m: Machine, run: seq<ByteEvent>, i: nat, choice: Choice)
    requires ValidFrom(m, run, choice) && i <= |run|
    ensures ValidFrom(m, run[..i], choice)
    decreases |run|
  {
    if i < |run| {
      ValidPrefix(m, run[..|run| - 1], i, choice);
      assert run[..|run| - 1][..i] == run[..i];
    } else {
      assert run[..i] == run;
    }
  }

  lemma ClockOf(raw: nat -> Byte, pre: seq<ByteEvent>, run: seq<ByteEvent>, i: nat, choice: Choice)
    requires i <= |run| && MachineValid(raw, pre, choice) && ValidFrom(MachineState(raw, pre, choice), run, choice)
    ensures StateAfter(raw, pre + run[..i]).clock == StateFrom(MachineState(raw, pre, choice), run[..i], choice).clock
  {
    hide Inv, AgreeOn;
    ValidPrefix(MachineState(raw, pre, choice), run, i, choice);
    FromConcat(raw, pre, run[..i], choice);
    RunAgrees(raw, pre + run[..i], choice);
  }

  lemma ForwardClock(m: Machine, n: Machine, q: nat)
    requires Forward(m, n, q)
    ensures m.clock <= n.clock
  {
  }

  /** The check made at the next point, or the last one made if that is skipped. */
  lemma CheckCovering(raw: nat -> Byte, pre: seq<ByteEvent>, run: seq<ByteEvent>, k: nat, next: nat, choice: Choice, first: nat)
    returns (j: nat)
    requires MachineValid(raw, pre, choice) && ValidFrom(MachineState(raw, pre, choice), run, choice)
    requires OrderlyFrom(MachineState(raw, pre, choice), run, choice)
    requires k <= next <= |run| && (next < |run| ==> run[next].WriteBack?)
    requires var m := MachineState(raw, pre, choice);
             Forward(StateFrom(m, run[..k], choice), StateFrom(m, run[..next], choice), StateFrom(m, run[..k], choice).clock)
    requires first <= StateAfter(raw, pre + run[..k]).clock
    ensures ChecksAt(raw, pre, run, j, first)
    ensures var m := MachineState(raw, pre, choice);
            Covers(StateFrom(m, run[..j], choice), StateFrom(m, run[..next], choice))
  {
    hide Covers, Forward, OrderlyFrom, Redundant, MachineValid, NoWriteSinceCheck;
    var m := MachineState(raw, pre, choice);
    ClockOf(raw, pre, run, k, choice);
    ClockOf(raw, pre, run, next, choice);
    ForwardClock(StateFrom(m, run[..k], choice), StateFrom(m, run[..next], choice), StateFrom(m, run[..k], choice).clock);
    if NoWriteSinceCheck(raw, pre, run[..next], first) {
      j := LastCheck(raw, pre, run, next, first);
      ValidPrefix(m, run, next, choice);
      CoversRun(raw, pre, run, j, next, choice);
    } else {
      j := next;
      CoversSelf(StateFrom(m, run[..next], choice));
    }
  }

  lemma MoveHere(raw: nat -> Byte, pre: seq<ByteEvent>, run: seq<ByteEvent>, post: seq<ByteEvent>, choice: Choice, k: nat, next: nat, j: nat)
    requires k <= |run| && next <= |run| && j <= |run|
    requires MachineValid(raw, pre, choice) && ValidFrom(MachineState(raw, pre, choice), run, choice)
    requires var m := MachineState(raw, pre, choice);
             && Bounded(StateFrom(m, run[..k], choice))
             && Forward(StateFrom(m, run[..k], choice), StateFrom(m, run[..next], choice), StateFrom(m, run[..k], choice).clock)
             && Covers(StateFrom(m, run[..j], choice), StateFrom(m, run[..next], choice))
    requires MachineValid(raw, pre + run[..k] + [Crash] + post, choice)
    ensures MachineShows(raw, pre + run[..j] + [Crash] + post)
  {
    hide Covers, Forward, Bounded, BeginsReached, SameCrash, MachineValid, MachineState, StateFrom;
    var m := MachineState(raw, pre, choice);
    var here := StateFrom(m, run[..k], choice);
    var other := CutOff(choice, here.crashes, here.clock);
    FromConcat(raw, pre, run[..k], choice);
    ThroughCrash(raw, pre + run[..k], post, choice);
    CrashCovered(here, StateFrom(m, run[..next], choice), StateFrom(m, run[..j], choice), choice);
    ValidPrefix(m, run, j, choice);
    FromConcat(raw, pre, run[..j], choice);
    MoveCrash(raw, pre + run[..k], pre + run[..j], post, choice, other);
  }

  /**
   Crash-point reduction: take one execution after any number of earlier ones, and a crash
   after its first `k` events with any continuation. The checker makes a check at some
   point `j` from which a crash admits the very same continuation, and shows it unless one
   of its loads meets an initialization store.
   */
  lemma CrashPointsSuffice(raw: nat -> Byte, pre: seq<ByteEvent>, run: seq<ByteEvent>, post: seq<ByteEvent>, choice: Choice, k: nat, first: nat)
    returns (j: nat)
    requires StartsExecution(pre) && MachineValid(raw, pre + run, choice)
    requires OrderlyFrom(MachineState(raw, pre, choice), run, choice)
    requires k <= |run| && first <= StateAfter(raw, pre + run[..k]).clock
    requires MachineValid(raw, pre + run[..k] + [Crash] + post, choice)
    ensures ChecksAt(raw, pre, run, j, first)
    ensures MachineShows(raw, pre + run[..j] + [Crash] + post)
    ensures MeetsNoInit(raw, pre + run[..j] + [Crash] + post) ==> CheckerShows(raw, pre + run[..j] + [Crash] + post)
  {
    hide Covers, Forward, Bounded, OrderlyFrom, BeginsReached, SameCrash, Redundant, MachineValid;
    var m := MachineState(raw, pre, choice);
    FromConcat(raw, pre, run, choice);
    StartBounded(raw, pre, choice);
    BoundedRun(m, run, k, choice);
    var next := NextPoint(m, run, k, choice);
    j := CheckCovering(raw, pre, run, k, next, choice, first);
    MoveHere(raw, pre, run, post, choice, k, next, j);
    CheckerIsExact(raw, pre + run[..j] + [Crash] + post);
  }

  // ----- When a line's interval starts in the future -----

  /** Everything but the image is the same whatever the points of the crashes are. */
  lemma {:induction false} SameShape(raw: nat -> Byte, run: seq<ByteEvent>, choice: Choice, other: Choice)
    ensures var m := MachineState(raw, run, choice);
            MachineState(raw, run, other) == m.(image := MachineState(raw, run, other).image)
  {
    if run != [] {
      SameShape(raw, run[..|run| - 1], choice, other);
    }
  }

  lemma ClockStep(raw: nat -> Byte, s: State, ev: ByteEvent)
    requires !ev.Crash?
    ensures Next(raw, s, ev).clock == s.clock + 1
  {
  }

  lemma {:induction false} ClockGrows(raw: nat -> Byte, pre: seq<ByteEvent>, run: seq<ByteEvent>, j: nat)
    requires j < |run| && forall ev :: ev in run ==> !ev.Crash?
    ensures StateAfter(raw, pre + run[..j]).clock < StateAfter(raw, pre + run).clock
  {
    hide Next;
    var n := |run| - 1;
    assert (pre + run)[..|pre| + n] == pre + run[..n];
    assert run[n] in run;
    ClockStep(raw, StateAfter(raw, pre + run[..n]), run[n]);
    if j < n {
      ClockGrows(raw, pre, run[..n], j);
      assert run[..n][..j] == run[..j];
    }
  }

  /** The load of one byte right after a crash. */
  lemma LoadAfterCrash(m: Machine, a: nat, b: Byte, choice: Choice)
    ensures ValidFrom(MachineNext(m, Crash, choice), [Load(a, 1, [], [b])], choice) <==>
            b == m.ByteAt(a, Pick(choice, m.crashes, CacheId(a)))
  {
    var n := MachineNext(m, Crash, choice);
    var post: seq<ByteEvent> := [Load(a, 1, [], [b])];
    assert post[..0] == [];
    CrashByteAt(m, choice, a);
    assert n.Read([], a) == Peek(n.image, a);
    assert n.ReadAll([], a, 1)[0] == n.Read([], a + 0);
  }

  /** A store that the start of its line's interval is already past is never lost. */
  lemma ForcedStore(raw: nat -> Byte, run: seq<ByteEvent>, line: nat, y: Byte, b: Byte, choice: Choice, other: Choice)
    requires CacheId(line) == line
    requires MachineState(raw, run, choice).clock < MachineState(raw, run, choice).Begin(line)
    requires MachineValid(raw, run + [Store(line, [y], false)] + [Crash] + [Load(line, 1, [], [b])], other)
    ensures b == y
  {
    var all := run + [Store(line, [y], false)];
    SameShape(raw, run, choice, other);
    MachineSnoc(raw, run, Store(line, [y], false), other);
    var before, m := MachineState(raw, run, other), MachineState(raw, all, other);
    var p := Pick(other, m.crashes, line);
    ThroughCrash(raw, all, [Load(line, 1, [], [b])], other);
    StoreThenByte(before, line, y, p, other);
    hide ValidFrom, MachineValid, MachineState, MachineNext;
    LoadAfterCrash(m, line, b, other);
    assert m.Begin(line) <= p;
  }

  lemma StoreThenByte(m: Machine, line: nat, y: Byte, p: nat, choice: Choice)
    ensures var n := MachineNext(m, Store(line, [y], false), choice);
            n.begins == m.begins && (m.clock < p ==> n.ByteAt(line, p) == y)
  {
    LastCoveringAppend(m.history, Write(line, [y], m.clock + 1, false), line, p);
  }

  /** The value that a crash right now leaves at `line` if every line is written back as early as it may be. */
  ghost function EarlyByte(m: Machine, line: nat): Byte
  {
    m.ByteAt(line, m.Begin(line))
  }

  ghost function OtherByte(b: Byte): Byte
  {
    if b == 0 then 1 else 0
  }

  ghost function EarlyChoice(m: Machine, choice: Choice): (r: Choice)
    ensures forall e: nat, line: nat :: Pick(r, e, line) == if e == m.crashes then m.Begin(line) else Pick(choice, e, line)
  {
    (e, line) => if e == m.crashes then m.Begin(line) else Pick(choice, e, line)
  }

  lemma EarlyCrash(raw: nat -> Byte, run: seq<ByteEvent>, line: nat, choice: Choice)
    requires CacheId(line) == line && MachineValid(raw, run, choice)
    ensures var m := MachineState(raw, run, choice);
            var other := EarlyChoice(m, choice);
            && MachineValid(raw, run, other)
            && MachineValid(raw, run + [Crash] + [Load(line, 1, [], [EarlyByte(m, line)])], other)
  {
    var m := MachineState(raw, run, choice);
    var other := EarlyChoice(m, choice);
    SameUpTo(raw, run, choice, other);
    var n := MachineState(raw, run, other);
    assert forall l: nat :: n.Begin(l) == m.Begin(l);
    AlikeBytes(m, n, line, m.Begin(line));
    LoadAfterCrash(n, line, EarlyByte(m, line), other);
    ThroughCrash(raw, run, [Load(line, 1, [], [EarlyByte(m, line)])], other);
  }

  /** The store that follows, and the load of what was there before. */
  ghost function NextStore(m: Machine, line: nat): ByteEvent
  {
    Store(line, [OtherByte(EarlyByte(m, line))], false)
  }

  ghost function OldLoad(m: Machine, line: nat): seq<ByteEvent>
  {
    [Load(line, 1, [], [EarlyByte(m, line)])]
  }

  /** Some check shows what a crash with the continuation `post` shows. */
  ghost predicate CheckShows(raw: nat -> Byte, pre: seq<ByteEvent>, run: seq<ByteEvent>, post: seq<ByteEvent>, first: nat)
  {
    exists j: nat :: ChecksAt(raw, pre, run, j, first) && MachineShows(raw, pre + run[..j] + [Crash] + post)
  }

  /** Whatever the first number for checks is, and wherever a crash is possible from it on, some check stands for it. */
  ghost predicate Reduces(raw: nat -> Byte, pre: seq<ByteEvent>, run: seq<ByteEvent>)
  {
    forall post, choice, k: nat, first: nat ::
      k <= |run| && first <= StateAfter(raw, pre + run[..k]).clock
      && MachineValid(raw, pre + run, choice) && MachineValid(raw, pre + run[..k] + [Crash] + post, choice)
      ==> CheckShows(raw, pre, run, post, first)
  }

  /** With an interval that starts in the future, one more store can lose a crash. */
  lemma OverBegunLoses(raw: nat -> Byte, pre: seq<ByteEvent>, run: seq<ByteEvent>, line: nat, choice: Choice)
    requires CacheId(line) == line && MachineValid(raw, pre + run, choice)
    requires forall ev :: ev in run ==> !ev.Crash?
    requires var m := MachineState(raw, pre + run, choice); m.clock < m.Begin(line)
    ensures !Reduces(raw, pre, run + [NextStore(MachineState(raw, pre + run, choice), line)])
  {
    hide MachineValid, MachineState, EarlyByte, OtherByte, MachineNext;
    var m := MachineState(raw, pre + run, choice);
    var other := EarlyChoice(m, choice);
    var all := run + [NextStore(m, line)];
    EarlyCrash(raw, pre + run, line, choice);
    MachineSnoc(raw, pre + run, NextStore(m, line), other);
    assert pre + all == pre + run + [NextStore(m, line)];
    assert all[..|run|] == run;
    ClockNow(raw, pre + run, choice);
    NoCheckShows(raw, pre, run, line, choice);
    assert m.clock <= StateAfter(raw, pre + all[..|run|]).clock;
    assert MachineValid(raw, pre + all, other);
    assert MachineValid(raw, pre + all[..|run|] + [Crash] + OldLoad(m, line), other);
  }

  lemma ClockNow(raw: nat -> Byte, run: seq<ByteEvent>, choice: Choice)
    requires MachineValid(raw, run, choice)
    ensures StateAfter(raw, run).clock == MachineState(raw, run, choice).clock
  {
    RunAgrees(raw, run, choice);
  }

  lemma NoCheckShows(raw: nat -> Byte, pre: seq<ByteEvent>, run: seq<ByteEvent>, line: nat, choice: Choice)
    requires CacheId(line) == line && MachineValid(raw, pre + run, choice)
    requires forall ev :: ev in run ==> !ev.Crash?
    requires var m := MachineState(raw, pre + run, choice); m.clock < m.Begin(line)
    ensures var m := MachineState(raw, pre + run, choice);
            !CheckShows(raw, pre, run + [NextStore(m, line)], OldLoad(m, line), m.clock)
  {
    hide MachineValid, MachineState, EarlyByte, StateAfter, NoWriteSinceCheck;
    var m := MachineState(raw, pre + run, choice);
    var all, post := run + [NextStore(m, line)], OldLoad(m, line);
    ClockNow(raw, pre + run, choice);
    forall j: nat | ChecksAt(raw, pre, all, j, m.clock)
      ensures !MachineShows(raw, pre + all[..j] + [Crash] + post)
    {
      if j < |run| {
        assert all[..j] == run[..j];
        ClockGrows(raw, pre, run, j);
      } else if j == |all| {
        assert pre + all[..j] == pre + run + [NextStore(m, line)];
        forall other: Choice | MachineValid(raw, pre + all[..j] + [Crash] + post, other)
          ensures false
        {
          ForcedStore(raw, pre + run, line, OtherByte(EarlyByte(m, line)), EarlyByte(m, line), choice, other);
        }
      }
    }
  }
}
