/** Every step of the engine keeps its invariant. */
module EngineInvariant {
  import opened Memory
  import opened Column
  import opened Enumeration
  import opened StoreList
  import opened Engine

  lemma InitListGood(raw: nat -> Byte, loc: nat)
    ensures GoodList(0, AlignAddress(loc), [InitStore(raw, AlignAddress(loc))])
  {
    AlignFacts(loc);
  }

  lemma TouchGood(raw: nat -> Byte, x: Exec, loc: nat)
    requires GoodExec(0, x)
    ensures GoodExec(0, Touch(raw, x, AlignAddress(loc)))
  {
    InitListGood(raw, loc);
    var y := Touch(raw, x, AlignAddress(loc));
    forall word: nat
      ensures GoodList(0, word, y.StoresOf(word))
    {
      assert GoodList(0, word, x.StoresOf(word));
    }
  }

  /** After the first access the oldest execution holds the original contents of the word. */
  ghost predicate Touched(raw: nat -> Byte, s: State, loc: nat)
  {
    var word := AlignAddress(loc);
    All(s)[0].StoresOf(word) != [] && All(s)[0].StoresOf(word)[0] == InitStore(raw, word)
  }

  /** Changing stores of the oldest execution only by adding original contents keeps `Initialized`. */
  lemma InitializedTouch(raw: nat -> Byte, all: seq<Exec>, loc: nat)
    requires all != [] && Initialized(raw, all)
    ensures var touched := all[0 := Touch(raw, all[0], AlignAddress(loc))];
            Initialized(raw, touched) && touched[0].StoresOf(AlignAddress(loc)) != []
            && touched[0].StoresOf(AlignAddress(loc))[0] == InitStore(raw, AlignAddress(loc))
  {
    var word := AlignAddress(loc);
    var t := all[0 := Touch(raw, all[0], word)];
    forall e: nat, w: nat | e < |t| && t[e].StoresOf(w) != []
      ensures t[0].StoresOf(w) != [] && t[0].StoresOf(w)[0] == InitStore(raw, w)
    {
      if w != word || all[0].StoresOf(w) != [] {
        assert t[0].StoresOf(w) == all[0].StoresOf(w);
        assert all[e].StoresOf(w) != [];
      }
    }
    if all[0].StoresOf(word) != [] {
      assert t[0].StoresOf(word) != [];
    }
  }

  lemma TouchRanges(raw: nat -> Byte, x: Exec, word: nat, clock: nat)
    ensures Unbounded(x) ==> Unbounded(Touch(raw, x, word))
    ensures ClocksUpTo(x, clock) ==> ClocksUpTo(Touch(raw, x, word), clock)
    ensures forall line: nat :: Touch(raw, x, word).RangeOf(line) == x.RangeOf(line)
  {
    var y := Touch(raw, x, word);
    assert forall line: nat :: y.RangeOf(line) == x.RangeOf(line);
    if Unbounded(x) {
      assert forall line: nat :: x.RangeOf(line).end == 0 && y.RangeOf(line) == x.RangeOf(line);
    }
    if ClocksUpTo(x, clock) {
      forall v: nat, w | w in y.StoresOf(v)
        ensures w.clock <= clock
      {
        if y.StoresOf(v) == x.StoresOf(v) {
          assert w in x.StoresOf(v);
        }
      }
    }
  }

  lemma EnsureInv(raw: nat -> Byte, s: State, loc: nat)
    requires Inv(raw, s)
    ensures Inv(raw, EnsureInitialValue(raw, s, loc)) && Touched(raw, EnsureInitialValue(raw, s, loc), loc)
  {
    var t := EnsureInitialValue(raw, s, loc);
    var word := AlignAddress(loc);
    TouchGood(raw, All(s)[0], loc);
    TouchRanges(raw, All(s)[0], word, s.clock);
    InitializedTouch(raw, All(s), loc);
    assert All(t) == All(s)[0 := Touch(raw, All(s)[0], word)];
    assert PastGood(t.past);
    assert CurGood(|t.past|, t.cur, t.clock);
  }

  lemma AddStoreGood(e: nat, word: nat, ws: seq<Write>, w: Write)
    requires GoodList(e, word, ws) && InWord(w.loc, |w.bytes|) && AlignAddress(w.loc) == word
    requires w.clock >= 2 && forall x :: x in ws ==> x.clock < w.clock
    ensures GoodList(e, word, AddStore(ws, w))
    ensures ws != [] ==> AddStore(ws, w) != [] && AddStore(ws, w)[0] == ws[0]
  {
    var r := ws + [w];
    assert forall i :: 0 <= i < |ws| ==> r[i] == ws[i] && ws[i] in ws;
  }

  lemma CommitInv(raw: nat -> Byte, s: State, loc: nat, bytes: seq<Byte>, isInit: bool)
    requires Inv(raw, s) && InWord(loc, |bytes|)
    ensures Inv(raw, CommitStore(raw, s, loc, bytes, isInit))
  {
    var t := EnsureInitialValue(raw, s, loc);
    EnsureInv(raw, s, loc);
    var word := AlignAddress(loc);
    var w := Write(loc, bytes, s.clock + 1, isInit);
    var ws := t.cur.StoresOf(word);
    assert GoodList(|t.past|, word, ws);
    AddStoreGood(|t.past|, word, ws, w);
    var u := CommitStore(raw, s, loc, bytes, isInit);
    CommitCur(|t.past|, t.cur, u.cur, word, AddStore(ws, w), t.clock);
    assert u.past == t.past;
    CommitInitialized(raw, All(t), All(u), word);
  }

  lemma CommitCur(n: nat, x: Exec, y: Exec, word: nat, ws: seq<Write>, clock: nat)
    requires CurGood(n, x, clock) && y == x.(stores := x.stores[word := ws])
    requires GoodList(n, word, ws) && forall w :: w in ws ==> w.clock <= clock + 1
    ensures CurGood(n, y, clock + 1)
  {
    forall v: nat
      ensures GoodList(n, v, y.StoresOf(v))
    {
      assert GoodList(n, v, x.StoresOf(v));
    }
    forall v: nat, w | w in y.StoresOf(v)
      ensures w.clock <= clock + 1
    {
      if v != word {
        assert w in x.StoresOf(v);
      }
    }
    assert forall line: nat :: y.RangeOf(line) == x.RangeOf(line);
  }

  /** Appending to a list of an initialized word keeps its head. */
  lemma CommitInitialized(raw: nat -> Byte, all: seq<Exec>, after: seq<Exec>, word: nat)
    requires |all| == |after| > 0 && Initialized(raw, all)
    requires forall e, v: nat :: 0 <= e < |all| && v != word ==> after[e].StoresOf(v) == all[e].StoresOf(v)
    requires all[0].StoresOf(word) != [] && all[0].StoresOf(word)[0] == InitStore(raw, word)
    requires after[0].StoresOf(word) != [] && after[0].StoresOf(word)[0] == all[0].StoresOf(word)[0]
    ensures Initialized(raw, after)
  {
    forall e: nat, v: nat | e < |after| && after[e].StoresOf(v) != []
      ensures after[0].StoresOf(v) != [] && after[0].StoresOf(v)[0] == InitStore(raw, v)
    {
      if v != word {
        assert all[e].StoresOf(v) == after[e].StoresOf(v);
        assert all[0].StoresOf(v) == after[0].StoresOf(v);
      }
    }
  }

  lemma CrashInv(raw: nat -> Byte, s: State)
    requires Inv(raw, s)
    ensures Inv(raw, State(s.past + [s.cur], NO_EXEC, FRESH_CLOCK))
  {
    var t := State(s.past + [s.cur], NO_EXEC, FRESH_CLOCK);
    assert All(t) == All(s) + [NO_EXEC];
    assert forall word: nat :: GoodList(|t.past|, word, NO_EXEC.StoresOf(word));
    assert forall line: nat :: s.cur.RangeOf(line).NonEmpty();
  }

  lemma ClockInv(raw: nat -> Byte, s: State)
    requires Inv(raw, s)
    ensures Inv(raw, s.(clock := s.clock + 1))
  {
    assert All(s.(clock := s.clock + 1)) == All(s);
  }

  ghost function SetBegin(x: Exec, line: nat, begin: nat): Exec
  {
    x.(ranges := x.ranges[line := x.RangeOf(line).(begin := begin)])
  }

  lemma WriteBackInv(raw: nat -> Byte, s: State, line: nat, begin: nat)
    requires Inv(raw, s)
    ensures Inv(raw, s.(cur := SetBegin(s.cur, line, begin), clock := s.clock + 1))
  {
    var t := s.(cur := SetBegin(s.cur, line, begin), clock := s.clock + 1);
    assert forall word: nat :: t.cur.StoresOf(word) == s.cur.StoresOf(word);
    assert GoodExec(|t.past|, t.cur) by {
      forall word: nat
        ensures GoodList(|t.past|, word, t.cur.StoresOf(word))
      {
        assert GoodList(|t.past|, word, s.cur.StoresOf(word));
      }
    }
    assert Unbounded(t.cur) by {
      forall l: nat
        ensures t.cur.RangeOf(l).end == 0
      {
        assert s.cur.RangeOf(l).end == 0 && s.cur.RangeOf(line).end == 0;
      }
    }
    InitializedSameStores(raw, All(s), All(t));
  }

  lemma InitializedSameStores(raw: nat -> Byte, all: seq<Exec>, after: seq<Exec>)
    requires |all| == |after| > 0 && Initialized(raw, all)
    requires forall e :: 0 <= e < |all| ==> after[e].stores == all[e].stores
    ensures Initialized(raw, after)
  {
    forall e: nat, v: nat | e < |after| && after[e].StoresOf(v) != []
      ensures after[0].StoresOf(v) != [] && after[0].StoresOf(v)[0] == InitStore(raw, v)
    {
      assert all[e].StoresOf(v) == after[e].StoresOf(v) && all[0].StoresOf(v) == after[0].StoresOf(v);
    }
  }

  /** One step of a run, with or without narrowing by the checker. */
  lemma NextInv<R>(raw: nat -> Byte, s: State, ev: Event<R>)
    requires Inv(raw, s) && WellFormed(ev)
    ensures Inv(raw, Next(raw, s, ev))
  {
    match ev
    case Store(loc, bytes, isInit) => CommitInv(raw, s, loc, bytes, isInit);
    case Load(loc, size, buffer, _) =>
      EnsureInv(raw, s, loc);
      ClockInv(raw, EnsureInitialValue(raw, s, loc));
    case WriteBack(line, begin) => WriteBackInv(raw, s, line, begin);
    case Other => ClockInv(raw, s);
    case Crash => CrashInv(raw, s);
  }

  /** Stores and clock agree; only the intervals of past executions may differ. */
  ghost predicate SameLists(s: State, t: State)
  {
    && s.cur == t.cur && s.clock == t.clock && |s.past| == |t.past|
    && forall e :: 0 <= e < |s.past| ==> s.past[e].stores == t.past[e].stores
  }

  lemma SameListsInv(raw: nat -> Byte, s: State, t: State)
    requires Inv(raw, s) && SameLists(s, t)
    requires forall e, line: nat :: 0 <= e < |t.past| ==> t.past[e].RangeOf(line).NonEmpty()
    ensures Inv(raw, t)
  {
    forall e, word: nat | 0 <= e < |t.past|
      ensures GoodList(e, word, t.past[e].StoresOf(word))
    {
      assert GoodList(e, word, s.past[e].StoresOf(word));
    }
    InitializedSameStores(raw, All(s), All(t));
  }
}
