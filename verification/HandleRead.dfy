/** A whole load of the program, tied to the step of the engine that it performs. */
module HandleRead {
  import opened Wrappers
  import opened Memory
  import opened Column
  import opened Enumeration
  import opened Engine
  import opened EngineInvariant
  import opened LazyEager
  import opened Execution
  import opened PostCrashRead

  /** The engine state the objects stand for. */
  ghost function StateOf(es: seq<ModelExecution>, cur: ModelExecution): State
    reads es, cur
  {
    State(Models(es), cur.Model(), cur.usedSequenceNumbers)
  }

  /** Objects of a run: all different, lists in order. */
  ghost predicate Ready(raw: nat -> Byte, es: seq<ModelExecution>, cur: ModelExecution)
    reads es, cur
  {
    && Distinct(es) && cur !in es && cur.Valid() && (forall e :: 0 <= e < |es| ==> es[e].Valid())
    && Inv(raw, StateOf(es, cur))
  }

  /** States that differ at most in cache lines made on demand. */
  ghost predicate SameState(s: State, t: State)
  {
    && s.clock == t.clock && SameView(s.cur, t.cur)
    && |s.past| == |t.past| && forall e :: 0 <= e < |s.past| ==> SameView(s.past[e], t.past[e])
  }

  /** ensureInitialValue: the store goes to the oldest execution. */
  method RecordFirstAccess(ghost raw: nat -> Byte, contents: seq<Byte>, es: seq<ModelExecution>, cur: ModelExecution, loc: nat)
    requires Ready(raw, es, cur) && contents == InitStore(raw, AlignAddress(loc)).bytes
    modifies (set e | e in es)`objWrMap, (set e | e in es)`noWriteSinceCrashCheck, cur`objWrMap, cur`noWriteSinceCrashCheck
    ensures Ready(raw, es, cur)
    ensures StateOf(es, cur) == EnsureInitialValue(raw, old(StateOf(es, cur)), loc)
    ensures Touched(raw, StateOf(es, cur), loc)
  {
    ghost var s := StateOf(es, cur);
    ghost var xs := Models(es);
    EnsureInv(raw, s, loc);
    if es == [] {
      cur.EnsureInitialValue(raw, contents, loc);
    } else {
      es[0].EnsureInitialValue(raw, contents, loc);
      OneChanged(es, 0, xs);
    }
  }

  /** build_may_read_from: the vectors collected are those the engine offers. */
  method Candidates(ghost raw: nat -> Byte, es: seq<ModelExecution>, cur: ModelExecution, loc: nat, size: nat, buffer: seq<Write>)
    returns (rfSet: seq<Slots>)
    requires Ready(raw, es, cur) && Touched(raw, StateOf(es, cur), loc)
    requires InWord(loc, size) && AllUpTo(buffer, 0)
    ensures forall r :: r in rfSet <==> Offered(StateOf(es, cur), loc, size, buffer, r)
    ensures rfSet != [] && forall r :: r in rfSet ==> Full(r)
  {
    ghost var s := StateOf(es, cur);
    CandidatesReady(raw, s, loc, size);
    rfSet := BuildMayReadFrom(es, cur, buffer, loc, size);
    ghost var r := SomethingOffered(raw, s, loc, size, buffer);
    forall r | r in rfSet
      ensures Full(r)
    {
      OfferedRealizable(raw, s, loc, size, buffer, r);
      RealizableIsFull(raw, s, loc, size, buffer, r);
    }
  }

  lemma CandidatesReady(raw: nat -> Byte, s: State, loc: nat, size: nat)
    requires Inv(raw, s)
    ensures AllUpTo(s.cur.StoresOf(AlignAddress(loc)), s.clock)
    ensures GoodLists(ColumnOf(s.past, loc)) && OpenWindows(ColumnOf(s.past, loc), loc, size)
  {
    ColumnGood(raw, s, loc);
    var col := ColumnOf(s.past, loc);
    forall e | 0 <= e < |col|
      ensures Window(col[e], loc, size).NonEmpty()
    {
      WindowInside(col[e], loc, size);
    }
  }

  /** The lower ends of the windows give a load something. */
  lemma SomethingOffered(raw: nat -> Byte, s: State, loc: nat, size: nat, buffer: seq<Write>) returns (r: Slots)
    requires Inv(raw, s)
    ensures Offered(s, loc, size, buffer, r)
  {
    var col := ColumnOf(s.past, loc);
    ColumnGood(raw, s, loc);
    var points := Lifted(col, loc, size, Early(col));
    var wins := Windows(col, loc, size);
    forall e | 0 <= e < |col|
      ensures wins[e].range.Contains(points[e])
    {
      WindowInside(col[e], loc, size);
    }
    r := ReadPersisted(wins, points, FromCurrent(s, loc, size, buffer), loc);
    assert Within(wins, points);
  }

  /** What is offered, some points of the intervals explain. */
  lemma OfferedRealizable(raw: nat -> Byte, s: State, loc: nat, size: nat, buffer: seq<Write>, r: Slots)
    requires Inv(raw, s) && Offered(s, loc, size, buffer, r)
    ensures Realizable(ColumnOf(s.past, loc), FromCurrent(s, loc, size, buffer), loc, r)
  {
    ColumnGood(raw, s, loc);
    WindowsInside(ColumnOf(s.past, loc), loc, size);
  }

  /**
   A load: record the first access, collect the vectors, take the one that the node
   stack chose, narrow by it. The vectors collected are exactly those the engine can
   take, and taking one leaves the objects where the engine's step leads.
   */
  method HandleRead(ghost raw: nat -> Byte, contents: seq<Byte>, es: seq<ModelExecution>, cur: ModelExecution,
                    loc: nat, size: nat, buffer: seq<Write>, index: nat)
    returns (rfSet: seq<Slots>, value: seq<Byte>)
    requires Ready(raw, es, cur) && contents == InitStore(raw, AlignAddress(loc)).bytes
    requires InWord(loc, size) && AllUpTo(buffer, 0)
    modifies es, cur
    ensures rfSet != []
    ensures forall r :: r in rfSet <==> LazyCan(raw, old(StateOf(es, cur)), Load(loc, size, buffer, r))
    ensures index < |rfSet| ==>
              && value == Bytes(rfSet[index], loc)
              && SameState(StateOf(es, cur), LazyNext(raw, old(StateOf(es, cur)), Load(loc, size, buffer, rfSet[index])))
  {
    ghost var s := StateOf(es, cur);
    RecordFirstAccess(raw, contents, es, cur, loc);
    ghost var t := StateOf(es, cur);
    rfSet := Candidates(raw, es, cur, loc, size, buffer);
    OfferedIsLazy(raw, s, t, loc, size, buffer);
    value := [];
    if index < |rfSet| {
      value := TakeVector(raw, es, cur, loc, size, buffer, rfSet[index]);
      TakenIsLazy(raw, s, t, loc, size, buffer, rfSet[index], StateOf(es, cur));
    }
  }

  lemma OfferedIsLazy(raw: nat -> Byte, s: State, t: State, loc: nat, size: nat, buffer: seq<Write>)
    requires t == EnsureInitialValue(raw, s, loc)
    ensures forall r :: Offered(t, loc, size, buffer, r) <==> LazyCan(raw, s, Load(loc, size, buffer, r))
  {
  }

  /** `u` is `t` with the lines narrowed by `r` and the load numbered. */
  ghost predicate Taken(t: State, loc: nat, r: Slots, u: State)
  {
    && GoodLists(ColumnOf(t.past, loc)) && FromPrior(ColumnOf(t.past, loc), loc, r)
    && u.clock == t.clock + 1 && u.cur == t.cur && |u.past| == |t.past|
    && forall e :: 0 <= e < |t.past| ==>
                     SameView(u.past[e], WithRanges(t.past, CacheId(loc), NarrowRead(ColumnOf(t.past, loc), loc, r, 0))[e])
  }

  method TakeVector(ghost raw: nat -> Byte, es: seq<ModelExecution>, cur: ModelExecution, loc: nat, ghost size: nat,
                    ghost buffer: seq<Write>, rfarray: Slots)
    returns (value: seq<Byte>)
    requires Ready(raw, es, cur) && Touched(raw, StateOf(es, cur), loc) && InWord(loc, size)
    requires Offered(StateOf(es, cur), loc, size, buffer, rfarray)
    modifies (set e | e in es)`objToCacheline, cur`usedSequenceNumbers
    ensures value == Bytes(rfarray, loc)
    ensures Taken(old(StateOf(es, cur)), loc, rfarray, StateOf(es, cur))
  {
    ghost var t := StateOf(es, cur);
    ChosenReady(raw, t, loc, size, buffer, rfarray);
    hide *;
    value := ProcessRead(es, loc, rfarray);
    ghost var ys := Models(es);
    cur.usedSequenceNumbers := cur.usedSequenceNumbers + 1;
    NarrowedState(t, ys, loc, rfarray, value, StateOf(es, cur));
  }

  lemma TakenIsLazy(raw: nat -> Byte, s: State, t: State, loc: nat, size: nat, buffer: seq<Write>, r: Slots, u: State)
    requires t == EnsureInitialValue(raw, s, loc) && Taken(t, loc, r, u)
    ensures SameState(u, LazyNext(raw, s, Load(loc, size, buffer, r)))
  {
    assert Next(raw, s, Event<Slots>.Load(loc, size, buffer, r)).past == t.past;
  }

  lemma ChosenReady(raw: nat -> Byte, t: State, loc: nat, size: nat, buffer: seq<Write>, r: Slots)
    requires Inv(raw, t) && Touched(raw, t, loc) && InWord(loc, size) && Offered(t, loc, size, buffer, r)
    ensures GoodLists(ColumnOf(t.past, loc)) && FromPrior(ColumnOf(t.past, loc), loc, r) && SlotsCover(r, loc)
  {
    ColumnGood(raw, t, loc);
    FromCurrentOnly(t, loc, size, buffer);
    OfferedRealizable(raw, t, loc, size, buffer, r);
    RealizableIsFull(raw, t, loc, size, buffer, r);
    RealizableFromPrior(ColumnOf(t.past, loc), FromCurrent(t, loc, size, buffer), loc, r);
    var points :| Within(ColumnOf(t.past, loc), points)
                  && ReadPersisted(ColumnOf(t.past, loc), points, FromCurrent(t, loc, size, buffer), loc) == r;
    forall i | 0 <= i < |r|
      ensures r[i].Some? && r[i].value.store.Covers(loc + i)
    {
      FromCurrentAt(t, loc, size, buffer, i);
    }
  }

  lemma NarrowedState(t: State, ys: seq<Exec>, loc: nat, r: Slots, value: seq<Byte>, u: State)
    requires Processed(t.past, ys, loc, r, 0, value)
    requires u == State(ys, t.cur, t.clock + 1)
    ensures value == Bytes(r, loc) && Taken(t, loc, r, u)
  {
    assert Bytes(r, loc)[0..] == Bytes(r, loc);
    var col := NarrowRead(ColumnOf(t.past, loc), loc, r, 0);
    forall e | 0 <= e < |t.past|
      ensures SameView(ys[e], WithRanges(t.past, CacheId(loc), col)[e])
    {
      assert OnlyRange(t.past[e], ys[e], CacheId(loc));
      assert ColumnOf(ys, loc)[e] == col[e];
    }
  }
}
