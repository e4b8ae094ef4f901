/**
 The crash engine as a machine over memory events.

 A run commits stores, completes cache operations, loads and crashes, any number of
 times. `LazyValid` is what the checker does: it never picks the points at which cache
 lines were written back, it only offers each post-crash load the values that are
 still possible and narrows the intervals by the value taken. `EagerValid` fixes the
 points at the crash.
 */
module Engine {
  import opened Wrappers
  import opened Memory
  import opened Column
  import opened Enumeration
  import opened StoreList

  /** One execution of the program: committed stores per word, write-back interval per cache line. */
  datatype Exec = Exec(stores: map<nat, seq<Write>>, ranges: map<nat, Range>)
  {
    function StoresOf(word: nat): seq<Write>
    {
      if word in stores then stores[word] else []
    }

    function RangeOf(line: nat): Range
    {
      if line in ranges then ranges[line] else Range(0, 0)
    }
  }

  /** The crashed executions, oldest first, the running one, and its last sequence number. */
  datatype State = State(past: seq<Exec>, cur: Exec, clock: nat)

  /** `Result` is the read-from vector of a load, or the bytes it returned. */
  datatype Event<Result> =
    | Store(loc: nat, bytes: seq<Byte>, isInit: bool)
    | WriteBack(line: nat, begin: nat)
    | Load(loc: nat, size: nat, buffer: seq<Write>, result: Result)
    | Other
    | Crash

  /** What one write-back point per execution and cache line looks like. */
  type Choice = (nat, nat) -> nat

  ghost function Pick(choice: Choice, e: nat, line: nat): nat
  {
    choice(e, line)
  }

  /** Sequence number 1 went to the start of the main thread. */
  const FRESH_CLOCK: nat := 1

  const NO_EXEC: Exec := Exec(map[], map[])

  function Start(): State
  {
    State([], NO_EXEC, FRESH_CLOCK)
  }

  /** Accesses stay inside a word; the buffered stores have no number yet. */
  ghost predicate WellFormed<R>(ev: Event<R>)
  {
    match ev
    case Store(loc, bytes, _) => InWord(loc, |bytes|)
    case Load(loc, size, buffer, _) => InWord(loc, size) && forall w :: w in buffer ==> w.clock == 0
    case _ => true
  }

  /** The word seen through the executions of `past`. */
  ghost function ColumnOf(past: seq<Exec>, loc: nat): (r: seq<Cell>)
    ensures |r| == |past|
    ensures forall e :: 0 <= e < |past| ==>
                          r[e] == Cell(past[e].StoresOf(AlignAddress(loc)), past[e].RangeOf(CacheId(loc)))
  {
    seq(|past|, e requires 0 <= e < |past| => Cell(past[e].StoresOf(AlignAddress(loc)), past[e].RangeOf(CacheId(loc))))
  }

  // ----- Steps -----

  ghost function Peek(image: nat -> Byte, a: nat): Byte
  {
    image(a)
  }

  /** The store that stands for the original contents of a word. */
  ghost function InitStore(raw: nat -> Byte, word: nat): (w: Write)
    ensures w.loc == word && |w.bytes| == WORD_SIZE && w.clock == 0 && w.isInit
    ensures forall a :: w.Covers(a) ==> w.At(a) == Peek(raw, a)
  {
    Write(word, seq(WORD_SIZE, i requires 0 <= i < WORD_SIZE => Peek(raw, word + i)), 0, true)
  }

  ghost function Touch(raw: nat -> Byte, x: Exec, word: nat): Exec
  {
    if x.StoresOf(word) == [] then x.(stores := x.stores[word := [InitStore(raw, word)]]) else x
  }

  /** The first access to a word records its original contents in the oldest execution. */
  ghost function EnsureInitialValue(raw: nat -> Byte, s: State, loc: nat): State
  {
    var word := AlignAddress(loc);
    if s.past == [] then s.(cur := Touch(raw, s.cur, word))
    else s.(past := s.past[0 := Touch(raw, s.past[0], word)])
  }

  ghost function CommitStore(raw: nat -> Byte, s: State, loc: nat, bytes: seq<Byte>, isInit: bool): State
  {
    var t := EnsureInitialValue(raw, s, loc);
    var word := AlignAddress(loc);
    var w := Write(loc, bytes, s.clock + 1, isInit);
    t.(cur := t.cur.(stores := t.cur.stores[word := AddStore(t.cur.StoresOf(word), w)]), clock := s.clock + 1)
  }

  /** The slots of a load filled from the reader's store buffer, then from the running execution. */
  ghost function FromCurrent(s: State, loc: nat, size: nat, buffer: seq<Write>): (v: Slots)
    ensures |v| == size
  {
    var n := |s.past|;
    var open: Slots := seq(size, i requires 0 <= i < size => None);
    FillUpTo(FillUpTo(open, n, buffer, 0, loc), n, s.cur.StoresOf(AlignAddress(loc)), s.clock, loc)
  }

  /** The intervals of one cache line replaced. */
  ghost function WithRanges(past: seq<Exec>, line: nat, col: seq<Cell>): (r: seq<Exec>)
    requires |col| == |past|
    ensures |r| == |past|
    ensures forall e :: 0 <= e < |past| ==> r[e] == past[e].(ranges := past[e].ranges[line := col[e].range])
  {
    seq(|past|, e requires 0 <= e < |past| => past[e].(ranges := past[e].ranges[line := col[e].range]))
  }

  /** Steps that do not depend on who picks the write-back points. */
  ghost function Next<R>(raw: nat -> Byte, s: State, ev: Event<R>): State
  {
    match ev
    case Store(loc, bytes, isInit) => CommitStore(raw, s, loc, bytes, isInit)
    case WriteBack(line, begin) =>
      s.(cur := s.cur.(ranges := s.cur.ranges[line := s.cur.RangeOf(line).(begin := begin)]), clock := s.clock + 1)
    case Load(loc, _, _, _) => EnsureInitialValue(raw, s, loc).(clock := s.clock + 1)
    case Other => s.(clock := s.clock + 1)
    case Crash => State(s.past + [s.cur], NO_EXEC, FRESH_CLOCK)
  }

  // ----- The checker: narrow by what was read -----

  /** The walk offers what the windows allow: it takes an initialization store for written back. */
  ghost predicate Offered(t: State, loc: nat, size: nat, buffer: seq<Write>, result: Slots)
  {
    Realizable(Windows(ColumnOf(t.past, loc), loc, size), FromCurrent(t, loc, size, buffer), loc, result)
  }

  ghost predicate LazyCan(raw: nat -> Byte, s: State, ev: Event<Slots>)
  {
    ev.Load? ==>
      var t := EnsureInitialValue(raw, s, ev.loc);
      Offered(t, ev.loc, ev.size, ev.buffer, ev.result)
  }

  ghost function LazyNext(raw: nat -> Byte, s: State, ev: Event<Slots>): State
  {
    var t := Next(raw, s, ev);
    if ev.Load? && GoodLists(ColumnOf(t.past, ev.loc)) && FromPrior(ColumnOf(t.past, ev.loc), ev.loc, ev.result)
    then t.(past := WithRanges(t.past, CacheId(ev.loc), NarrowRead(ColumnOf(t.past, ev.loc), ev.loc, ev.result, 0)))
    else t
  }

  ghost function LazyState(raw: nat -> Byte, evs: seq<Event<Slots>>): State
  {
    if evs == [] then Start()
    else LazyNext(raw, LazyState(raw, evs[..|evs| - 1]), evs[|evs| - 1])
  }

  ghost predicate LazyValid(raw: nat -> Byte, evs: seq<Event<Slots>>)
  {
    evs == [] ||
    var n := |evs| - 1;
    LazyValid(raw, evs[..n]) && WellFormed(evs[n]) && LazyCan(raw, LazyState(raw, evs[..n]), evs[n])
  }

  // ----- The reference that picks the points at each crash -----

  ghost function PointsOf(choice: Choice, n: nat, line: nat): (r: seq<nat>)
    ensures |r| == n && forall e :: 0 <= e < n ==> r[e] == Pick(choice, e, line)
  {
    seq(n, e requires 0 <= e < n => Pick(choice, e, line))
  }

  ghost predicate EagerCan(raw: nat -> Byte, s: State, ev: Event<Slots>, choice: Choice)
  {
    match ev
    case Load(loc, size, buffer, result) =>
      var t := EnsureInitialValue(raw, s, loc);
      result == ReadPersisted(ColumnOf(t.past, loc), PointsOf(choice, |t.past|, CacheId(loc)), FromCurrent(t, loc, size, buffer), loc)
    case Crash => forall line: nat :: s.cur.RangeOf(line).Contains(Pick(choice, |s.past|, line))
    case _ => true
  }

  /** The lists of stores along a run; they do not depend on what loads return. */
  ghost function StateAfter<R>(raw: nat -> Byte, evs: seq<Event<R>>): State
  {
    if evs == [] then Start()
    else Next(raw, StateAfter(raw, evs[..|evs| - 1]), evs[|evs| - 1])
  }

  ghost predicate EagerValid(raw: nat -> Byte, evs: seq<Event<Slots>>, choice: Choice)
  {
    evs == [] ||
    var n := |evs| - 1;
    EagerValid(raw, evs[..n], choice) && WellFormed(evs[n]) && EagerCan(raw, StateAfter(raw, evs[..n]), evs[n], choice)
  }

  // ----- What every reachable state keeps -----

  ghost predicate GoodList(e: nat, word: nat, ws: seq<Write>)
  {
    && GoodStores(e, ws)
    && forall w :: w in ws ==> InWord(w.loc, |w.bytes|) && AlignAddress(w.loc) == word
  }

  ghost predicate GoodExec(e: nat, x: Exec)
  {
    forall word: nat :: GoodList(e, word, x.StoresOf(word))
  }

  ghost function All(s: State): seq<Exec>
  {
    s.past + [s.cur]
  }

  /** A word with stores in any execution has its original contents first in the oldest. */
  ghost predicate Initialized(raw: nat -> Byte, all: seq<Exec>)
    requires all != []
  {
    forall e: nat, word: nat :: e < |all| && all[e].StoresOf(word) != [] ==>
                                  all[0].StoresOf(word) != [] && all[0].StoresOf(word)[0] == InitStore(raw, word)
  }

  ghost predicate PastGood(past: seq<Exec>)
  {
    forall e :: 0 <= e < |past| ==> GoodExec(e, past[e]) && forall line: nat :: past[e].RangeOf(line).NonEmpty()
  }

  ghost predicate ClocksUpTo(x: Exec, clock: nat)
  {
    forall word: nat, w :: w in x.StoresOf(word) ==> w.clock <= clock
  }

  /** Nothing bounds a write-back from above while the execution is still running. */
  ghost predicate Unbounded(x: Exec)
  {
    forall line: nat :: x.RangeOf(line).end == 0
  }

  ghost predicate CurGood(n: nat, x: Exec, clock: nat)
  {
    GoodExec(n, x) && ClocksUpTo(x, clock) && Unbounded(x)
  }

  ghost predicate Inv(raw: nat -> Byte, s: State)
  {
    s.clock >= FRESH_CLOCK && PastGood(s.past) && CurGood(|s.past|, s.cur, s.clock) && Initialized(raw, All(s))
  }

  lemma ColumnGood(raw: nat -> Byte, s: State, loc: nat)
    requires Inv(raw, s)
    ensures GoodColumn(ColumnOf(s.past, loc))
  {
    forall e | 0 <= e < |s.past|
      ensures GoodStores(e, ColumnOf(s.past, loc)[e].stores)
    {
      assert GoodList(e, AlignAddress(loc), s.past[e].StoresOf(AlignAddress(loc)));
    }
  }
}
