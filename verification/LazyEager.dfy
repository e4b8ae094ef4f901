/**
 Lazy refinement is exact: over whole runs with any number of nested crashes, the
 write-back points consistent with everything read so far are the points inside the
 stored intervals, and there always are some. What a load is offered is all that these
 points allow, except where it meets an initialization store of the program.
 */
module LazyEager {
  import opened Wrappers
  import opened Memory
  import opened Column
  import opened Enumeration
  import opened Engine
  import opened EngineInvariant

  /** Every point picked lies in the interval stored for it. */
  ghost predicate ChoiceWithin(past: seq<Exec>, choice: Choice)
  {
    forall e, line: nat :: 0 <= e < |past| ==> past[e].RangeOf(line).Contains(Pick(choice, e, line))
  }

  lemma {:induction false} PersistedSome(col: seq<Cell>, points: seq<nat>, a: nat, w: Write)
    requires |points| == |col| > 0 && Sorted(col[0].stores)
    requires w in col[0].stores && w.Covers(a) && w.clock == 0
    ensures Persisted(col, points, a).Some?
    decreases |col|
  {
    if |col| == 1 {
      LastCoveringAtLeast(col[0].stores, w, a, points[0]);
    } else {
      PersistedSome(col[..|col| - 1], points[..|col| - 1], a, w);
    }
  }

  /** The original contents stand behind every byte of the word. */
  lemma {:induction false} ByteBacked(raw: nat -> Byte, s: State, loc: nat, a: nat, points: seq<nat>)
    requires Inv(raw, s) && Touched(raw, s, loc) && |points| == |s.past|
    requires AlignAddress(loc) <= a < AlignAddress(loc) + WORD_SIZE
    ensures if s.past == [] then LastCovering(s.cur.StoresOf(AlignAddress(loc)), a, s.clock).Some?
            else Persisted(ColumnOf(s.past, loc), points, a).Some?
  {
    var word := AlignAddress(loc);
    var init := InitStore(raw, word);
    assert init.Covers(a);
    if s.past == [] {
      assert GoodList(0, word, s.cur.StoresOf(word));
      LastCoveringAtLeast(s.cur.StoresOf(word), init, a, s.clock);
    } else {
      ColumnGood(raw, s, loc);
      PersistedSome(ColumnOf(s.past, loc), points, a, init);
    }
  }

  lemma FromCurrentAt(s: State, loc: nat, size: nat, buffer: seq<Write>, i: nat)
    requires i < size
    ensures FromCurrent(s, loc, size, buffer)[i] ==
            if LastCovering(buffer, loc + i, 0).Some? then FromStore(|s.past|, LastCovering(buffer, loc + i, 0))
            else FromStore(|s.past|, LastCovering(s.cur.StoresOf(AlignAddress(loc)), loc + i, s.clock))
  {
  }

  lemma {:induction false} SlotBacked(s: State, loc: nat, size: nat, buffer: seq<Write>, points: seq<nat>, i: nat)
    requires |points| == |s.past| && i < size
    requires if s.past == [] then LastCovering(s.cur.StoresOf(AlignAddress(loc)), loc + i, s.clock).Some?
             else Persisted(ColumnOf(s.past, loc), points, loc + i).Some?
    ensures FromCurrent(s, loc, size, buffer)[i].Some? || Persisted(ColumnOf(s.past, loc), points, loc + i).Some?
  {
    FromCurrentAt(s, loc, size, buffer, i);
  }

  /** A load finds a store for each of its bytes, whatever the points are. */
  lemma {:induction false} LoadIsFull(
      raw: nat -> Byte, s: State, loc: nat, size: nat, buffer: seq<Write>, points: seq<nat>)
    requires Inv(raw, s) && Touched(raw, s, loc) && InWord(loc, size) && |points| == |s.past|
    ensures Full(ReadPersisted(ColumnOf(s.past, loc), points, FromCurrent(s, loc, size, buffer), loc))
  {
    hide Inv, Touched;
    var r := ReadPersisted(ColumnOf(s.past, loc), points, FromCurrent(s, loc, size, buffer), loc);
    forall i | 0 <= i < |r|
      ensures r[i].Some?
    {
      ByteBacked(raw, s, loc, loc + i, points);
      SlotBacked(s, loc, size, buffer, points, i);
    }
  }

  lemma FromCurrentOnly(s: State, loc: nat, size: nat, buffer: seq<Write>)
    ensures CurrentOnly(|s.past|, FromCurrent(s, loc, size, buffer))
  {
  }

  /** `LoadIsFull` for whatever the checker may choose. */
  lemma RealizableIsFull(raw: nat -> Byte, s: State, loc: nat, size: nat, buffer: seq<Write>, result: Slots)
    requires Inv(raw, s) && Touched(raw, s, loc) && InWord(loc, size)
    requires Realizable(ColumnOf(s.past, loc), FromCurrent(s, loc, size, buffer), loc, result)
    ensures Full(result)
  {
    var points :| Within(ColumnOf(s.past, loc), points)
                  && ReadPersisted(ColumnOf(s.past, loc), points, FromCurrent(s, loc, size, buffer), loc) == result;
    LoadIsFull(raw, s, loc, size, buffer, points);
  }

  lemma ChoiceInColumn(past: seq<Exec>, loc: nat, choice: Choice)
    requires ChoiceWithin(past, choice)
    ensures Within(ColumnOf(past, loc), PointsOf(choice, |past|, CacheId(loc)))
  {
  }

  /** Only the interval of the loaded line changes. */
  lemma ChoiceNarrowed(past: seq<Exec>, loc: nat, col: seq<Cell>, choice: Choice)
    requires |col| == |past|
    requires Within(col, PointsOf(choice, |past|, CacheId(loc))) ==> Within(ColumnOf(past, loc), PointsOf(choice, |past|, CacheId(loc)))
    ensures ChoiceWithin(WithRanges(past, CacheId(loc), col), choice)
            == (ChoiceWithin(past, choice) && Within(col, PointsOf(choice, |past|, CacheId(loc))))
  {
    var line := CacheId(loc);
    var after := WithRanges(past, line, col);
    assert forall e, l: nat :: 0 <= e < |past| ==> after[e].RangeOf(l) == if l == line then col[e].range else past[e].RangeOf(l);
    if ChoiceWithin(after, choice) {
      forall e | 0 <= e < |past|
        ensures col[e].range.Contains(Pick(choice, e, line))
      {
        assert after[e].RangeOf(line) == col[e].range;
      }
      assert Within(col, PointsOf(choice, |past|, line));
      forall e, l: nat | 0 <= e < |past|
        ensures past[e].RangeOf(l).Contains(Pick(choice, e, l))
      {
        if l == line {
          assert ColumnOf(past, loc)[e].range == past[e].RangeOf(line);
        } else {
          assert after[e].RangeOf(l) == past[e].RangeOf(l);
        }
      }
    }
  }

  lemma EnsureChoice(raw: nat -> Byte, s: State, loc: nat, choice: Choice)
    ensures ChoiceWithin(EnsureInitialValue(raw, s, loc).past, choice) == ChoiceWithin(s.past, choice)
  {
    var t := EnsureInitialValue(raw, s, loc);
    assert forall e :: 0 <= e < |s.past| ==> t.past[e].ranges == s.past[e].ranges;
    assert forall e, l: nat :: 0 <= e < |s.past| ==> t.past[e].RangeOf(l) == s.past[e].RangeOf(l);
  }

  lemma EnsureSameLists(raw: nat -> Byte, s: State, t: State, loc: nat)
    requires SameLists(s, t)
    ensures SameLists(EnsureInitialValue(raw, s, loc), EnsureInitialValue(raw, t, loc))
  {
    if s.past != [] {
      assert s.past[0].stores == t.past[0].stores;
      assert s.past[0].StoresOf(AlignAddress(loc)) == t.past[0].StoresOf(AlignAddress(loc));
    }
  }

  /** A load of the checker, with `t` the state after the first access was recorded. */
  lemma LoadNarrows(raw: nat -> Byte, t: State, loc: nat, size: nat, buffer: seq<Write>, result: Slots)
    requires Inv(raw, t) && Touched(raw, t, loc) && InWord(loc, size)
    requires Offered(t, loc, size, buffer, result)
    ensures GoodLists(ColumnOf(t.past, loc)) && FromPrior(ColumnOf(t.past, loc), loc, result)
    ensures var col := NarrowRead(ColumnOf(t.past, loc), loc, result, 0);
            && Inv(raw, t.(past := WithRanges(t.past, CacheId(loc), col)))
            && forall choice :: ChoiceWithin(WithRanges(t.past, CacheId(loc), col), choice)
                                == (ChoiceWithin(t.past, choice) &&
                                    ReadPersisted(ColumnOf(t.past, loc), PointsOf(choice, |t.past|, CacheId(loc)),
                                                  FromCurrent(t, loc, size, buffer), loc) == result)
  {
    var old0 := ColumnOf(t.past, loc);
    var v := FromCurrent(t, loc, size, buffer);
    ColumnGood(raw, t, loc);
    FromCurrentOnly(t, loc, size, buffer);
    WindowsInside(old0, loc, size);
    RealizableIsFull(raw, t, loc, size, buffer, result);
    NarrowReadExact(old0, v, loc, result);
    var col := NarrowRead(old0, loc, result, 0);
    var u := t.(past := WithRanges(t.past, CacheId(loc), col));
    forall choice
      ensures ChoiceWithin(u.past, choice) == (ChoiceWithin(t.past, choice) &&
              ReadPersisted(old0, PointsOf(choice, |t.past|, CacheId(loc)), v, loc) == result)
    {
      ChoiceNarrowed(t.past, loc, col, choice);
      if ChoiceWithin(t.past, choice) {
        ChoiceInColumn(t.past, loc, choice);
      }
    }
    forall e, l: nat | 0 <= e < |u.past|
      ensures u.past[e].RangeOf(l).NonEmpty()
    {
      assert t.past[e].RangeOf(l).NonEmpty() && col[e].range.NonEmpty();
    }
    SameListsInv(raw, t, u);
  }

  /** The load meets an initialization store that hides one of its points. */
  ghost predicate LoadMeetsInit(raw: nat -> Byte, s: State, ev: Event<Slots>)
  {
    ev.Load? &&
    var t := EnsureInitialValue(raw, s, ev.loc);
    MeetsInit(ColumnOf(t.past, ev.loc), FromCurrent(t, ev.loc, ev.size, ev.buffer), ev.loc)
  }

  /** The choices that explain the run so far and this event are those that the checker keeps. */
  ghost predicate KeepsChoices(raw: nat -> Byte, s: State, r: State, ev: Event<Slots>)
  {
    forall choice :: (ChoiceWithin(s.past, choice) && EagerCan(raw, r, ev, choice)) == ChoiceWithin(LazyNext(raw, s, ev).past, choice)
  }

  /** The checker offers whatever some choice allows. */
  ghost predicate OffersEager(raw: nat -> Byte, s: State, r: State, ev: Event<Slots>)
  {
    forall choice :: ChoiceWithin(s.past, choice) && EagerCan(raw, r, ev, choice) ==> LazyCan(raw, s, ev)
  }

  /** One step: what the checker accepts, the eager reference accepts, and conversely unless the step meets an initialization store. */
  lemma LazyEagerStep(raw: nat -> Byte, s: State, r: State, ev: Event<Slots>)
    requires Inv(raw, s) && SameLists(s, r) && WellFormed(ev)
    ensures LazyCan(raw, s, ev) ==> Inv(raw, LazyNext(raw, s, ev)) && KeepsChoices(raw, s, r, ev)
    ensures SameLists(LazyNext(raw, s, ev), Next(raw, r, ev))
    ensures !LoadMeetsInit(raw, s, ev) ==> OffersEager(raw, s, r, ev)
  {
    NextInv(raw, s, ev);
    if ev.Load? {
      LoadStep(raw, s, r, ev);
    } else {
      match ev
      case Store(loc, bytes, isInit) =>
        EnsureSameLists(raw, s, r, loc);
        forall choice { EnsureChoice(raw, s, loc, choice); }
      case Crash =>
        CrashStep(raw, s, r, ev);
      case _ =>
    }
  }

  lemma CrashStep(raw: nat -> Byte, s: State, r: State, ev: Event<Slots>)
    requires SameLists(s, r) && ev.Crash?
    ensures SameLists(LazyNext(raw, s, ev), Next(raw, r, ev)) && KeepsChoices(raw, s, r, ev)
  {
    var n := |s.past|;
    var past := LazyNext(raw, s, ev).past;
    assert past == s.past + [s.cur];
    forall choice
      ensures (ChoiceWithin(s.past, choice) && EagerCan(raw, r, ev, choice)) == ChoiceWithin(past, choice)
    {
      if ChoiceWithin(past, choice) {
        assert forall e, line: nat :: 0 <= e < n ==> past[e].RangeOf(line).Contains(Pick(choice, e, line));
        assert forall line: nat :: past[n].RangeOf(line).Contains(Pick(choice, n, line));
        assert ChoiceWithin(s.past, choice);
      }
    }
  }

  /** The eager reference reads the same stores, from states that differ in intervals only. */
  lemma EagerLoad(raw: nat -> Byte, s: State, r: State, ev: Event<Slots>, choice: Choice)
    requires SameLists(s, r) && ev.Load?
    ensures var t := EnsureInitialValue(raw, s, ev.loc);
            EagerCan(raw, r, ev, choice) ==
            (ReadPersisted(ColumnOf(t.past, ev.loc), PointsOf(choice, |t.past|, CacheId(ev.loc)),
                           FromCurrent(t, ev.loc, ev.size, ev.buffer), ev.loc) == ev.result)
  {
    var loc := ev.loc;
    var t, u := EnsureInitialValue(raw, s, loc), EnsureInitialValue(raw, r, loc);
    EnsureSameLists(raw, s, r, loc);
    assert FromCurrent(u, loc, ev.size, ev.buffer) == FromCurrent(t, loc, ev.size, ev.buffer);
    ReadPersistedSameStores(ColumnOf(t.past, loc), ColumnOf(u.past, loc), PointsOf(choice, |t.past|, CacheId(loc)),
                            FromCurrent(t, loc, ev.size, ev.buffer), loc);
  }

  lemma LoadSameLists(raw: nat -> Byte, s: State, r: State, ev: Event<Slots>)
    requires SameLists(s, r) && ev.Load?
    ensures SameLists(LazyNext(raw, s, ev), Next(raw, r, ev))
  {
    EnsureSameLists(raw, s, r, ev.loc);
  }

  lemma LoadStep(raw: nat -> Byte, s: State, r: State, ev: Event<Slots>)
    requires Inv(raw, s) && SameLists(s, r) && WellFormed(ev) && ev.Load?
    ensures LazyCan(raw, s, ev) ==> Inv(raw, LazyNext(raw, s, ev)) && KeepsChoices(raw, s, r, ev)
    ensures SameLists(LazyNext(raw, s, ev), Next(raw, r, ev))
    ensures !LoadMeetsInit(raw, s, ev) ==> OffersEager(raw, s, r, ev)
  {
    var loc := ev.loc;
    var t := EnsureInitialValue(raw, s, loc);
    EnsureInv(raw, s, loc);
    LoadSameLists(raw, s, r, ev);
    assert Next(raw, s, ev).past == t.past;
    if LazyCan(raw, s, ev) {
      LoadNarrows(raw, t, loc, ev.size, ev.buffer, ev.result);
      ClockInv(raw, t.(past := LazyNext(raw, s, ev).past));
      forall choice
        ensures (ChoiceWithin(s.past, choice) && EagerCan(raw, r, ev, choice)) == ChoiceWithin(LazyNext(raw, s, ev).past, choice)
      {
        EnsureChoice(raw, s, loc, choice);
        EagerLoad(raw, s, r, ev, choice);
      }
    }
    if !LoadMeetsInit(raw, s, ev) {
      LoadOffers(raw, s, r, ev);
    }
  }

  lemma LoadOffers(raw: nat -> Byte, s: State, r: State, ev: Event<Slots>)
    requires Inv(raw, s) && SameLists(s, r) && ev.Load? && !LoadMeetsInit(raw, s, ev)
    ensures OffersEager(raw, s, r, ev)
  {
    var loc := ev.loc;
    var t := EnsureInitialValue(raw, s, loc);
    EnsureInv(raw, s, loc);
    ColumnGood(raw, t, loc);
    ExploresAllExactly(ColumnOf(t.past, loc), FromCurrent(t, loc, ev.size, ev.buffer), loc);
    forall choice | ChoiceWithin(s.past, choice) && EagerCan(raw, r, ev, choice)
      ensures LazyCan(raw, s, ev)
    {
      EnsureChoice(raw, s, loc, choice);
      EagerLoad(raw, s, r, ev, choice);
      ChoiceInColumn(t.past, loc, choice);
    }
  }

  lemma StartInv(raw: nat -> Byte)
    ensures Inv(raw, Start())
  {
    assert forall word: nat :: GoodList(0, word, NO_EXEC.StoresOf(word));
  }

  /** No load of the run meets an initialization store inside an interval. */
  ghost predicate InitFree(raw: nat -> Byte, evs: seq<Event<Slots>>)
  {
    evs == [] ||
    var n := |evs| - 1;
    InitFree(raw, evs[..n]) && !LoadMeetsInit(raw, LazyState(raw, evs[..n]), evs[n])
  }

  /**
   Main result. For every run the checker accepts: the eager reference accepts it under
   exactly the choices of write-back points that lie inside the intervals the checker ends
   with. And whatever the eager reference accepts, under any choice, the checker accepts,
   if no load meets an initialization store.
   */
  lemma {:induction false} LazyEagerEquivalent(raw: nat -> Byte, evs: seq<Event<Slots>>)
    ensures LazyValid(raw, evs) ==> Inv(raw, LazyState(raw, evs))
    ensures LazyValid(raw, evs) ==> SameLists(LazyState(raw, evs), StateAfter(raw, evs))
    ensures LazyValid(raw, evs) ==>
              forall choice :: EagerValid(raw, evs, choice) <==> ChoiceWithin(LazyState(raw, evs).past, choice)
    ensures InitFree(raw, evs) ==> forall choice :: EagerValid(raw, evs, choice) ==> LazyValid(raw, evs)
  {
    if evs == [] {
      StartInv(raw);
    } else {
      hide LoadMeetsInit, LazyCan, EagerCan, ChoiceWithin, LazyNext, Next, Inv, SameLists, WellFormed;
      var n := |evs| - 1;
      LazyEagerEquivalent(raw, evs[..n]);
      if LazyValid(raw, evs[..n]) && WellFormed(evs[n]) {
        LazyEagerStep(raw, LazyState(raw, evs[..n]), StateAfter(raw, evs[..n]), evs[n]);
      }
    }
  }

  /** After `evs`, every result of the load that some choice allows is offered. */
  ghost predicate OffersAll(raw: nat -> Byte, evs: seq<Event<Slots>>, loc: nat, size: nat, buffer: seq<Write>)
  {
    forall r, choice :: EagerValid(raw, evs + [Load(loc, size, buffer, r)], choice) ==> LazyValid(raw, evs + [Load(loc, size, buffer, r)])
  }

  lemma ChoiceThrough(raw: nat -> Byte, s: State, loc: nat, points: seq<nat>) returns (choice: Choice)
    requires Inv(raw, s) && Within(ColumnOf(s.past, loc), points)
    ensures ChoiceWithin(s.past, choice) && PointsOf(choice, |s.past|, CacheId(loc)) == points
  {
    choice := (e: nat, line: nat) =>
      if e >= |s.past| then 0 else if line == CacheId(loc) then points[e] else s.past[e].RangeOf(line).begin;
    forall e, line: nat | 0 <= e < |s.past|
      ensures s.past[e].RangeOf(line).Contains(Pick(choice, e, line))
    {
      assert ColumnOf(s.past, loc)[e].range.Contains(points[e]);
    }
  }

  lemma LazySnoc(raw: nat -> Byte, evs: seq<Event<Slots>>, ev: Event<Slots>, choice: Choice)
    ensures LazyState(raw, evs + [ev]) == LazyNext(raw, LazyState(raw, evs), ev)
    ensures LazyValid(raw, evs + [ev]) <==> LazyValid(raw, evs) && WellFormed(ev) && LazyCan(raw, LazyState(raw, evs), ev)
    ensures EagerValid(raw, evs + [ev], choice) <==>
            EagerValid(raw, evs, choice) && WellFormed(ev) && EagerCan(raw, StateAfter(raw, evs), ev, choice)
  {
    assert (evs + [ev])[..|evs|] == evs;
  }

  /** An initialization store that the next load meets always costs it a result. */
  lemma InitLosesResult(raw: nat -> Byte, evs: seq<Event<Slots>>, loc: nat, size: nat, buffer: seq<Write>, none: Slots)
    requires LazyValid(raw, evs) && WellFormed(Event<Slots>.Load(loc, size, buffer, none))
    requires LoadMeetsInit(raw, LazyState(raw, evs), Load(loc, size, buffer, none))
    ensures !OffersAll(raw, evs, loc, size, buffer)
  {
    LazyEagerEquivalent(raw, evs);
    var s, t := LazyState(raw, evs), EnsureInitialValue(raw, LazyState(raw, evs), loc);
    var col, v := ColumnOf(t.past, loc), FromCurrent(t, loc, size, buffer);
    EnsureInv(raw, s, loc);
    ColumnGood(raw, t, loc);
    ExploresAllExactly(col, v, loc);
    var r :| Realizable(col, v, loc, r) && !Realizable(Windows(col, loc, size), v, loc, r);
    var points :| Within(col, points) && ReadPersisted(col, points, v, loc) == r;
    var choice := ChoiceThrough(raw, t, loc, points);
    hide Realizable, ReadPersisted, FromCurrent, ChoiceWithin;
    var ev := Load(loc, size, buffer, r);
    EnsureChoice(raw, s, loc, choice);
    EagerLoad(raw, s, StateAfter(raw, evs), ev, choice);
    LazySnoc(raw, evs, ev, choice);
  }

  /** After a run the checker accepts, the next load is offered everything exactly if it meets no initialization store. */
  lemma OffersAllExactly(raw: nat -> Byte, evs: seq<Event<Slots>>, loc: nat, size: nat, buffer: seq<Write>, none: Slots)
    requires LazyValid(raw, evs) && WellFormed(Event<Slots>.Load(loc, size, buffer, none))
    ensures OffersAll(raw, evs, loc, size, buffer) <==> !LoadMeetsInit(raw, LazyState(raw, evs), Load(loc, size, buffer, none))
  {
    var s := LazyState(raw, evs);
    if LoadMeetsInit(raw, s, Load(loc, size, buffer, none)) {
      InitLosesResult(raw, evs, loc, size, buffer, none);
    } else {
      LazyEagerEquivalent(raw, evs);
      forall r, choice | EagerValid(raw, evs + [Load(loc, size, buffer, r)], choice)
        ensures LazyValid(raw, evs + [Load(loc, size, buffer, r)])
      {
        var ev := Load(loc, size, buffer, r);
        LazySnoc(raw, evs, ev, choice);
        LazyEagerStep(raw, s, StateAfter(raw, evs), ev);
      }
    }
  }

  /** Nothing the checker accepts is impossible: some choice of points explains the whole run. */
  lemma LazyRunExplained(raw: nat -> Byte, evs: seq<Event<Slots>>) returns (choice: Choice)
    requires LazyValid(raw, evs)
    ensures EagerValid(raw, evs, choice)
  {
    LazyEagerEquivalent(raw, evs);
    var past := LazyState(raw, evs).past;
    choice := (e: nat, line: nat) => if e < |past| then past[e].RangeOf(line).begin else 0;
    assert ChoiceWithin(past, choice);
  }
}
