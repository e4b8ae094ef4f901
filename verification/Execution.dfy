/**
 The execution object: the lists of the stores committed to each word and the cache
 lines, kept as the fields that its methods update.
 */
module Execution {
  import opened Wrappers
  import opened Memory
  import opened Column
  import opened Enumeration
  import opened StoreList
  import opened Engine

  /** Two executions that no reader can tell apart: cache lines made on demand count as absent. */
  ghost predicate SameView(x: Exec, y: Exec)
  {
    && (forall word: nat :: x.StoresOf(word) == y.StoresOf(word))
    && (forall line: nat :: x.RangeOf(line) == y.RangeOf(line))
  }

  class ModelExecution {
    var objWrMap: map<nat, seq<Write>>
    var objToCacheline: map<nat, Range>
    var usedSequenceNumbers: nat
    var noWriteSinceCrashCheck: bool
    var hasCrashed: bool
    var enableCrash: bool

    /** Lists are never empty. */
    ghost predicate Valid()
      reads this
    {
      forall word :: word in objWrMap ==> objWrMap[word] != []
    }

    /** The value of module Engine this object stands for. */
    ghost function Model(): Exec
      reads this
    {
      Exec(objWrMap, objToCacheline)
    }

    constructor ()
      ensures Valid() && Model() == NO_EXEC
      ensures usedSequenceNumbers == 0 && !noWriteSinceCrashCheck && !hasCrashed && enableCrash
    {
      objWrMap, objToCacheline := map[], map[];
      usedSequenceNumbers, noWriteSinceCrashCheck := 0, false;
      hasCrashed, enableCrash := false, true;
    }

    /** The line of an address, made on first use. */
    method GetCacheLine(address: nat) returns (cl: Range)
      modifies this`objToCacheline
      ensures SameView(Model(), old(Model())) && CacheId(address) in objToCacheline
      ensures cl == Model().RangeOf(CacheId(address))
      ensures Model() == old(Model()).(ranges := old(Model()).ranges[CacheId(address) := cl])
    {
      var id := CacheId(address);
      if id !in objToCacheline {
        objToCacheline := objToCacheline[id := Range(0, 0)];
      } else {
        assert objToCacheline[id := objToCacheline[id]] == objToCacheline;
      }
      cl := objToCacheline[id];
    }

    method SetBeginRange(line: nat, begin: nat)
      requires line in objToCacheline
      modifies this`objToCacheline
      ensures Model() == old(Model()).(ranges := old(Model()).ranges[line := old(Model()).RangeOf(line).(begin := begin)])
    {
      objToCacheline := objToCacheline[line := objToCacheline[line].(begin := begin)];
    }

    method SetEndRange(line: nat, end: nat)
      requires line in objToCacheline
      modifies this`objToCacheline
      ensures Model() == old(Model()).(ranges := old(Model()).ranges[line := old(Model()).RangeOf(line).(end := end)])
    {
      objToCacheline := objToCacheline[line := objToCacheline[line].(end := end)];
    }

    /** Records the original contents of a word at the first access to it. */
    method EnsureInitialValue(ghost raw: nat -> Byte, contents: seq<Byte>, address: nat)
      requires Valid() && InitStore(raw, AlignAddress(address)).bytes == contents
      modifies this`objWrMap, this`noWriteSinceCrashCheck
      ensures Valid() && Model() == Touch(raw, old(Model()), AlignAddress(address))
      ensures noWriteSinceCrashCheck <==> old(noWriteSinceCrashCheck) && old(Model()).StoresOf(AlignAddress(address)) != []
    {
      var word := AlignAddress(address);
      AlignFacts(address);
      if word !in objWrMap {
        assert Model().StoresOf(word) == [];
        var init := Write(word, contents, 0, true);
        assert init == InitStore(raw, word);
        var _ := AddWriteToLists(init);
        assert AddStore([], init) == [init];
      } else {
        assert Model().StoresOf(word) != [];
      }
    }

    /** Appends a store to the list of its word unless the newest overlapping store already wrote its bytes. */
    method AddWriteToLists(write: Write) returns (added: bool)
      requires Valid()
      modifies this`objWrMap, this`noWriteSinceCrashCheck
      ensures Valid()
      ensures var word := AlignAddress(write.loc);
              Model() == old(Model()).(stores := old(Model()).stores[word := AddStore(old(Model()).StoresOf(word), write)])
      ensures added <==> !Subsumed(old(Model()).StoresOf(AlignAddress(write.loc)), write)
      ensures noWriteSinceCrashCheck == (old(noWriteSinceCrashCheck) && !added)
    {
      var word := AlignAddress(write.loc);
      var list := [];
      if word in objWrMap {
        list := objWrMap[word];
        var wbot, wtop := write.loc, write.loc + |write.bytes|;
        var rit := |list|;
        assert list[..rit] == list;
        while rit > 0
          invariant 0 <= rit <= |list|
          invariant Subsumed(list, write) == Subsumed(list[..rit], write)
        {
          rit := rit - 1;
          var oldwrite := list[rit];
          assert list[..rit + 1][..rit] == list[..rit];
          var owbot, owtop := oldwrite.loc, oldwrite.loc + |oldwrite.bytes|;
          if wbot >= owtop || owbot >= wtop {
            continue;
          }
          if owbot <= wbot && owtop >= wtop {
            var oldval := oldwrite.bytes[wbot - owbot..wbot - owbot + |write.bytes|];
            if oldval == write.bytes {
              assert objWrMap[word := objWrMap[word]] == objWrMap;
              return false;
            }
          }
          break;
        }
        assert !Subsumed(list, write);
      }
      objWrMap := objWrMap[word := list + [write]];
      noWriteSinceCrashCheck := false;
      return true;
    }
  }

  // ----- Filling the slots of a read, newest store first -----

  ghost function OpenSlots(v: Slots): (n: nat)
    ensures n == 0 <==> Full(v)
  {
    if v == [] then 0 else OpenSlots(v[..|v| - 1]) + if v[|v| - 1].None? then 1 else 0
  }

  lemma {:induction false} OpenSlotsFilled(v: Slots, i: nat, s: Source)
    requires i < |v| && v[i].None?
    ensures OpenSlots(v[i := Some(s)]) == OpenSlots(v) - 1
  {
    var n := |v| - 1;
    var w := v[i := Some(s)];
    if i < n {
      assert w[..n] == v[..n][i := Some(s)];
      OpenSlotsFilled(v[..n], i, s);
    } else {
      assert w[..n] == v[..n];
    }
  }

  /** One store offered to the slots of a read; true once no slot is open any more. */
  method CheckOverlap(e: nat, vec: Slots, write: Write, numslotsleft: nat, rbot: nat) returns (writes: Slots, left: nat, done: bool)
    requires numslotsleft == OpenSlots(vec) > 0
    ensures writes == FillOne(vec, e, write, rbot)
    ensures left == OpenSlots(writes) && (done <==> left == 0)
  {
    writes, left := vec, numslotsleft;
    var rtop, wtop := rbot + |vec|, write.loc + |write.bytes|;
    if write.loc >= rtop || rbot >= wtop {
      assert writes == FillOne(vec, e, write, rbot);
      return writes, left, false;
    }
    var writeoffset: int := rbot - write.loc;
    for i := 0 to |vec|
      invariant |writes| == |vec| && writeoffset == rbot + i - write.loc
      invariant forall k :: 0 <= k < i ==> writes[k] == FillOne(vec, e, write, rbot)[k]
      invariant forall k :: i <= k < |vec| ==> writes[k] == vec[k]
      invariant left == OpenSlots(writes) > 0
    {
      if writes[i].None? && 0 <= writeoffset < |write.bytes| {
        OpenSlotsFilled(writes, i, Source(e, write));
        writes := writes[i := Some(Source(e, write))];
        left := left - 1;
        if left == 0 {
          assert Full(writes);
          assert writes == FillOne(vec, e, write, rbot);
          return writes, left, true;
        }
      }
      writeoffset := writeoffset + 1;
    }
    done := false;
  }

  /** All numbers of the list are at most `p`. */
  ghost predicate AllUpTo(list: seq<Write>, p: nat)
  {
    forall w :: w in list ==> w.clock <= p
  }

  /** Walks a list, of a store buffer or of a word, from its newest store until every slot is filled. */
  method FillNewestFirst(e: nat, list: seq<Write>, vec: Slots, numslotsleft: nat, rbot: nat, ghost p: nat)
    returns (writes: Slots, left: nat, done: bool)
    requires numslotsleft == OpenSlots(vec) > 0 && AllUpTo(list, p)
    ensures writes == FillUpTo(vec, e, list, p, rbot)
    ensures left == OpenSlots(writes) && (done <==> left == 0)
  {
    writes, left, done := vec, numslotsleft, false;
    var rit := |list|;
    assert list[rit..] == [];
    assert FillUpTo(vec, e, [], p, rbot) == vec;
    while rit > 0
      invariant 0 <= rit <= |list|
      invariant writes == FillUpTo(vec, e, list[rit..], p, rbot)
      invariant left == OpenSlots(writes) && !done && left > 0
    {
      rit := rit - 1;
      FillStep(vec, e, list, rit, p, rbot);
      writes, left, done := CheckOverlap(e, writes, list[rit], left, rbot);
      if done {
        FillDone(vec, e, list, rit, p, rbot);
        return;
      }
    }
    assert list[0..] == list;
  }
}
