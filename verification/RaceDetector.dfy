/** The expanded record of a byte, and the shadow memory, as the objects that the checks update. */
module RaceDetector {
  import opened Races
  import opened ShadowWords

  // ----- The record and its arrays -----

  ghost function Zipped(threads: seq<nat>, clocks: seq<nat>): (r: seq<Read>)
    requires |threads| == |clocks|
    ensures |r| == |threads| && forall i :: 0 <= i < |r| ==> r[i] == Read(threads[i], clocks[i])
  {
    seq(|threads|, i requires 0 <= i < |threads| => Read(threads[i], clocks[i]))
  }

  function PopCount(n: nat): nat
  {
    if n == 0 then 0 else n % 2 + PopCount(n / 2)
  }

  lemma {:induction false} PopCountOne(n: nat)
    ensures PopCount(n) == 0 <==> n == 0
    ensures PopCount(n) == 1 <==> PowerOfTwo(n)
  {
    if n > 1 {
      PopCountOne(n / 2);
    }
  }

  class RaceRecordObject {
    var readClock: array<nat>
    var thread: array<nat>
    var numReads: nat
    var isAtomic: bool
    var writeThread: nat
    var writeClock: nat

    ghost predicate Valid()
      reads this, thread, readClock
    {
      && readClock != thread && readClock.Length == thread.Length && numReads <= thread.Length
      && Fits(View())
    }

    ghost function View(): RaceRecord
      requires readClock.Length == thread.Length && numReads <= thread.Length
      reads this, thread, readClock
    {
      RaceRecord(Zipped(thread[..numReads], readClock[..numReads]), thread.Length, isAtomic, writeThread, writeClock)
    }

    /** expandRecord; arrays of length zero stand for null pointers. */
    constructor Expand(shadowval: nat)
      requires ValidCell(Word(shadowval))
      ensures Valid() && View() == ShadowWords.Expand(shadowval)
      ensures fresh(readClock) && fresh(thread)
    {
      var n := if ReadVector(shadowval) != 0 then 1 else 0;
      var clocks := new nat[if n == 0 then 0 else INITCAPACITY](i => ReadVector(shadowval));
      var threads := new nat[if n == 0 then 0 else INITCAPACITY](i => RdThreadId(shadowval));
      readClock, thread, numReads := clocks, threads, n;
      isAtomic := AtomicBit(shadowval) != 0;
      writeThread, writeClock := WrThreadId(shadowval), WriteVector(shadowval);
      new;
      ExpandKeeps(shadowval);
      assert Zipped(threads[..n], clocks[..n]) == ShadowWords.Expand(shadowval).readers;
    }

    /** Moves the reads that stay to the front. */
    method Shorten(tid: nat, currClock: Clocks) returns (copytoindex: nat)
      requires Valid()
      modifies thread, readClock
      ensures copytoindex <= numReads
      ensures Zipped(thread[..copytoindex], readClock[..copytoindex]) == Unsubsumed(old(View()).readers, currClock, tid)
    {
      hide MayRace, Unsubsumed, Fits;
      ghost var readers := View().readers;
      copytoindex := 0;
      UnsubsumedNone(currClock, tid);
      assert readers[..0] == [];
      for i := 0 to numReads
        invariant copytoindex <= i
        invariant Zipped(thread[..copytoindex], readClock[..copytoindex]) == Unsubsumed(readers[..i], currClock, tid)
        invariant forall k :: i <= k < numReads ==> Read(thread[k], readClock[k]) == readers[k]
      {
        assert readers[..i + 1] == readers[..i] + [readers[i]];
        UnsubsumedSnoc(readers[..i], readers[i], currClock, tid);
        ghost var kept := Zipped(thread[..copytoindex], readClock[..copytoindex]);
        if MayRace(currClock, tid, readClock[i], thread[i]) {
          if copytoindex != i {
            readClock[copytoindex] := readClock[i];
            thread[copytoindex] := thread[i];
          }
          copytoindex := copytoindex + 1;
          assert Zipped(thread[..copytoindex], readClock[..copytoindex]) == kept + [readers[i]];
        }
      }
      assert readers[..numReads] == readers;
    }

    /** Makes room for one more read after the first `copytoindex`. */
    method Grow(copytoindex: nat)
      requires readClock != thread && readClock.Length == thread.Length && copytoindex <= thread.Length
      modifies this`thread, this`readClock
      ensures readClock != thread && readClock.Length == thread.Length == Grown(old(thread.Length), copytoindex)
      ensures copytoindex <= thread.Length
      ensures thread[..copytoindex] == old(thread[..copytoindex]) && readClock[..copytoindex] == old(readClock[..copytoindex])
      ensures thread == old(thread) || fresh(thread)
      ensures readClock == old(readClock) || fresh(readClock)
    {
      PopCountOne(copytoindex);
      if PopCount(copytoindex) <= 1 {
        if copytoindex == 0 {
          thread := new nat[INITCAPACITY];
          readClock := new nat[INITCAPACITY];
        } else if copytoindex >= INITCAPACITY {
          var newCapacity := copytoindex * 2;
          var newthread := new nat[newCapacity];
          var newreadClock := new nat[newCapacity];
          forall k | 0 <= k < copytoindex {
            newthread[k] := thread[k];
          }
          forall k | 0 <= k < copytoindex {
            newreadClock[k] := readClock[k];
          }
          readClock, thread := newreadClock, newthread;
        }
      }
    }

    /** A read: subsumed reads are dropped in place, the arrays grow when a power of two is full. */
    method FullRaceCheckRead(tid: nat, currClock: Clocks) returns (race: bool)
      requires Valid()
      modifies this, thread, readClock
      ensures Valid() && View() == RecordRead(old(View()), currClock, tid)
      ensures race <==> MayRace(currClock, tid, old(writeClock), old(writeThread))
      ensures thread == old(thread) || fresh(thread)
      ensures readClock == old(readClock) || fresh(readClock)
    {
      hide MayRace, Unsubsumed, Fits, Grown;
      ghost var before := View();
      race := MayRace(currClock, tid, writeClock, writeThread);
      var copytoindex := Shorten(tid, currClock);
      ghost var kept := Zipped(thread[..copytoindex], readClock[..copytoindex]);
      ReadFits(before, currClock, tid);
      Grow(copytoindex);
      thread[copytoindex] := tid;
      readClock[copytoindex] := GetClock(currClock, tid);
      numReads := copytoindex + 1;
      assert Zipped(thread[..numReads], readClock[..numReads]) == kept + [Read(tid, GetClock(currClock, tid))];
    }

    /** A write: compared with the reads and the last write, up to the first race found. */
    method FullRaceCheckWrite(tid: nat, currClock: Clocks) returns (race: bool)
      requires Valid()
      modifies this
      ensures Valid() && View() == RecordWrite(old(View()), currClock, tid, false)
      ensures race <==> CellReports(Record(old(View())), currClock, tid, true)
      ensures thread == old(thread) && readClock == old(readClock)
    {
      race := Compare(tid, currClock);
      Overwrite(tid, currClock, false);
    }

    /** An atomic write: not compared after an atomic one. */
    method AtomFullRaceCheckWrite(tid: nat, currClock: Clocks) returns (race: bool)
      requires Valid()
      modifies this
      ensures Valid() && View() == RecordWrite(old(View()), currClock, tid, true)
      ensures race <==> AtomicReports(Record(old(View())), currClock, tid, true)
      ensures thread == old(thread) && readClock == old(readClock)
    {
      race := false;
      if !isAtomic {
        race := Compare(tid, currClock);
      }
      Overwrite(tid, currClock, true);
    }

    /** An atomic read changes nothing. */
    method AtomFullRaceCheckRead(tid: nat, currClock: Clocks) returns (race: bool)
      requires Valid()
      ensures race <==> AtomicReports(Record(View()), currClock, tid, false)
    {
      if isAtomic {
        return false;
      }
      race := MayRace(currClock, tid, writeClock, writeThread);
    }

    /** The reads up to the first race, and then the last write. */
    method Compare(tid: nat, currClock: Clocks) returns (race: bool)
      requires Valid()
      ensures race <==> CellReports(Record(View()), currClock, tid, true)
    {
      ghost var before := View();
      TimedRaces(before.readers, currClock, tid);
      race := false;
      var i := 0;
      while i < numReads && !race
        invariant i <= numReads
        invariant race <==> exists k :: 0 <= k < i && MayRace(currClock, tid, before.readers[k].clock, before.readers[k].thread)
      {
        race := MayRace(currClock, tid, readClock[i], thread[i]);
        assert Read(thread[i], readClock[i]) == before.readers[i];
        i := i + 1;
      }
      if !race {
        race := MayRace(currClock, tid, writeClock, writeThread);
      }
    }

    method Overwrite(tid: nat, currClock: Clocks, atomic: bool)
      requires Valid()
      modifies this`numReads, this`writeThread, this`isAtomic, this`writeClock
      ensures Valid() && View() == RecordWrite(old(View()), currClock, tid, atomic)
    {
      numReads := 0;
      writeThread := tid;
      isAtomic := atomic;
      writeClock := GetClock(currClock, tid);
      assert Zipped(thread[..0], readClock[..0]) == [];
    }
  }

  lemma UnsubsumedNone(cv: Clocks, thread: nat)
    ensures Unsubsumed([], cv, thread) == []
  {
  }

  /** Room for the new read, and the invariant afterwards. */
  lemma ReadFits(r: RaceRecord, cv: Clocks, thread: nat)
    requires Fits(r)
    ensures var kept := |Unsubsumed(r.readers, cv, thread)|;
            && kept <= r.capacity && kept < Grown(r.capacity, kept)
            && Fits(RecordRead(r, cv, thread))
  {
    GrownFits(r.capacity, |Unsubsumed(r.readers, cv, thread)|);
  }

  lemma {:induction false} TimedRaces(readers: seq<Read>, cv: Clocks, thread: nat)
    ensures (exists i :: 0 <= i < |Timed(readers)| && MayRace(cv, thread, Timed(readers)[i].clock, Timed(readers)[i].thread)) <==>
            (exists i :: 0 <= i < |readers| && MayRace(cv, thread, readers[i].clock, readers[i].thread))
  {
    if readers != [] {
      hide MayRace;
      var n := |readers| - 1;
      var last := readers[n];
      NeverRaces(last, cv, thread);
      TimedRaces(readers[..n], cv, thread);
      var t := Timed(readers[..n]);
      if i :| 0 <= i < |readers| && MayRace(cv, thread, readers[i].clock, readers[i].thread) {
        if i < n {
          assert readers[..n][i] == readers[i];
          var k :| 0 <= k < |t| && MayRace(cv, thread, t[k].clock, t[k].thread);
          assert Timed(readers)[k] == t[k];
        } else {
          assert Timed(readers)[|t|] == last;
        }
      }
      if i :| 0 <= i < |Timed(readers)| && MayRace(cv, thread, Timed(readers)[i].clock, Timed(readers)[i].thread) {
        if i < |t| {
          assert Timed(readers)[i] == t[i];
          var k :| 0 <= k < n && MayRace(cv, thread, readers[..n][k].clock, readers[..n][k].thread);
          assert readers[k] == readers[..n][k];
        } else {
          assert readers[n] == last;
        }
      }
    }
  }
}
