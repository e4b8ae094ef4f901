/** Vector clocks, as the object that synchronization updates. */
module ClockVectors {
  import opened Races

  function Max(a: nat, b: nat): nat
  {
    if a < b then b else a
  }

  class ClockVector {
    var clock: Clocks

    constructor ()
      ensures clock == []
    {
      clock := [];
    }

    /** Zeros up to `length`. */
    method Extend(length: nat)
      modifies this
      ensures |clock| == Max(|old(clock)|, length)
      ensures forall t: nat :: GetClock(clock, t) == GetClock(old(clock), t)
    {
      while |clock| < length
        invariant |old(clock)| <= |clock| <= Max(|old(clock)|, length)
        invariant forall t: nat :: GetClock(clock, t) == GetClock(old(clock), t)
      {
        clock := clock + [0];
      }
    }

    /** The least vector above both; true if a clock moved. */
    method Merge(cv: Clocks) returns (changed: bool)
      modifies this
      ensures forall t: nat :: GetClock(clock, t) == Max(GetClock(old(clock), t), GetClock(cv, t))
      ensures changed <==> exists t: nat :: GetClock(old(clock), t) < GetClock(cv, t)
    {
      changed := false;
      Extend(|cv|);
      for i := 0 to |cv|
        invariant |cv| <= |clock|
        invariant forall t: nat :: GetClock(clock, t) ==
                                   if t < i then Max(GetClock(old(clock), t), GetClock(cv, t)) else GetClock(old(clock), t)
        invariant changed <==> exists t: nat :: t < i && GetClock(old(clock), t) < GetClock(cv, t)
      {
        if cv[i] > clock[i] {
          clock := clock[i := cv[i]];
          changed := true;
          assert GetClock(old(clock), i) < GetClock(cv, i);
        }
      }
    }

    method SetClock(thread: nat, mclock: nat)
      modifies this
      ensures forall t: nat :: GetClock(clock, t) == if t == thread then mclock else GetClock(old(clock), t)
    {
      Extend(thread + 1);
      clock := clock[thread := mclock];
    }

    /** Whether the owner has synchronized with the action `seqNumber` of `thread`. */
    predicate SynchronizedSince(thread: nat, seqNumber: nat): (r: bool)
      reads this
      ensures seqNumber > 0 ==> (r <==> seqNumber <= GetClock(clock, thread))
    {
      thread < |clock| && seqNumber <= clock[thread]
    }
  }
}
