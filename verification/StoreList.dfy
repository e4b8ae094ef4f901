/**
 The list of the stores committed to one word, and the stores it leaves out: a store
 whose bytes are already there is dropped.
 */
module StoreList {
  import opened Wrappers
  import opened Memory

  /** `w` lies inside `prior` and writes the bytes that `prior` wrote there. */
  predicate Repeats(prior: Write, w: Write)
  {
    && prior.loc <= w.loc && w.loc + |w.bytes| <= prior.loc + |prior.bytes|
    && prior.bytes[w.loc - prior.loc..w.loc - prior.loc + |w.bytes|] == w.bytes
  }

  /** The newest store of the list that overlaps `w` repeats it. */
  ghost predicate Subsumed(ws: seq<Write>, w: Write)
  {
    ws != [] &&
    var prior := ws[|ws| - 1];
    if Overlaps(w.loc, |w.bytes|, prior) then Repeats(prior, w) else Subsumed(ws[..|ws| - 1], w)
  }

  /** `prior` writes every byte that `w` writes, and the same ones. */
  ghost predicate HasBytesOf(prior: Write, w: Write)
  {
    && prior.loc <= w.loc && w.loc + |w.bytes| <= prior.loc + |prior.bytes|
    && forall a: nat :: w.Covers(a) ==> prior.At(a) == w.At(a)
  }

  lemma RepeatsBytes(prior: Write, w: Write)
    ensures Repeats(prior, w) <==> HasBytesOf(prior, w)
  {
    if prior.loc <= w.loc && w.loc + |w.bytes| <= prior.loc + |prior.bytes| {
      var part := prior.bytes[w.loc - prior.loc..w.loc - prior.loc + |w.bytes|];
      if HasBytesOf(prior, w) {
        forall i | 0 <= i < |w.bytes|
          ensures part[i] == w.bytes[i]
        {
          assert w.Covers(w.loc + i) && prior.At(w.loc + i) == w.At(w.loc + i);
        }
      }
      if Repeats(prior, w) {
        forall a: nat | w.Covers(a)
          ensures prior.At(a) == w.At(a)
        {
          assert part[a - w.loc] == w.bytes[a - w.loc];
        }
      }
    }
  }

  /** A store is dropped exactly if some store of the list already wrote its bytes and none after that overlaps it. */
  lemma {:induction false} SubsumedExactly(ws: seq<Write>, w: Write)
    ensures Subsumed(ws, w) <==>
            exists i :: 0 <= i < |ws| && Overlaps(w.loc, |w.bytes|, ws[i]) && HasBytesOf(ws[i], w)
                        && forall k :: i < k < |ws| ==> !Overlaps(w.loc, |w.bytes|, ws[k])
  {
    if ws != [] {
      var n := |ws| - 1;
      RepeatsBytes(ws[n], w);
      if !Overlaps(w.loc, |w.bytes|, ws[n]) {
        SubsumedExactly(ws[..n], w);
        assert forall i :: 0 <= i < n ==> ws[..n][i] == ws[i];
      }
    }
  }

  ghost function AddStore(ws: seq<Write>, w: Write): seq<Write>
  {
    if Subsumed(ws, w) then ws else ws + [w]
  }

  /** A dropped store would not have changed what any read, before or after a crash, finds. */
  lemma {:induction false} SubsumedSameByte(ws: seq<Write>, w: Write, a: nat, p: nat)
    requires Subsumed(ws, w) && w.Covers(a) && w.clock <= p && forall x :: x in ws ==> x.clock <= w.clock
    ensures ByteUpTo(ws, a, p) == Some(w.At(a))
  {
    var n := |ws| - 1;
    var prior := ws[n];
    assert ws == ws[..n] + [prior];
    LastCoveringAppend(ws[..n], prior, a, p);
    if Overlaps(w.loc, |w.bytes|, prior) {
      assert w.bytes[a - w.loc] == prior.bytes[w.loc - prior.loc..w.loc - prior.loc + |w.bytes|][a - w.loc];
    } else {
      SubsumedSameByte(ws[..n], w, a, p);
    }
  }

  /** The kept list and the full history supply the same bytes at every point. */
  ghost predicate SameBytes(kept: seq<Write>, full: seq<Write>, a: nat)
  {
    forall p: nat :: ByteUpTo(kept, a, p) == ByteUpTo(full, a, p)
  }

  lemma AddStoreSameBytes(kept: seq<Write>, full: seq<Write>, w: Write, a: nat)
    requires SameBytes(kept, full, a) && forall x :: x in kept ==> x.clock <= w.clock
    ensures SameBytes(AddStore(kept, w), full + [w], a)
  {
    forall p: nat
      ensures ByteUpTo(AddStore(kept, w), a, p) == ByteUpTo(full + [w], a, p)
    {
      AddStoreByte(kept, w, a, p);
      LastCoveringAppend(full, w, a, p);
    }
  }

  lemma AddStoreByte(kept: seq<Write>, w: Write, a: nat, p: nat)
    requires forall x :: x in kept ==> x.clock <= w.clock
    ensures ByteUpTo(AddStore(kept, w), a, p) ==
            if w.Covers(a) && w.clock <= p then Some(w.At(a)) else ByteUpTo(kept, a, p)
  {
    if Subsumed(kept, w) {
      if w.Covers(a) && w.clock <= p {
        SubsumedSameByte(kept, w, a, p);
      }
    } else {
      LastCoveringAppend(kept, w, a, p);
    }
  }
}
