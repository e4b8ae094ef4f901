/**
 Stores, the words and cache lines they fall into, and the question every read of
 the checker comes down to: which store of a list supplies a given byte when only
 the stores up to some sequence number count.
 */
module Memory {
  import opened Wrappers

  newtype Byte = x: int | 0 <= x < 256

  const WORD_SIZE: nat := 8
  const CACHE_LINE_SIZE: nat := 64

  /** First address of the 8-byte word holding `a`; write lists are keyed by it. */
  function AlignAddress(a: nat): nat
  {
    a - a % WORD_SIZE
  }

  /** First address of the 64-byte cache line holding `a`. */
  function CacheId(a: nat): nat
  {
    a - a % CACHE_LINE_SIZE
  }

  /**
   A store. Its value is kept as its little-endian bytes, so its size is their number.
   `clock` is its sequence number, 0 until the store leaves its store buffer. `isInit`
   marks initialization stores; the one the checker itself makes for the original
   contents of a word keeps sequence number 0.
   */
  datatype Write = Write(loc: nat, bytes: seq<Byte>, clock: nat, isInit: bool)
  {
    ghost predicate Covers(a: nat)
    {
      loc <= a < loc + |bytes|
    }

    function At(a: nat): Byte
      requires Covers(a)
    {
      bytes[a - loc]
    }
  }

  /** A non-empty access that stays inside one word. */
  ghost predicate InWord(loc: nat, size: nat)
  {
    0 < size && loc % WORD_SIZE + size <= WORD_SIZE
  }

  ghost predicate Overlaps(loc: nat, size: nat, w: Write)
  {
    !(w.loc >= loc + size || loc >= w.loc + |w.bytes|)
  }

  lemma AlignFacts(loc: nat)
    ensures AlignAddress(loc) <= loc < AlignAddress(loc) + WORD_SIZE
    ensures InWord(AlignAddress(loc), WORD_SIZE) && AlignAddress(AlignAddress(loc)) == AlignAddress(loc)
  {
  }

  /** Every byte of an access inside one word has that word and that line. */
  lemma SameWordSameLine(loc: nat, size: nat, a: nat)
    requires InWord(loc, size) && loc <= a < loc + size
    ensures AlignAddress(a) == AlignAddress(loc)
    ensures CacheId(a) == CacheId(loc) == CacheId(AlignAddress(loc))
  {
    var q := loc / WORD_SIZE;
    assert loc == q * WORD_SIZE + loc % WORD_SIZE;
    assert a == q * WORD_SIZE + (a - q * WORD_SIZE);
    assert a / WORD_SIZE == q;
    WordInLine(loc);
    WordInLine(a);
  }

  lemma WordInLine(a: nat)
    ensures CacheId(AlignAddress(a)) == CacheId(a)
  {
    var q, r := a / CACHE_LINE_SIZE, a % CACHE_LINE_SIZE;
    assert a == q * CACHE_LINE_SIZE + r;
    var b := AlignAddress(a);
    assert a % WORD_SIZE == r % WORD_SIZE;
    assert b == q * CACHE_LINE_SIZE + (r - r % WORD_SIZE);
    assert b / CACHE_LINE_SIZE == q;
  }

  /** Sequence numbers strictly increase along the list. */
  ghost predicate Sorted(ws: seq<Write>)
  {
    forall i, j :: 0 <= i < j < |ws| ==> ws[i].clock < ws[j].clock
  }

  /** The newest store of `ws` that covers `a` and has a sequence number of at most `p`. */
  ghost function LastCovering(ws: seq<Write>, a: nat, p: nat): (r: Option<Write>)
    ensures r.Some? ==> r.value in ws && r.value.Covers(a) && r.value.clock <= p
  {
    if ws == [] then None
    else
      var later := LastCovering(ws[1..], a, p);
      if later.Some? then later
      else if ws[0].Covers(a) && ws[0].clock <= p then Some(ws[0])
      else None
  }

  lemma {:induction false} LastCoveringNone(ws: seq<Write>, a: nat, p: nat)
    ensures LastCovering(ws, a, p).None? <==> forall w :: w in ws && w.Covers(a) ==> p < w.clock
  {
    if ws == [] {
    } else {
      LastCoveringNone(ws[1..], a, p);
      assert forall w :: w in ws <==> w == ws[0] || w in ws[1..];
    }
  }

  /** Position `i` supplies the byte exactly when `p` lies from its number up to the next covering store. */
  lemma {:induction false} LastCoveringHit(ws: seq<Write>, i: nat, a: nat, p: nat)
    requires Sorted(ws) && i < |ws| && ws[i].Covers(a)
    ensures LastCovering(ws, a, p) == Some(ws[i]) <==>
            ws[i].clock <= p && forall j :: i < j < |ws| && ws[j].Covers(a) ==> p < ws[j].clock
  {
    var rest := ws[1..];
    if i == 0 {
      LastCoveringNone(rest, a, p);
      assert forall w :: w in rest ==> exists j :: 1 <= j < |ws| && ws[j] == w;
      assert forall j :: 1 <= j < |ws| ==> ws[j] == rest[j - 1] && ws[j] in rest;
    } else {
      LastCoveringHit(rest, i - 1, a, p);
      assert rest[i - 1] == ws[i];
      assert forall j :: 1 <= j < |ws| ==> ws[j] == rest[j - 1];
      assert ws[0].clock < ws[i].clock;
    }
  }

  lemma {:induction false} LastCoveringAtLeast(ws: seq<Write>, w: Write, a: nat, p: nat)
    requires Sorted(ws) && w in ws && w.Covers(a) && w.clock <= p
    ensures LastCovering(ws, a, p).Some? && w.clock <= LastCovering(ws, a, p).value.clock
  {
    if w in ws[1..] {
      LastCoveringAtLeast(ws[1..], w, a, p);
    } else {
      assert forall x :: x in ws[1..] ==> exists j :: 1 <= j < |ws| && ws[j] == x;
    }
  }

  lemma {:induction false} LastCoveringAppend(ws: seq<Write>, w: Write, a: nat, p: nat)
    ensures LastCovering(ws + [w], a, p) ==
            if w.Covers(a) && w.clock <= p then Some(w) else LastCovering(ws, a, p)
  {
    if ws == [] {
      assert LastCovering([], a, p) == None;
    } else {
      LastCoveringAppend(ws[1..], w, a, p);
      assert (ws + [w])[1..] == ws[1..] + [w];
    }
  }

  /** Two bounds with no covering store between them select the same store. */
  lemma {:induction false} LastCoveringBetween(ws: seq<Write>, a: nat, p: nat, q: nat)
    requires forall w :: w in ws && w.Covers(a) ==> (w.clock <= p <==> w.clock <= q)
    ensures LastCovering(ws, a, p) == LastCovering(ws, a, q)
  {
    if ws == [] {
    } else {
      LastCoveringBetween(ws[1..], a, p, q);
      assert ws[0] in ws;
    }
  }

  /** The byte that `LastCovering` supplies. */
  ghost function ByteUpTo(ws: seq<Write>, a: nat, p: nat): Option<Byte>
  {
    match LastCovering(ws, a, p)
    case Some(w) => Some(w.At(a))
    case None => None
  }
}
