/**
 The bins of large free chunks: the index of the bin of a size, and the bitwise tries of
 the bins, in which chunks of one size hang in a ring off one node.
 */
module TreeBins {
  import opened Arithmetic

  const TREEBIN_SHIFT: nat := 8
  const NTREEBINS: nat := 32
  const SIZE_T_BITSIZE: nat := 64
  /** Sizes are below this. */
  const SIZE_LIMIT: nat := 0x1_0000_0000_0000_0000
  const TOP_BIT: nat := 0x8000_0000_0000_0000

  function Pow2(n: nat): (p: nat)
    ensures p > 0
  {
    if n == 0 then 1 else 2 * Pow2(n - 1)
  }

  lemma {:induction false} Pow2Add(a: nat, b: nat)
    ensures Pow2(a + b) == Pow2(a) * Pow2(b)
  {
    if a > 0 {
      Pow2Add(a - 1, b);
    }
  }

  lemma {:induction false} Pow2Monotone(a: nat, b: nat)
    requires a <= b
    ensures Pow2(a) <= Pow2(b)
  {
    if a < b {
      Pow2Monotone(a, b - 1);
    }
  }

  lemma Pow2Values()
    ensures Pow2(8) == 256 && Pow2(16) == 65536 && Pow2(32) == 0x1_0000_0000
    ensures Pow2(63) == TOP_BIT && Pow2(64) == SIZE_LIMIT
  {
    assert Pow2(8) == 256;
    Pow2Add(8, 8);
    Pow2Add(16, 16);
    Pow2Add(32, 32);
    assert Pow2(64) == 2 * Pow2(63);
  }

  // ----- The index of a size -----

  /** The position of the highest set bit. */
  function HighBit(x: nat): (k: nat)
    requires x > 0
    ensures Pow2(k) <= x < Pow2(k + 1)
  {
    if x == 1 then 0 else HighBit(x / 2) + 1
  }

  /** compute_tree_index; the shifted size is held in 32 bits. */
  function ComputeTreeIndex(s: nat): nat
  {
    var x := s / Pow2(TREEBIN_SHIFT) % 0x1_0000_0000;
    if x == 0 then 0
    else if x > 0xFFFF then NTREEBINS - 1
    else
      var k := HighBit(x);
      2 * k + s / Pow2(k + (TREEBIN_SHIFT - 1)) % 2
  }

  /** The size of the smallest chunk of a bin, by the highest bit and the one below it. */
  function SizeOfBits(k: nat, bit: nat): nat
  {
    Pow2(k + TREEBIN_SHIFT) + if bit == 1 then Pow2(k + TREEBIN_SHIFT - 1) else 0
  }

  function MinSize(i: nat): nat
  {
    SizeOfBits(i / 2, i % 2)
  }

  lemma Parts(k: nat, bit: nat)
    requires bit < 2
    ensures (2 * k + bit) / 2 == k && (2 * k + bit) % 2 == bit
    ensures (2 * k + bit + 1) / 2 == k + bit && (2 * k + bit + 1) % 2 == 1 - bit
  {
  }

  /** Bin 2k + bit begins at the size with these bits and spans half a power of two. */
  lemma BinSpan(k: nat, bit: nat)
    requires bit < 2
    ensures MinSize(2 * k + bit) == SizeOfBits(k, bit)
    ensures MinSize(2 * k + bit + 1) == SizeOfBits(k, bit) + Pow2(k + 7)
  {
    Parts(k, bit);
    hide *;
    Doubles(k + 7);
    BinSpanParts(k, bit, 2 * k + bit, 2 * k + bit + 1);
  }

  lemma Doubles(n: nat)
    ensures Pow2(n + 1) == 2 * Pow2(n)
  {
  }

  lemma BinSpanParts(k: nat, bit: nat, i: nat, j: nat)
    requires bit < 2 && i / 2 == k && i % 2 == bit && j / 2 == k + bit && j % 2 == 1 - bit
    ensures MinSize(i) == SizeOfBits(k, bit) && MinSize(j) == SizeOfBits(k, bit) + Pow2(k + 7)
  {
    Doubles(k + 7);
  }

  lemma MinSizeNext(i: nat)
    ensures MinSize(i + 1) == MinSize(i) + Pow2(i / 2 + 7)
  {
    hide MinSize, SizeOfBits;
    BinSpan(i / 2, i % 2);
    assert 2 * (i / 2) + i % 2 == i;
  }

  lemma {:induction false} MinSizeMonotone(i: nat, j: nat)
    requires i < j
    ensures MinSize(i) < MinSize(j)
  {
    MinSizeNext(j - 1);
    if i < j - 1 {
      MinSizeMonotone(i, j - 1);
    }
  }

  lemma HighBitUnder(x: nat)
    requires 0 < x <= 0xFFFF
    ensures HighBit(x) <= 15
  {
    if HighBit(x) >= 16 {
      Pow2Monotone(16, HighBit(x));
      Pow2Values();
    }
  }

  /** Shifted sizes keep their highest bit. */
  lemma ScaledBounds(s: nat, x: nat, k: nat)
    requires x == s / 256 && Pow2(k) <= x < Pow2(k + 1)
    ensures Pow2(k + 8) <= s < Pow2(k + 9)
  {
    Pow2Add(k, 8);
    Pow2Add(k + 1, 8);
    Pow2Values();
    assert 256 * x <= s < 256 * (x + 1);
  }

  /** The bit below the highest tells the halves of [2h, 4h) apart. */
  lemma SecondBit(s: nat, h: nat)
    requires h > 0 && 2 * h <= s < 4 * h
    ensures s / h % 2 == if s >= 3 * h then 1 else 0
  {
    Divides(s, h, if s >= 3 * h then 3 else 2);
  }

  lemma Divides(s: nat, h: nat, q: nat)
    requires h > 0 && q * h <= s < (q + 1) * h
    ensures s / h == q
  {
    Quotient(s, h, q, s - q * h);
  }

  lemma IndexOfBits(s: nat, x: nat)
    requires x == s / 256 % 0x1_0000_0000
    ensures x == 0 ==> ComputeTreeIndex(s) == 0
    ensures x > 0xFFFF ==> ComputeTreeIndex(s) == NTREEBINS - 1
    ensures 0 < x <= 0xFFFF ==> ComputeTreeIndex(s) == 2 * HighBit(x) + s / Pow2(HighBit(x) + 7) % 2
  {
    Pow2Values();
  }

  lemma ShiftIn32(s: nat)
    requires 256 <= s < 0x100_0000_0000
    ensures 0 < s / 256 && s / 256 % 0x1_0000_0000 == s / 256
    ensures s / 256 > 0xFFFF ==> s >= 0x100_0000
  {
  }

  /** The size lies in the interval of its bin. */
  lemma IndexBounds(s: nat)
    requires 256 <= s < 0x100_0000_0000
    ensures var i := ComputeTreeIndex(s);
            i < NTREEBINS && MinSize(i) <= s && (i < NTREEBINS - 1 ==> s < MinSize(i + 1))
  {
    hide Pow2, MinSize, ComputeTreeIndex, HighBit;
    var x := s / 256;
    ShiftIn32(s);
    IndexOfBits(s, x);
    if x > 0xFFFF {
      LastBin(s);
    } else {
      ShortIndex(s, x);
    }
  }

  lemma ShortIndex(s: nat, x: nat)
    requires 0 < x <= 0xFFFF && x == s / 256
    ensures var k := HighBit(x);
            var i := 2 * k + s / Pow2(k + 7) % 2;
            i < NTREEBINS && MinSize(i) <= s < MinSize(i + 1)
  {
    hide Pow2, MinSize;
    var k := HighBit(x);
    HighBitUnder(x);
    ScaledBounds(s, x, k);
    Doubles(k + 7);
    Doubles(k + 8);
    var h := Pow2(k + 7);
    SecondBit(s, h);
    HalfBin(s, k, if s >= 3 * h then 1 else 0, h);
  }

  lemma HalfBin(s: nat, k: nat, bit: nat, h: nat)
    requires k <= 15 && h == Pow2(k + 7) && 2 * h <= s < 4 * h && bit == if s >= 3 * h then 1 else 0
    ensures 2 * k + bit < NTREEBINS && MinSize(2 * k + bit) <= s < MinSize(2 * k + bit + 1)
  {
    hide MinSize, Pow2;
    BinSpan(k, bit);
    Doubles(k + 7);
  }

  lemma LastBin(s: nat)
    requires s >= 0x100_0000
    ensures MinSize(NTREEBINS - 1) <= s
  {
    Pow2Values();
    Pow2Add(16, 7);
    Pow2Add(16, 6);
    assert Pow2(7) == 128 && Pow2(6) == 64;
  }

  /** Larger sizes are in later bins. */
  lemma IndexMonotone(s: nat, t: nat)
    requires 256 <= s <= t < 0x100_0000_0000
    ensures ComputeTreeIndex(s) <= ComputeTreeIndex(t)
  {
    IndexBounds(s);
    IndexBounds(t);
    var i, j := ComputeTreeIndex(s), ComputeTreeIndex(t);
    if j < i {
      if j + 1 < i {
        MinSizeMonotone(j + 1, i);
      }
    }
  }

  /** Bit 22 of a size is bit 14 of the shifted size, with or without the cut to 32 bits. */
  lemma KeptBit(s: nat)
    ensures s / 0x40_0000 % 2 == s / 256 % 0x1_0000_0000 / 0x4000 % 2
  {
    var y := s / 256;
    var q, x := y / 0x1_0000_0000, y % 0x1_0000_0000;
    var a := x / 0x4000;
    var c := q * 0x4_0000 + a;
    assert x == a * 0x4000 + x % 0x4000;
    assert c * 0x4000 <= y < (c + 1) * 0x4000;
    assert c * 0x40_0000 <= s < (c + 1) * 0x40_0000;
    Divides(s, 0x40_0000, c);
    Divides(c, 2, c / 2);
    assert c == 2 * (q * 0x2_0000) + a;
  }

  ghost predicate InBin(s: nat, i: nat)
  {
    MinSize(i) <= s && (i < NTREEBINS - 1 ==> s < MinSize(i + 1))
  }

  lemma NotInEarlierBin(s: nat, i: nat)
    requires s >= 0x100_0000 && i < NTREEBINS - 1
    ensures !InBin(s, i)
  {
    LastBin(s);
    if i + 1 < NTREEBINS - 1 {
      MinSizeMonotone(i + 1, NTREEBINS - 1);
    }
  }

  lemma TopIndex(s: nat, x: nat)
    requires x == s / 256 % 0x1_0000_0000 && 0 < x <= 0xFFFF
    ensures ComputeTreeIndex(s) <= NTREEBINS - 1
    ensures ComputeTreeIndex(s) == NTREEBINS - 1 <==> x >= 0xC000
  {
    hide Pow2, ComputeTreeIndex;
    IndexOfBits(s, x);
    HighBitUnder(x);
    Pow2Bits();
    var k := HighBit(x);
    if k < 15 {
      Pow2Monotone(k + 1, 15);
    } else {
      KeptBit(s);
      SecondBit(x, 0x4000);
    }
  }

  lemma Pow2Bits()
    ensures Pow2(15) == 0x8000 && Pow2(16) == 0x1_0000 && Pow2(22) == 0x40_0000
  {
    Pow2Values();
    Pow2Add(15, 1);
    assert Pow2(1) == 2;
    Pow2Add(16, 6);
    assert Pow2(6) == 64;
  }

  /** From 2^40 on the 32-bit shift loses bits: the bin is right exactly when the bits left give the last bin. */
  lemma HugeIndexExact(s: nat)
    requires 0x100_0000_0000 <= s < SIZE_LIMIT
    ensures InBin(s, ComputeTreeIndex(s)) <==> s / 256 % 0x1_0000_0000 >= 0xC000
  {
    hide InBin, MinSize, ComputeTreeIndex;
    var x := s / 256 % 0x1_0000_0000;
    var i := ComputeTreeIndex(s);
    if 0 < x <= 0xFFFF {
      TopIndex(s, x);
    } else {
      IndexOfBits(s, x);
    }
    if i < NTREEBINS - 1 {
      NotInEarlierBin(s, i);
    } else {
      LastBin(s);
      InLastBin(s);
    }
  }

  lemma InLastBin(s: nat)
    requires MinSize(NTREEBINS - 1) <= s
    ensures InBin(s, NTREEBINS - 1)
  {
  }
}
