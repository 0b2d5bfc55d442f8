/** Where a hash falls in a binary fuse filter: the portable high multiply, the three
    slots, and the two ways the source computes them. */
module FuseGeometry {
  import opened DivMod
  import opened Bits

  const TWO_18: nat := 0x4_0000
  const TWO_36: nat := 0x10_0000_0000

  lemma ProductBound(x: nat, y: nat, m: nat, n: nat)
    requires x <= m && y <= n
    ensures 0 <= x * y <= m * n
  {
    MulNonNegative(x, y);
    MulNonNegative(m - x, n);
    MulNonNegative(x, n - y);
    assert m * n - x * y == (m - x) * n + x * (n - y);
  }

  lemma HalfProduct(x: nat, y: nat)
    requires x < TWO_32 && y < TWO_32
    ensures 0 <= x * y <= (TWO_32 - 1) * (TWO_32 - 1)
  {
    ProductBound(x, y, TWO_32 - 1, TWO_32 - 1);
  }

  /** Schoolbook multiplication on 32-bit halves gives the high 64 bits of the product;
      every intermediate value fits in 64 bits. */
  function MulHi(a: uint64, b: uint64): (r: uint64)
    ensures r == (a * b) / TWO_64
  {
    var a0, a1 := a % TWO_32, a / TWO_32;
    var b0, b1 := b % TWO_32, b / TWO_32;
    HalfProduct(a1, b1);
    HalfProduct(a0, b1);
    HalfProduct(a1, b0);
    HalfProduct(a0, b0);
    var p11: uint64 := a1 * b1;
    var p01: uint64 := a0 * b1;
    var p10: uint64 := a1 * b0;
    var p00: uint64 := a0 * b0;
    var middle: uint64 := p10 + p00 / TWO_32 + p01 % TWO_32;
    Schoolbook(a0, a1, b0, b1);
    p11 + middle / TWO_32 + p01 / TWO_32
  }

  lemma Schoolbook(a0: nat, a1: nat, b0: nat, b1: nat)
    requires a0 < TWO_32 && a1 < TWO_32 && b0 < TWO_32 && b1 < TWO_32
    ensures var middle := a1 * b0 + (a0 * b0) / TWO_32 + (a0 * b1) % TWO_32;
            var high := a1 * b1 + middle / TWO_32 + (a0 * b1) / TWO_32;
            && high == ((a1 * TWO_32 + a0) * (b1 * TWO_32 + b0)) / TWO_64
            && 0 <= high < TWO_64
  {
    var p11, p01, p10, p00 := a1 * b1, a0 * b1, a1 * b0, a0 * b0;
    HalfProduct(a1, b1);
    HalfProduct(a0, b1);
    HalfProduct(a1, b0);
    HalfProduct(a0, b0);
    var middle := p10 + p00 / TWO_32 + p01 % TWO_32;
    var high := p11 + middle / TWO_32 + p01 / TWO_32;
    var low := (middle % TWO_32) * TWO_32 + p00 % TWO_32;
    var product := (a1 * TWO_32 + a0) * (b1 * TWO_32 + b0);
    assert product == p11 * TWO_64 + (p10 + p01) * TWO_32 + p00 by {
      assert product == (a1 * TWO_32) * (b1 * TWO_32) + (a1 * TWO_32) * b0 + a0 * (b1 * TWO_32) + a0 * b0;
      assert (a1 * TWO_32) * (b1 * TWO_32) == p11 * TWO_64;
      assert (a1 * TWO_32) * b0 == p10 * TWO_32;
      assert a0 * (b1 * TWO_32) == p01 * TWO_32;
    }
    assert product == high * TWO_64 + low;
    DivModUnique(product, TWO_64, high, low);
    ProductBound(a1 * TWO_32 + a0, b1 * TWO_32 + b0, TWO_64 - 1, TWO_64 - 1);
    assert high * TWO_64 <= product;
  }

  /** The shape of a filter: 2^lengthBits slots a segment. */
  datatype Geometry = Geometry(lengthBits: nat, segmentCount: nat) {
    function SegmentLength(): (r: nat)
      ensures r >= 1
    {
      Pow2(lengthBits)
    }

    function SegmentCountLength(): nat {
      segmentCount * SegmentLength()
    }

    function ArrayLength(): nat {
      (segmentCount + 2) * SegmentLength()
    }

    predicate Fits() {
      segmentCount >= 1 && ArrayLength() < TWO_32
    }

    // The sizing of a filter never gives fewer than four slots a segment.
    predicate Valid() {
      2 <= lengthBits <= 18 && Fits()
    }
  }

  datatype Slots = Slots(h0: nat, h1: nat, h2: nat)

  // `x & SegmentLengthMask` is written as the remainder modulo the power of two.
  function HashBatch(g: Geometry, hash: uint64): Slots
    requires g.Fits()
  {
    SegmentsFit(g);
    var hi := MulHi(hash, g.SegmentCountLength());
    var h0 := hi % TWO_32;
    var h1 := (h0 + g.SegmentLength()) % TWO_32;
    var h2 := (h1 + g.SegmentLength()) % TWO_32;
    Slots(h0,
          Xor(h1, ((hash / TWO_18) % TWO_32) % g.SegmentLength()),
          Xor(h2, (hash % TWO_32) % g.SegmentLength()))
  }

  /** The part of a hash that moves slot `index` within its segment: the lower 36 bits,
      shifted right by 36, 18 or 0. */
  function MaskedPart(g: Geometry, index: nat, hash: uint64): (r: nat)
    requires index <= 2
    ensures r < g.SegmentLength()
    ensures index == 0 ==> r == 0
  {
    var hh := hash % TWO_36;
    assert hh / TWO_36 == 0;
    DivModUnique(0, g.SegmentLength(), 0, 0);
    (if index == 0 then hh / TWO_36 else if index == 1 then hh / TWO_18 else hh) % g.SegmentLength()
  }

  function BinaryFuseHash(g: Geometry, index: nat, hash: uint64): nat
    requires g.Fits() && index <= 2
  {
    SegmentsFit(g);
    var h := MulHi(hash, g.SegmentCountLength()) + index * g.SegmentLength();
    Xor(h, MaskedPart(g, index, hash)) % TWO_32
  }

  lemma SegmentsFit(g: Geometry)
    requires g.Fits()
    ensures g.SegmentLength() <= g.SegmentCountLength() < g.ArrayLength() < TWO_32
    ensures g.ArrayLength() == g.SegmentCountLength() + 2 * g.SegmentLength()
  {
    MulLower(g.segmentCount, g.SegmentLength());
  }

  lemma HighPartBelow(hash: uint64, n: nat)
    requires n < TWO_64
    ensures MulHi(hash, n) < n || n == 0
  {
    if n > 0 {
      ProductBound(hash, n, TWO_64 - 1, n);
      assert hash * n < n * TWO_64;
      var q := MulHi(hash, n);
      DivModSplit(hash * n, TWO_64);
      assert (q - n) * TWO_64 == q * TWO_64 - n * TWO_64;
      if q >= n {
        MulNonNegative(q - n, TWO_64);
        assert false;
      }
    }
  }

  /** A slot moved within its segment stays in that segment. */
  lemma MovedWithinSegment(g: Geometry, base: nat, x: nat, q: nat)
    requires g.Fits() && x < g.SegmentLength()
    requires q * g.SegmentLength() <= base < (q + 1) * g.SegmentLength()
    requires q < g.segmentCount + 2
    ensures Xor(base, x) / g.SegmentLength() == q
    ensures Xor(base, x) < g.ArrayLength()
  {
    hide Xor, Pow2;
    var len := g.SegmentLength();
    assert (q + 1) * len == q * len + len;
    DivModUnique(base, len, q, base - q * len);
    XorKeepsHighBits(base, x, g.lengthBits);
    var y := Xor(base, x);
    DivModSplit(y, len);
    MulNonNegative(g.segmentCount + 1 - q, len);
    assert (g.segmentCount + 1 - q) * len == (g.segmentCount + 2) * len - (q + 1) * len;
  }

  /** The slots without the casts: none of the sums leaves 32 bits. */
  lemma HashBatchForm(g: Geometry, hash: uint64)
    requires g.Fits()
    ensures g.SegmentCountLength() < TWO_64
    ensures var h0, len := MulHi(hash, g.SegmentCountLength()), g.SegmentLength();
            && h0 < g.SegmentCountLength()
            && h0 + 2 * len < g.ArrayLength() < TWO_32
            && HashBatch(g, hash) == Slots(h0, Xor(h0 + len, ((hash / TWO_18) % TWO_32) % len),
                                           Xor(h0 + 2 * len, (hash % TWO_32) % len))
  {
    hide Xor, MulHi, Geometry.SegmentLength, Geometry.SegmentCountLength, Geometry.ArrayLength;
    SegmentsFit(g);
    HighPartBelow(hash, g.SegmentCountLength());
    var h0, len := MulHi(hash, g.SegmentCountLength()), g.SegmentLength();
    assert h0 % TWO_32 == h0;
    assert (h0 + len) % TWO_32 == h0 + len;
    assert (h0 + len + len) % TWO_32 == h0 + 2 * len;
  }

  /** The three slots of a hash lie in three consecutive segments of the array. */
  lemma SlotsAreConsecutive(g: Geometry, hash: uint64)
    requires g.Fits()
    ensures var s := HashBatch(g, hash);
            var len := g.SegmentLength();
            && s.h0 / len < g.segmentCount
            && s.h1 / len == s.h0 / len + 1
            && s.h2 / len == s.h0 / len + 2
            && s.h0 < g.ArrayLength() && s.h1 < g.ArrayLength() && s.h2 < g.ArrayLength()
  {
    hide Xor, Pow2, MulHi, HashBatch;
    HashBatchForm(g, hash);
    var len := g.SegmentLength();
    ConsecutiveSegments(g, MulHi(hash, g.SegmentCountLength()),
                        ((hash / TWO_18) % TWO_32) % len, (hash % TWO_32) % len);
  }

  lemma SlotsAreDistinct(g: Geometry, hash: uint64)
    requires g.Fits()
    ensures var s := HashBatch(g, hash);
            s.h0 != s.h1 && s.h1 != s.h2 && s.h0 != s.h2
  {
    hide HashBatch;
    SlotsAreConsecutive(g, hash);
  }

  lemma ConsecutiveSegments(g: Geometry, h0: nat, x1: nat, x2: nat)
    requires g.Fits() && h0 < g.SegmentCountLength()
    requires x1 < g.SegmentLength() && x2 < g.SegmentLength()
    ensures var len := g.SegmentLength();
            && h0 / len < g.segmentCount
            && Xor(h0 + len, x1) / len == h0 / len + 1
            && Xor(h0 + 2 * len, x2) / len == h0 / len + 2
            && Xor(h0 + len, x1) < g.ArrayLength() && Xor(h0 + 2 * len, x2) < g.ArrayLength()
  {
    hide Xor, Pow2;
    var len := g.SegmentLength();
    var q := h0 / len;
    DivModSplit(h0, len);
    QuotientBelow(h0, len, g.segmentCount);
    assert (q + 1) * len == q * len + len;
    assert (q + 2) * len == (q + 1) * len + len;
    assert (q + 3) * len == (q + 2) * len + len;
    MovedWithinSegment(g, h0 + len, x1, q + 1);
    MovedWithinSegment(g, h0 + 2 * len, x2, q + 2);
  }

  lemma ModOfMultiple(x: nat, m: nat, f: nat)
    requires m > 0 && f > 0
    ensures f * m > 0
    ensures (x % (f * m)) % m == x % m
  {
    MulLower(f, m);
    var q, r := x / (f * m), x % (f * m);
    DivModSplit(x, f * m);
    DivModSplit(r, m);
    assert q * (f * m) == (q * f) * m;
    assert (q * f + r / m) * m == (q * f) * m + (r / m) * m;
    DivModUnique(x, m, q * f + r / m, r % m);
  }

  /** A remainder by a power of two can be taken after any larger power of two. */
  lemma ModOfPower(x: nat, small: nat, big: nat)
    requires small <= big
    ensures (x % Pow2(big)) % Pow2(small) == x % Pow2(small)
  {
    hide Pow2;
    Pow2Add(big - small, small);
    ModOfMultiple(x, Pow2(small), Pow2(big - small));
  }

  lemma PowerValues()
    ensures Pow2(18) == TWO_18 && Pow2(32) == TWO_32 && Pow2(36) == TWO_36
  {
    hide Pow2;
    Pow64();
    PowDouble(16);
    PowDouble(17);
    Pow2Add(18, 18);
  }

  lemma ShiftedRemainder(x: nat)
    ensures (x % TWO_36) / TWO_18 == (x / TWO_18) % TWO_18
  {
  }

  lemma SameMasks(g: Geometry, hash: uint64)
    requires g.lengthBits <= 18
    ensures ((hash % TWO_36) / TWO_18) % g.SegmentLength() == ((hash / TWO_18) % TWO_32) % g.SegmentLength()
    ensures (hash % TWO_36) % g.SegmentLength() == (hash % TWO_32) % g.SegmentLength()
  {
    PowerValues();
    ShiftedRemainder(hash);
    var n := g.lengthBits;
    ModOfPower(hash / TWO_18, n, 18);
    ModOfPower(hash / TWO_18, n, 32);
    ModOfPower(hash, n, 36);
    ModOfPower(hash, n, 32);
  }

  ghost predicate BatchAgrees(g: Geometry, hash: uint64)
    requires g.Fits()
  {
    HashBatch(g, hash) == Slots(BinaryFuseHash(g, 0, hash), BinaryFuseHash(g, 1, hash), BinaryFuseHash(g, 2, hash))
  }

  lemma BinaryFuseHashForm(g: Geometry, index: nat, hash: uint64)
    requires g.Fits() && index <= 2
    ensures g.SegmentCountLength() < TWO_64
    ensures BinaryFuseHash(g, index, hash)
         == Xor(MulHi(hash, g.SegmentCountLength()) + index * g.SegmentLength(), MaskedPart(g, index, hash))
  {
    hide Xor, MulHi, MaskedPart, BinaryFuseHash, HashBatch;
    hide Geometry.SegmentLength, Geometry.SegmentCountLength, Geometry.ArrayLength;
    HashBatchForm(g, hash);
    SlotInArray(g, index, MulHi(hash, g.SegmentCountLength()), MaskedPart(g, index, hash));
    BinaryFuseHashFits(g, index, hash);
  }

  lemma BinaryFuseHashFits(g: Geometry, index: nat, hash: uint64)
    requires g.Fits() && index <= 2 && g.SegmentCountLength() < TWO_64
    requires Xor(MulHi(hash, g.SegmentCountLength()) + index * g.SegmentLength(), MaskedPart(g, index, hash)) < TWO_32
    ensures BinaryFuseHash(g, index, hash)
         == Xor(MulHi(hash, g.SegmentCountLength()) + index * g.SegmentLength(), MaskedPart(g, index, hash))
  {
    hide Xor, MulHi, MaskedPart, Geometry.SegmentLength, Geometry.SegmentCountLength, Geometry.ArrayLength;
  }

  lemma SlotInArray(g: Geometry, index: nat, h0: nat, x: nat)
    requires g.Fits() && index <= 2 && h0 < g.SegmentCountLength() && x < g.SegmentLength()
    requires index == 0 ==> x == 0
    ensures Xor(h0 + index * g.SegmentLength(), x) < g.ArrayLength()
  {
    hide Xor;
    ConsecutiveSegments(g, h0, x, x);
    SegmentsFit(g);
    XorZero(h0);
  }

  lemma SegmentCapSuffices(g: Geometry, hash: uint64)
    requires g.Fits() && g.lengthBits <= 18
    ensures BatchAgrees(g, hash)
  {
    hide Xor, Pow2, MulHi, HashBatch, BinaryFuseHash;
    HashBatchForm(g, hash);
    BinaryFuseHashForm(g, 0, hash);
    BinaryFuseHashForm(g, 1, hash);
    BinaryFuseHashForm(g, 2, hash);
    SameMasks(g, hash);
    assert (hash % TWO_36) / TWO_36 == 0;
    DivModUnique(0, g.SegmentLength(), 0, 0);
    XorZero(MulHi(hash, g.SegmentCountLength()));
  }

  /** Above the cap a hash whose bit 36 is set goes to different slots. */
  lemma SegmentCapNeeded(g: Geometry)
    requires g.Fits() && g.lengthBits > 18
    ensures !BatchAgrees(g, TWO_36)
  {
    hide Xor, Pow2, MulHi, HashBatch, BinaryFuseHash;
    var hash: uint64 := TWO_36;
    var len := g.SegmentLength();
    HashBatchForm(g, hash);
    BinaryFuseHashForm(g, 1, hash);
    PowerGrows(g.lengthBits);
    var b := MulHi(hash, g.SegmentCountLength()) + len;
    DivModUnique(TWO_18, len, 0, TWO_18);
    DivModUnique(0, len, 0, 0);
    XorZero(b);
    if Xor(b, TWO_18) == b {
      XorComm(b, TWO_18);
      XorCancel(TWO_18, b);
      XorSelf(b);
      assert false;
    }
  }

  lemma {:induction false} PowerGrows(n: nat)
    requires n > 18
    ensures Pow2(n) > TWO_18
  {
    PowerValues();
    if n == 19 {
    } else {
      PowerGrows(n - 1);
    }
  }

  /** The batched slots equal the indexed slots for every hash exactly when a segment has
      at most 2^18 slots. */
  lemma BatchAgreesIffCapped(g: Geometry)
    requires g.Fits()
    ensures (forall hash: uint64 :: BatchAgrees(g, hash)) <==> g.lengthBits <= 18
  {
    if g.lengthBits <= 18 {
      forall hash: uint64
        ensures BatchAgrees(g, hash)
      {
        SegmentCapSuffices(g, hash);
      }
    } else {
      SegmentCapNeeded(g);
    }
  }

  /** The valid shapes have 4 to 262144 slots a segment and fewer than 2^32 slots in all. */
  lemma ValidShapes(g: Geometry)
    ensures g.Valid() <==> g.segmentCount >= 1 && 4 <= g.SegmentLength() <= 262144 && g.ArrayLength() < 0x1_0000_0000
  {
    PowerValues();
    assert Pow2(0) == 1 && Pow2(1) == 2 && Pow2(2) == 4;
    if g.lengthBits > 18 {
      PowerGrows(g.lengthBits);
    } else if g.lengthBits >= 2 {
      PowMonotone(2, g.lengthBits);
      PowMonotone(g.lengthBits, 18);
    }
  }

  /** One hash in a filter of five segments of 8 slots, spelled out: half way along, then a
      segment further moved by bits 18 to 20, then another moved by bits 0 to 2. */
  lemma SlotsExample()
    ensures var g := Geometry(3, 5);
            g.Valid() && HashBatch(g, 0x8000_0000_0014_0003) == Slots(20, 25, 39)
  {
    hide Xor, MulHi, Pow2;
    ExampleParts();
    ExampleXors();
  }

  lemma ExampleParts()
    ensures Pow2(3) == 8 && MulHi(0x8000_0000_0014_0003, 40) == 20
    ensures ((0x8000_0000_0014_0003 / TWO_18) % TWO_32) % 8 == 5 && (0x8000_0000_0014_0003 % TWO_32) % 8 == 3
  {
    hide MulHi;
  }

  lemma ExampleXors()
    ensures Xor(28, 5) == 25 && Xor(36, 3) == 39
  {
    assert Xor(3, 0) == 3 && Xor(4, 0) == 4;
    assert Xor(7, 1) == 6 && Xor(14, 2) == 12;
    assert Xor(9, 0) == 9 && Xor(18, 1) == 19;
  }
}
