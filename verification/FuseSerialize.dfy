/** The serialised filter: fingerprints as little-endian bytes, and reading them back. */
module FuseSerialize {
  import opened DivMod
  import opened Wrappers
  import opened Bits
  import opened FuseGeometry
  import opened FuseTables
  import opened FuseAssign
  import opened FuseSeeds
  import opened FuseFilter

  function ByteAt(f: nat, i: nat): byte {
    (f / Pow2(8 * i)) % 256
  }

  function BytesOf(f: nat, width: nat): (r: seq<byte>)
    ensures |r| == width
  {
    seq(width, i requires 0 <= i => ByteAt(f, i))
  }

  function AllBytes(prints: seq<nat>, width: nat): seq<byte> {
    if prints == [] then [] else AllBytes(prints[..|prints| - 1], width) + BytesOf(prints[|prints| - 1], width)
  }

  /** The little-endian value of bytes. */
  function Word(bytes: seq<byte>): nat {
    if bytes == [] then 0
    else Word(bytes[..|bytes| - 1]) + bytes[|bytes| - 1] * Pow2(8 * (|bytes| - 1))
  }

  lemma {:induction false} WordBound(bytes: seq<byte>)
    ensures Word(bytes) < Pow2(8 * |bytes|)
    decreases |bytes|
  {
    if bytes == [] {
    } else {
      var n := |bytes| - 1;
      WordBound(bytes[..n]);
      Pow2Add(8, 8 * n);
      assert Pow2(8) == 256;
      MulNonNegative(255 - bytes[n], Pow2(8 * n));
      assert (255 - bytes[n]) * Pow2(8 * n) == 255 * Pow2(8 * n) - bytes[n] * Pow2(8 * n);
    }
  }

  /** The bytes of a value give back the part of it they cover. */
  lemma {:induction false} WordOfBytes(f: nat, width: nat)
    ensures Word(BytesOf(f, width)) == f % Pow2(8 * width)
  {
    if width == 0 {
    } else {
      var n := width - 1;
      WordOfBytes(f, n);
      assert BytesOf(f, width)[..n] == BytesOf(f, n);
      Pow2Add(8, 8 * n);
      assert Pow2(8) == 256;
      NextByte(f, Pow2(8 * n));
    }
  }

  lemma NextByte(f: nat, m: nat)
    requires m > 0
    ensures f % (256 * m) == f % m + ((f / m) % 256) * m
  {
    var q := f / m;
    DivModSplit(f, m);
    DivModSplit(q, 256);
    var r := f % m + (q % 256) * m;
    assert (q / 256) * (256 * m) == ((q / 256) * 256) * m;
    assert q * m == ((q / 256) * 256) * m + (q % 256) * m;
    MulNonNegative(255 - q % 256, m);
    assert (255 - q % 256) * m == 255 * m - (q % 256) * m;
    MulNonNegative(q % 256, m);
    DivModUnique(f, 256 * m, q / 256, r);
  }

  method WriteFingerprints(prints: seq<nat>, width: nat) returns (bytes: seq<byte>)
    ensures bytes == AllBytes(prints, width)
  {
    bytes := [];
    var e := 0;
    while e < |prints|
      invariant 0 <= e <= |prints|
      invariant bytes == AllBytes(prints[..e], width)
    {
      ghost var before := bytes;
      var i := 0;
      while i < width
        invariant 0 <= i <= width
        invariant bytes == before + BytesOf(prints[e], i)
      {
        bytes := bytes + [(prints[e] / Pow2(8 * i)) % 256];
        assert BytesOf(prints[e], i + 1) == BytesOf(prints[e], i) + [ByteAt(prints[e], i)];
        i := i + 1;
      }
      assert prints[..e + 1][..e] == prints[..e];
      e := e + 1;
    }
    assert prints[..|prints|] == prints;
  }

  /** The n words found in the bytes. */
  function ReadBack(bytes: seq<byte>, width: nat, n: nat): (r: seq<nat>)
    requires n * width <= |bytes|
    ensures |r| == n
  {
    if n == 0 then []
    else
      assert n * width == (n - 1) * width + width;
      MulNonNegative(n - 1, width);
      ReadBack(bytes, width, n - 1) + [Word(bytes[(n - 1) * width..n * width])]
  }

  /** Fails exactly when the bytes run out. */
  method ReadFingerprints(bytes: seq<byte>, width: nat, n: nat) returns (r: Option<seq<nat>>)
    ensures r.None? <==> |bytes| < n * width
    ensures r.Some? ==> r.value == ReadBack(bytes, width, n)
  {
    hide Pow2, Or, Word;
    var prints := [];
    var e := 0;
    while e < n
      invariant 0 <= e <= n
      invariant e * width <= |bytes| && prints == ReadBack(bytes, width, e)
    {
      var value, pos := 0, e * width;
      assert (e + 1) * width == pos + width;
      MulNonNegative(e, width);
      EmptyWord(bytes[pos..pos]);
      var i := 0;
      while i < width
        invariant 0 <= i <= width && pos + i <= |bytes|
        invariant value == Word(bytes[pos..pos + i])
      {
        if pos + i >= |bytes| {
          MulNonNegative(n - (e + 1), width);
          assert (n - (e + 1)) * width == n * width - (e + 1) * width;
          return None;
        }
        value := NextWord(bytes, pos, i, value);
        i := i + 1;
      }
      prints := prints + [value];
      e := e + 1;
    }
    r := Some(prints);
  }

  lemma EmptyWord(bytes: seq<byte>)
    requires bytes == []
    ensures Word(bytes) == 0
  {
  }

  method NextWord(bytes: seq<byte>, pos: nat, i: nat, value: nat) returns (r: nat)
    requires pos + i < |bytes| && value == Word(bytes[pos..pos + i])
    ensures r == Word(bytes[pos..pos + i + 1])
  {
    hide Pow2, Or;
    WordBound(bytes[pos..pos + i]);
    OrDisjoint(value, bytes[pos + i], 8 * i);
    r := Or(value, bytes[pos + i] * Pow2(8 * i));
    assert bytes[pos..pos + i + 1][..i] == bytes[pos..pos + i];
  }

  lemma {:induction false} AllBytesLength(prints: seq<nat>, width: nat)
    ensures |AllBytes(prints, width)| == |prints| * width
    decreases |prints|
  {
    if prints == [] {
    } else {
      var n := |prints| - 1;
      AllBytesLength(prints[..n], width);
      assert |prints| * width == n * width + width;
    }
  }

  /** Reading looks only at the bytes of the words it reads. */
  lemma {:induction false} ReadPrefix(a: seq<byte>, b: seq<byte>, width: nat, n: nat)
    requires n * width <= |a|
    ensures n * width <= |a + b| && ReadBack(a + b, width, n) == ReadBack(a, width, n)
    decreases n
  {
    if n == 0 {
    } else {
      assert n * width == (n - 1) * width + width;
      MulNonNegative(n - 1, width);
      ReadPrefix(a, b, width, n - 1);
      assert (a + b)[(n - 1) * width..n * width] == a[(n - 1) * width..n * width];
    }
  }

  /** Words that fit their width survive being written and read back. */
  lemma {:induction false} RoundTrip(prints: seq<nat>, width: nat)
    requires Words(prints, 8 * width)
    ensures |prints| * width <= |AllBytes(prints, width)|
    ensures ReadBack(AllBytes(prints, width), width, |prints|) == prints
    decreases |prints|
  {
    hide Pow2, Word;
    AllBytesLength(prints, width);
    if prints == [] {
    } else {
      var n := |prints| - 1;
      var front, last := prints[..n], prints[n];
      RoundTrip(front, width);
      AllBytesLength(front, width);
      assert |prints| * width == n * width + width;
      var a, b := AllBytes(front, width), BytesOf(last, width);
      ReadPrefix(a, b, width, n);
      assert (a + b)[n * width..(n + 1) * width] == b;
      WordOfBytes(last, width);
      DivModUnique(last, Pow2(8 * width), 0, last);
    }
  }

  type uint32 = x: nat | x < TWO_32

  /** The geometry as the fields of a filter spell it out; nothing checks that they agree. */
  datatype Sizes = Sizes(segmentLength: uint32, segmentLengthMask: uint32, segmentCount: uint32,
                         segmentCountLength: uint32, arrayLength: uint32)

  datatype SerializedFilter = SerializedFilter(bits: nat, seed: seq<byte>, sizes: Sizes, bytes: seq<byte>)

  function SizesOf(g: Shape): (r: Sizes)
    ensures r.segmentLength == g.SegmentLength() && r.segmentCountLength == g.SegmentCountLength()
    ensures r.segmentLengthMask == r.segmentLength - 1 && r.arrayLength == g.ArrayLength()
    ensures r.segmentCount == g.segmentCount
  {
    SegmentsFit(g);
    MulLower(g.SegmentLength(), g.segmentCount);
    Sizes(g.SegmentLength(), g.SegmentLength() - 1, g.segmentCount, g.SegmentCountLength(), g.ArrayLength())
  }

  lemma SizesRelate(g: Shape)
    ensures g.SegmentLength() == Pow2(g.lengthBits) && g.SegmentCountLength() == g.segmentCount * g.SegmentLength()
    ensures g.ArrayLength() == g.SegmentCountLength() + 2 * g.SegmentLength()
  {
    hide Pow2;
    TwoMore(g.segmentCount, g.SegmentLength());
  }

  lemma TwoMore(n: nat, len: nat)
    ensures (n + 2) * len == n * len + 2 * len
  {
  }

  lemma BytePowers()
    ensures Pow2(0) == 1 && Pow2(8) == 0x100 && Pow2(16) == 0x1_0000 && Pow2(24) == 0x100_0000
  {
    hide Pow2;
    PowZero();
    Pow8();
    Pow2Add(8, 8);
    Pow2Add(8, 16);
  }

  /** The lowest byte of a word comes first. */
  lemma LowestByteFirst()
    ensures AllBytes([0x1234, 0xab], 2) == [0x34, 0x12, 0xab, 0x00]
    ensures AllBytes([0x89ab_cdef], 4) == [0xef, 0xcd, 0xab, 0x89]
  {
    hide BytesOf;
    ExampleBytes();
    var none: seq<nat> := [];
    assert [0x1234, 0xab][..1] == [0x1234] && [0x1234][..0] == none && [0x89ab_cdef][..0] == none;
  }

  lemma ExampleBytes()
    ensures BytesOf(0x1234, 2) == [0x34, 0x12] && BytesOf(0xab, 2) == [0xab, 0]
    ensures BytesOf(0x89ab_cdef, 4) == [0xef, 0xcd, 0xab, 0x89]
  {
    hide ByteAt;
    BytesApart();
    WordApart();
  }

  lemma BytesApart()
    ensures ByteAt(0x1234, 0) == 0x34 && ByteAt(0x1234, 1) == 0x12 && ByteAt(0xab, 0) == 0xab && ByteAt(0xab, 1) == 0
  {
    hide Pow2;
    BytePowers();
  }

  lemma WordApart()
    ensures ByteAt(0x89ab_cdef, 0) == 0xef && ByteAt(0x89ab_cdef, 1) == 0xcd
    ensures ByteAt(0x89ab_cdef, 2) == 0xab && ByteAt(0x89ab_cdef, 3) == 0x89
  {
    hide Pow2;
    BytePowers();
  }

  /** A filter as it is read back. */
  datatype LoadedFilter = LoadedFilter(bits: nat, seed: seq<byte>, sizes: Sizes, prints: seq<nat>) {
    function SlotsOf(hash: uint64): Slots {
      var h0 := MulHi(hash, sizes.segmentCountLength) % TWO_32;
      var h1 := (h0 + sizes.segmentLength) % TWO_32;
      var h2 := (h1 + sizes.segmentLength) % TWO_32;
      Slots(h0,
            Xor(h1, And((hash / TWO_18) % TWO_32, sizes.segmentLengthMask)),
            Xor(h2, And(hash % TWO_32, sizes.segmentLengthMask)))
    }

    /** None stands for a read outside the fingerprints. */
    function Contain(sip: Sip, key: uint64): Option<bool> {
      var hash := sip(key, seed);
      var s := SlotsOf(hash);
      if s.h0 >= |prints| || s.h1 >= |prints| || s.h2 >= |prints| then None
      else Some(Xor(Fingerprint(hash) % Pow2(bits), Xor(Xor(prints[s.h0], prints[s.h1]), prints[s.h2])) == 0)
    }
  }

  method CopyTo(f: BinaryFuse) returns (x: SerializedFilter)
    requires f.Valid()
    ensures x.bits == f.bits && x.seed == f.seed && x.sizes == SizesOf(f.g)
    ensures x.sizes.segmentCount == f.g.segmentCount && x.sizes.segmentLength == Pow2(f.g.lengthBits)
    ensures x.sizes.segmentLengthMask == x.sizes.segmentLength - 1
    ensures x.sizes.segmentCountLength == x.sizes.segmentCount * x.sizes.segmentLength
    ensures x.sizes.arrayLength == x.sizes.segmentCountLength + 2 * x.sizes.segmentLength == f.prints.Length
    ensures x.bytes == AllBytes(f.prints[..], f.bits / 8)
  {
    var bytes := WriteFingerprints(f.prints[..], f.bits / 8);
    SizesRelate(f.g);
    x := SerializedFilter(f.bits, f.seed, SizesOf(f.g), bytes);
  }

  /** Fails exactly when the bytes run out; the fields are taken as they are. */
  method FromSerialized(x: SerializedFilter) returns (r: Option<LoadedFilter>)
    ensures r.None? <==> |x.bytes| < x.sizes.arrayLength * (x.bits / 8)
    ensures r.Some? ==>
              && r.value.bits == x.bits && r.value.seed == x.seed && r.value.sizes == x.sizes
              && r.value.prints == ReadBack(x.bytes, x.bits / 8, x.sizes.arrayLength)
  {
    var prints := ReadFingerprints(x.bytes, x.bits / 8, x.sizes.arrayLength);
    if prints.None? {
      return None;
    }
    r := Some(LoadedFilter(x.bits, x.seed, x.sizes, prints.value));
  }

  /** Where the fields describe one geometry, the masked slots are those of the filter. */
  lemma LoadedSlots(x: LoadedFilter, g: Shape, hash: uint64)
    requires x.sizes == SizesOf(g)
    ensures x.SlotsOf(hash) == HashBatch(g, hash)
  {
    hide Xor, MulHi, And, Pow2, SizesOf, Geometry.SegmentCountLength, Geometry.ArrayLength;
    LowMask((hash / TWO_18) % TWO_32, g.lengthBits);
    LowMask(hash % TWO_32, g.lengthBits);
  }

  /** A loaded filter with the fields and fingerprints of a filter reads nothing outside
      them and answers as that filter. */
  lemma SameAnswers(f: BinaryFuse, x: LoadedFilter, key: uint64)
    requires f.Valid()
    requires x == LoadedFilter(f.bits, f.seed, SizesOf(f.g), f.prints[..])
    ensures x.Contain(f.sip, key) == Some(f.Contain(key))
  {
    hide Xor, MulHi, And, Pow2, SizesOf, HashBatch, LoadedFilter.SlotsOf, Fingerprint;
    var hash := f.sip(key, f.seed);
    LoadedSlots(x, f.g, hash);
    SlotsAreConsecutive(f.g, hash);
  }

  /** A filter written and read back answers every question as before. */
  method SaveAndLoad(f: BinaryFuse) returns (r: Option<LoadedFilter>)
    requires f.Valid()
    ensures r.Some? && r.value == LoadedFilter(f.bits, f.seed, SizesOf(f.g), f.prints[..])
    ensures forall key :: r.value.Contain(f.sip, key) == Some(f.Contain(key))
  {
    hide *;
    ValidFacts(f);
    var x := CopyTo(f);
    AllBytesLength(f.prints[..], f.bits / 8);
    RoundTrip(f.prints[..], f.bits / 8);
    r := FromSerialized(x);
    forall key: uint64
      ensures r.value.Contain(f.sip, key) == Some(f.Contain(key))
    {
      SameAnswers(f, r.value, key);
    }
  }

  lemma ValidFacts(f: BinaryFuse)
    requires f.Valid()
    ensures f.prints.Length == f.g.ArrayLength()
    ensures f.bits == 8 * (f.bits / 8) && Words(f.prints[..], 8 * (f.bits / 8))
  {
    hide Pow2, Words;
  }
}
