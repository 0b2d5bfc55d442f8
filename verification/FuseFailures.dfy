/** Keys that make a population fail, for each way in which it can. The keyed hashes here
    are stand-ins for the one of the filter. */
module FuseFailures {
  import opened DivMod
  import opened Bits
  import opened FuseGeometry
  import opened FuseTables
  import opened FusePlacement
  import opened FuseFill
  import opened FusePeeling
  import opened FuseAttempt
  import opened FuseSeeds

  // ---- Keys that no seed separates ----

  /** Two of the hashes have the same three slots. */
  ghost predicate HasTwins(g: Shape, hs: seq<uint64>) {
    exists i, j :: 0 <= i < j < |hs| && SameSlots(g, hs[i], hs[j])
  }

  ghost predicate SameSlots(g: Shape, x: uint64, y: uint64) {
    Slot(g, 0, x) == Slot(g, 0, y) && Slot(g, 1, x) == Slot(g, 1, y) && Slot(g, 2, x) == Slot(g, 2, y)
  }

  lemma StackedNoTwins(g: Shape, order: seq<uint64>, found: seq<nat>, a: nat, b: nat)
    requires Stacked(g, order, found) && a < b < |order|
    ensures !SameSlots(g, order[a], order[b])
  {
    hide Slot;
    assert found[a] == 0 || found[a] == 1 || found[a] == 2;
    assert !Touches(g, order[b], Slot(g, found[a], order[a]));
  }

  lemma TwinsNotPeelable(g: Shape, hs: seq<uint64>)
    requires HasTwins(g, hs)
    ensures !Peelable(g, hs)
  {
    hide Slot, Stacked, SameSlots;
    var i, j :| 0 <= i < j < |hs| && SameSlots(g, hs[i], hs[j]);
    PeelableDistinct(g, hs);
    if Peelable(g, hs) {
      var order: seq<uint64>, found: seq<nat> :| Stacked(g, order, found) && multiset(order) == multiset(hs);
      SameMembers(order, hs);
      assert hs[i] in order && hs[j] in order;
      var a :| 0 <= a < |order| && order[a] == hs[i];
      var b :| 0 <= b < |order| && order[b] == hs[j];
      SameSlotsComm(g, hs[i], hs[j]);
      if a < b {
        StackedNoTwins(g, order, found, a, b);
      } else {
        StackedNoTwins(g, order, found, b, a);
      }
      assert false;
    }
  }

  lemma SameSlotsComm(g: Shape, x: uint64, y: uint64)
    requires SameSlots(g, x, y)
    ensures SameSlots(g, y, x)
  {
  }

  /** If every seed tried leaves twins among fewer than 64 keys, the seeds run out. */
  lemma TwinsExhaust(g: Shape, sip: Sip, keys: seq<uint64>, rngSeed: seq<byte>)
    requires |rngSeed| == SEED_BYTES && |keys| < 64
    requires forall i :: 0 <= i <= LAST_ATTEMPT ==> HasTwins(g, Drawn(sip, keys, rngSeed)[i].kept)
    ensures Exhausts(g, Drawn(sip, keys, rngSeed))
  {
    hide Crowded, Peelable, HasTwins, Hashes, Drawn;
    var drawn := Drawn(sip, keys, rngSeed);
    forall i | 0 <= i <= LAST_ATTEMPT
      ensures !Crowded(g, drawn[i].kept) && !Peelable(g, drawn[i].kept)
    {
      FewNotCrowded(g, drawn[i].kept);
      TwinsNotPeelable(g, drawn[i].kept);
    }
  }

  /** Multiples of 2^36 that are small for the array have the same slots. */
  lemma HighBitsAlike(g: Shape, hash: uint64)
    requires g.SegmentCountLength() < TWO_27 && hash in {TWO_36, 2 * TWO_36}
    ensures Slot(g, 0, hash) == 0 && Slot(g, 1, hash) == g.SegmentLength() && Slot(g, 2, hash) == 2 * g.SegmentLength()
  {
    hide Xor, Pow2, Geometry.SegmentLength, Geometry.SegmentCountLength, Geometry.ArrayLength;
    var n := g.SegmentCountLength();
    BinaryFuseHashForm(g, 0, hash);
    BinaryFuseHashForm(g, 1, hash);
    BinaryFuseHashForm(g, 2, hash);
    assert hash * n < TWO_64;
    DivModUnique(hash * n, TWO_64, 0, hash * n);
    assert hash % TWO_36 == 0;
    DivModUnique(0, g.SegmentLength(), 0, 0);
    XorZero(0);
    XorZero(g.SegmentLength());
    XorZero(2 * g.SegmentLength());
  }

  const TWO_27: nat := 0x800_0000

  /** A keyed hash under which no seed tells the keys 0 and 1 apart. */
  function TwinSip(key: uint64, seed: seq<byte>): uint64 {
    if key == 0 then TWO_36 else 2 * TWO_36
  }

  /** The seeds do run out: for two keys, from any first seed. */
  lemma SeedsRunOut(g: Shape, rngSeed: seq<byte>)
    requires g.SegmentCountLength() < TWO_27 && |rngSeed| == SEED_BYTES
    ensures TriedDistinct(g, Drawn(TwinSip, [0, 1], rngSeed)) && Exhausts(g, Drawn(TwinSip, [0, 1], rngSeed))
  {
    hide Slot, Reached, SeedAt, Hashes, Geometry.SegmentLength, Geometry.SegmentCountLength, Exhausts, Drawn;
    HighBitsAlike(g, TWO_36);
    HighBitsAlike(g, 2 * TWO_36);
    var drawn := Drawn(TwinSip, [0, 1], rngSeed);
    forall i | 0 <= i <= LAST_ATTEMPT
      ensures AllDistinct(drawn[i].kept) && HasTwins(g, drawn[i].kept)
    {
      var hs := drawn[i].kept;
      assert hs[0] == TWO_36 && hs[1] == 2 * TWO_36;
      assert SameSlots(g, hs[0], hs[1]);
    }
    TwinsExhaust(g, TwinSip, [0, 1], rngSeed);
  }

  // ---- Keys that crowd a slot ----

  /** A keyed hash that gives small numbers, whatever the seed. */
  function SmallSip(key: uint64, seed: seq<byte>): uint64 {
    if key < TWO_32 - 1 then key + 1 else key
  }

  function FirstKeys(n: nat): (r: seq<uint64>)
    requires n <= 64
    ensures |r| == n && forall i :: 0 <= i < n ==> r[i] == i
  {
    seq(n, i requires 0 <= i < n => i)
  }

  lemma SmallHigh(g: Shape, hash: uint64)
    requires hash < TWO_32
    ensures g.SegmentCountLength() < TWO_64 && MulHi(hash, g.SegmentCountLength()) == 0
  {
    hide MulHi, Geometry.SegmentLength, Geometry.SegmentCountLength, Geometry.ArrayLength;
    SegmentsFit(g);
    var n := g.SegmentCountLength();
    ProductBound(hash, n, TWO_32 - 1, TWO_32 - 1);
    DivModUnique(hash * n, TWO_64, 0, hash * n);
  }

  lemma SmallHashFirst(g: Shape, hash: uint64)
    requires hash < TWO_32
    ensures Slot(g, 0, hash) == 0
  {
    hide Xor, MulHi, BinaryFuseHash, Geometry.SegmentLength, Geometry.SegmentCountLength;
    BinaryFuseHashForm(g, 0, hash);
    SmallHigh(g, hash);
    XorZero(0);
  }

  lemma {:induction false} AllTouchFirst(g: Shape, items: seq<uint64>)
    requires forall i :: 0 <= i < |items| ==> items[i] < TWO_32
    ensures Total(g, items, 0).count == |items|
    decreases |items|
  {
    hide Slot, Xor, Position;
    if items == [] {
    } else {
      var n := |items| - 1;
      AllTouchFirst(g, items[..n]);
      SmallHashFirst(g, items[n]);
    }
  }

  /** A table does overflow: for 64 keys, at the first attempt, in every array. */
  lemma CountersOverflow(g: Shape, rngSeed: seq<byte>)
    requires |rngSeed| == SEED_BYTES
    ensures TriedDistinct(g, Drawn(SmallSip, FirstKeys(64), rngSeed))
    ensures LosesSentinel(g, Drawn(SmallSip, FirstKeys(64), rngSeed))
  {
    hide Slot, Total, SeedAt, Hashes, Geometry.SegmentLength, Drawn, FirstKeys;
    var drawn := Drawn(SmallSip, FirstKeys(64), rngSeed);
    forall i | 0 <= i <= LAST_ATTEMPT
      ensures AllDistinct(drawn[i].kept)
    {
      assert forall j :: 0 <= j < 64 ==> drawn[i].kept[j] == j + 1;
    }
    var hs := drawn[0].kept;
    assert forall j :: 0 <= j < 64 ==> hs[j] == j + 1;
    AllTouchFirst(g, hs);
    SegmentsFit(g);
    assert Crowded(g, hs);
    assert Reached(g, drawn, 0);
  }

  // ---- A zero hash and a repeated key ----

  /** Hashes whose leading bits are zero are placed in the order in which they come. */
  lemma {:induction false} SmallPlaced(hs: seq<uint64>, blockBits: nat, i: nat)
    requires 1 <= blockBits <= 31 && i <= |hs| && forall j :: 0 <= j < |hs| ==> hs[j] < TWO_32
    ensures var start := Starts(|hs|, Pow2(blockBits));
            PlaceAll(Cleared(|hs|, 1), start, hs[..i], blockBits)
              == Placed(hs[..i] + Cleared(|hs|, 1)[i..], start[0 := i])
    decreases i
  {
    hide Pow2, SegmentIndex, PlaceAll, Starts;
    var was, start := Cleared(|hs|, 1), Starts(|hs|, Pow2(blockBits));
    FirstStart(|hs|, blockBits);
    if i == 0 {
      assert hs[..0] == [];
      NothingPlaced(was, |hs|, blockBits);
      assert hs[..0] + was[0..] == was && start[0 := 0] == start;
    } else {
      SmallPlaced(hs, blockBits, i - 1);
      PlaceAllPush(was, start, hs, blockBits, i - 1);
      FirstSegment(hs[i - 1], blockBits);
      var slots, pos := hs[..i - 1] + was[i - 1..], start[0 := i - 1];
      assert slots[i - 1] == was[i - 1] == 0;
      assert Probe(slots, pos, 0, |pos|) == Found(0);
      assert slots[i - 1 := hs[i - 1]] == hs[..i] + was[i..];
      assert pos[0 := i] == start[0 := i];
    }
  }

  lemma FirstStart(size: nat, blockBits: nat)
    requires 1 <= blockBits <= 31
    ensures |Starts(size, Pow2(blockBits))| == Pow2(blockBits) && Starts(size, Pow2(blockBits))[0] == 0
  {
    hide Pow2;
    DivModUnique(0, Pow2(blockBits), 0, 0);
  }

  lemma FirstSegment(hash: uint64, blockBits: nat)
    requires hash < TWO_32 && 1 <= blockBits <= 31
    ensures SegmentIndex(hash, blockBits) == 0
  {
    hide Pow2;
    Pow64();
    PowMonotone(32, 64 - blockBits);
    DivModUnique(hash, Pow2(64 - blockBits), 0, hash);
  }

  lemma PlacedAsGiven(g: Shape, hs: seq<uint64>)
    requires forall j :: 0 <= j < |hs| ==> hs[j] < TWO_32
    ensures PlacedBy(g, hs) == hs
  {
    hide Pow2, PlaceAll, LeadingBits;
    var bits := LeadingBits(g.segmentCount, 1);
    SmallPlaced(hs, bits, |hs|);
    assert hs[..|hs|] == hs;
    assert (hs + Cleared(|hs|, 1)[|hs|..])[..|hs|] == hs;
  }

  lemma SmallMasked(g: Shape, hash: uint64)
    requires hash < TWO_18
    ensures MaskedPart(g, 0, hash) == 0 && MaskedPart(g, 1, hash) == 0
    ensures MaskedPart(g, 2, hash) == hash % g.SegmentLength()
  {
    hide Geometry.SegmentLength;
    assert hash % TWO_36 == hash && hash / TWO_18 == 0;
    DivModUnique(0, g.SegmentLength(), 0, 0);
  }

  /** Where a hash below 2^18 goes: only its last slot depends on it. */
  lemma SmallSlots(g: Shape, hash: uint64)
    requires hash < TWO_18
    ensures Slot(g, 0, hash) == 0 && Slot(g, 1, hash) == g.SegmentLength()
    ensures Slot(g, 2, hash) == Xor(2 * g.SegmentLength(), hash % g.SegmentLength())
  {
    hide Xor, Geometry.SegmentLength, Geometry.SegmentCountLength, Geometry.ArrayLength, MulHi, MaskedPart,
      BinaryFuseHash;
    BinaryFuseHashForm(g, 0, hash);
    BinaryFuseHashForm(g, 1, hash);
    BinaryFuseHashForm(g, 2, hash);
    SmallHigh(g, hash);
    SmallMasked(g, hash);
    XorZero(0);
    XorZero(g.SegmentLength());
  }

  /** Two twins, then zero twice. */
  function ZeroLast(g: Shape): (hs: seq<uint64>)
    requires g.lengthBits <= 17
  {
    Twin(g);
    [1, 1 + g.SegmentLength(), 0, 0]
  }

  lemma Twin(g: Shape)
    requires g.lengthBits <= 17
    ensures 4 <= g.SegmentLength() < 1 + g.SegmentLength() < TWO_18
    ensures 1 % g.SegmentLength() == (1 + g.SegmentLength()) % g.SegmentLength() == 1
  {
    hide Pow2;
    PowMonotone(2, g.lengthBits);
    PowMonotone(g.lengthBits, 17);
    PowValues();
    var len := g.SegmentLength();
    DivModUnique(1, len, 0, 1);
    DivModUnique(1 + len, len, 1, 1);
  }

  lemma PowValues()
    ensures Pow2(2) == 4 && Pow2(17) == 0x2_0000
  {
    hide Pow2;
    PowZero();
    PowDouble(0);
    PowDouble(1);
    Pow64();
    PowDouble(16);
  }

  /** How often each slot is touched by the twins and one zero. */
  lemma CountsOf(g: Shape, s: nat)
    requires g.lengthBits <= 17
    ensures var kept := ZeroLast(g)[..3];
            var last := 2 * g.SegmentLength();
            && Slot(g, 0, 0) == 0 && Slot(g, 1, 0) == g.SegmentLength() && Slot(g, 2, 0) == last
            && SameSlots(g, kept[0], kept[1])
            && Total(g, kept, last).count == 1 && Total(g, kept, 0).count == 3
            && Total(g, kept, g.SegmentLength()).count == 3
            && (s != last ==> Total(g, kept, s).count != 1)
  {
    hide Xor, Pow2, Position, Slot, Geometry.SegmentLength, Total;
    var hs := ZeroLast(g);
    var len := g.SegmentLength();
    Twin(g);
    SmallSlots(g, 1);
    SmallSlots(g, 1 + len);
    SmallSlots(g, 0);
    DivModUnique(0, len, 0, 0);
    XorZero(2 * len);
    XorOneDiffers(2 * len);
    SlotsDiffer(g, 1);
    SlotsDiffer(g, 0);
    assert hs[..3] == [1, 1 + len, 0];
    ThreeItems(g, 1, 1 + len, 0, s);
    ThreeItems(g, 1, 1 + len, 0, 0);
    ThreeItems(g, 1, 1 + len, 0, len);
    ThreeItems(g, 1, 1 + len, 0, 2 * len);
  }

  lemma XorOneDiffers(a: nat)
    ensures Xor(a, 1) != a
  {
    hide Xor;
    XorComm(a, 1);
    XorCancel(1, a);
    XorSelf(a);
  }

  lemma ThreeItems(g: Shape, a: uint64, b: uint64, c: uint64, s: nat)
    ensures Total(g, [a, b, c], s).count
         == (if Touches(g, a, s) then 1 else 0) + (if Touches(g, b, s) then 1 else 0)
            + (if Touches(g, c, s) then 1 else 0)
  {
    hide Xor, Touches, Position;
    assert [a, b, c] == [] + [a] + [b] + [c];
    TotalPush(g, [], a, s);
    TotalPush(g, [] + [a], b, s);
    TotalPush(g, [] + [a] + [b], c, s);
  }

  /** The second zero is found to be a repetition. */
  lemma ZeroDropped(g: Shape)
    requires g.lengthBits <= 17
    ensures Kept(g, ZeroLast(g)) == ZeroLast(g)[..3]
  {
    hide Total, Slot, Geometry.SegmentLength;
    var hs := ZeroLast(g);
    Twin(g);
    CountsOf(g, 0);
    assert hs[..1] == [] + [hs[0]] && hs[..2] == hs[..1] + [hs[1]];
    assert hs[..3] == hs[..2] + [hs[2]] && hs == hs[..3] + [hs[3]];
    KeptNothing(g);
    KeptPush(g, [], hs[0]);
    KeptPush(g, hs[..1], hs[1]);
    KeptPush(g, hs[..2], hs[2]);
    KeptPush(g, hs[..3], hs[3]);
    assert AloneIn(g, hs[..3], Slot(g, 2, 0));
  }

  lemma {:induction false} OneLone(g: Shape, items: seq<uint64>, c: nat, n: nat)
    requires Total(g, items, c).count == 1 && forall s: nat :: s != c ==> Total(g, items, s).count != 1
    ensures LoneSlots(g, items, n) == if c < n then [c] else []
    decreases n
  {
    hide Total;
    if n == 0 {
    } else {
      OneLone(g, items, c, n - 1);
    }
  }

  /** Only the zero can be peeled off. */
  lemma ZeroPeeled(g: Shape)
    requires g.lengthBits <= 17
    ensures PeelOrder(g, ZeroLast(g)[..3]) == [0]
  {
    hide Total, Slot, Geometry.SegmentLength, StackFrom, Touches, Position;
    var kept, c := ZeroLast(g)[..3], 2 * g.SegmentLength();
    forall s: nat
      ensures s != c ==> Total(g, kept, s).count != 1
    {
      CountsOf(g, s);
    }
    CountsOf(g, 0);
    OneLone(g, kept, c, g.ArrayLength());
    PositionUnique(g, 0, 2);
    assert [] + [c] == [c];
    StackPeels(g, [], c, kept, 2, []);
    StackDone(g, Without(kept, 2), [] + [0]);
  }

  /** The keyed hash that gives these hashes to the keys 1, 2, 0 and 0. */
  function ZeroSip(second: uint64): Sip {
    (key, seed) => if key == 1 then 1 else if key == 2 then second else 0
  }

  lemma SortedKeys()
    ensures SortUnique([1, 2, 0, 0]) == [0, 1, 2]
  {
    var none: seq<uint64> := [];
    assert [1, 2, 0, 0][1..] == [2, 0, 0] && [2, 0, 0][1..] == [0, 0] && [0, 0][1..] == [0] && [0][1..] == none;
    assert SortUnique([0]) == [0];
    assert SortUnique([0, 0]) == [0];
    assert SortUnique([2, 0, 0]) == Insert(2, [0]) == [0, 2];
    assert [0, 2][1..] == [2];
    assert Insert(1, [0, 2]) == [0] + Insert(1, [2]);
  }

  /** A zero is uncovered: for four keys of which one repeats, at the first attempt. */
  lemma ZeroTakesSentinel(g: Shape, rngSeed: seq<byte>)
    requires g.lengthBits <= 17 && |rngSeed| == SEED_BYTES
    ensures 1 + g.SegmentLength() < TWO_64
    ensures LosesSentinel(g, Tried(g, ZeroSip(1 + g.SegmentLength()), [1, 2, 0, 0], rngSeed))
  {
    hide Kept, Geometry.SegmentLength, SortUnique, PeelOrder, PlacedBy, Tried, Crowded, Peelable, Slot;
    Twin(g);
    var sip := ZeroSip(1 + g.SegmentLength());
    var hs := ZeroLast(g);
    assert Hashes(sip, [1, 2, 0, 0], rngSeed) == hs;
    PlacedAsGiven(g, hs);
    ZeroDropped(g);
    ZeroPeeled(g);
    SortedKeys();
    CountsOf(g, 0);
    TwinsNotPeelable(g, hs[..3]);
    assert LeftBehind(g, hs) == [0] + hs[1..];
    var tried := Tried(g, sip, [1, 2, 0, 0], rngSeed);
    assert tried[0].uncovers && !Solvable(g, tried[0].kept);
    assert Reached(g, tried, 0);
  }

  // ---- A second attempt that succeeds ----

  /** Twins as long as the first byte of the seed is zero, and different slots afterwards. */
  function RetrySip(key: uint64, seed: seq<byte>): uint64 {
    if seed != [] && seed[0] == 0 then TwinSip(key, seed) else SmallSip(key, seed)
  }

  lemma OneAndTwo(g: Shape)
    ensures Solvable(g, [1, 2])
  {
    hide Slot, Geometry.SegmentLength, Crowded, Xor, Pow2;
    FewNotCrowded(g, [1, 2]);
    LongEnough(g);
    SmallSlots(g, 1);
    SmallSlots(g, 2);
    var len := g.SegmentLength();
    DivModUnique(1, len, 0, 1);
    DivModUnique(2, len, 0, 2);
    XorCancel(1, 2 * len);
    XorCancel(2, 2 * len);
    XorComm(1, 2 * len);
    XorComm(2, 2 * len);
    SlotsDiffer(g, 1);
    assert !Touches(g, 2, Slot(g, 2, 1));
    assert Stacked(g, [1, 2], [2, 2]);
  }

  lemma LongEnough(g: Shape)
    ensures g.SegmentLength() >= 4
  {
    hide Pow2;
    PowMonotone(2, g.lengthBits);
    PowValues();
  }

  /** The seed does rotate: keys that the first seed fails on and the second tells apart. */
  lemma RetrySucceeds(g: Shape, rngSeed: seq<byte>)
    requires g.SegmentCountLength() < TWO_27 && |rngSeed| == SEED_BYTES && rngSeed[0] == 0
    ensures var drawn := Drawn(RetrySip, [0, 1], rngSeed);
            && TriedDistinct(g, drawn) && Populates(g, drawn)
            && !Solvable(g, drawn[0].kept) && Solvable(g, drawn[1].kept)
  {
    hide Slot, Reached, Hashes, SeedAt, Geometry.SegmentLength, Geometry.SegmentCountLength, Drawn, Crowded, Peelable,
      Solvable;
    var drawn := Drawn(RetrySip, [0, 1], rngSeed);
    SeedBytes(rngSeed, 0, 0);
    SeedBytes(rngSeed, 1, 0);
    forall i | 0 <= i <= LAST_ATTEMPT
      ensures AllDistinct(drawn[i].kept)
    {
      var hs := drawn[i].kept;
      assert (hs[0] == TWO_36 && hs[1] == 2 * TWO_36) || (hs[0] == 1 && hs[1] == 2);
    }
    HighBitsAlike(g, TWO_36);
    HighBitsAlike(g, 2 * TWO_36);
    var first := drawn[0].kept;
    assert SameSlots(g, first[0], first[1]);
    FewNotCrowded(g, first);
    TwinsNotPeelable(g, first);
    assert drawn[1].kept == [1, 2];
    OneAndTwo(g);
    SolvableFacts(g, first);
  }
}
