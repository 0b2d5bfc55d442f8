/** Placing hashes into slots ordered by their top bits, with segments that overflow
    into their neighbours. */
module FusePlacement {
  import opened DivMod
  import opened Bits
  import opened FuseGeometry

  /** The fewest bits, from the given number up, that tell n segments apart. */
  function LeadingBits(n: nat, bits: nat): (r: nat)
    requires bits <= 31
    ensures bits <= r <= 31
    decreases 31 - bits
  {
    if bits == 31 || n <= Pow2(bits) then bits else LeadingBits(n, bits + 1)
  }

  /** Enough leading bits to tell the segments apart. */
  method BlockBits(g: Geometry) returns (bits: nat)
    requires g.Valid()
    ensures bits == LeadingBits(g.segmentCount, 1)
    ensures g.segmentCount <= Pow2(bits)
    ensures bits > 1 ==> Pow2(bits - 1) < g.segmentCount
  {
    hide Pow2;
    SegmentsFew(g);
    bits := 1;
    while Pow2(bits) < g.segmentCount
      invariant 1 <= bits <= 31 && LeadingBits(g.segmentCount, bits) == LeadingBits(g.segmentCount, 1)
      invariant bits > 1 ==> Pow2(bits - 1) < g.segmentCount
      decreases 31 - bits
    {
      bits := bits + 1;
    }
  }

  lemma SegmentsFew(g: Geometry)
    requires g.Valid()
    ensures g.segmentCount <= Pow2(31)
  {
    hide Pow2;
    PowMonotone(2, g.lengthBits);
    PowZero();
    PowDouble(0);
    PowDouble(1);
    Pow64();
    PowDouble(31);
    MulNonNegative(g.segmentCount + 2, g.SegmentLength() - 4);
    assert (g.segmentCount + 2) * g.SegmentLength()
        == (g.segmentCount + 2) * 4 + (g.segmentCount + 2) * (g.SegmentLength() - 4);
  }

  /** The leading bits of a hash. */
  function SegmentIndex(hash: uint64, blockBits: nat): (r: nat)
    requires blockBits <= 31
    ensures r < Pow2(blockBits)
  {
    assert Pow2(64) == TWO_64 by { Pow64(); }
    Pow2Add(blockBits, 64 - blockBits);
    QuotientBelow(hash, Pow2(64 - blockBits), Pow2(blockBits));
    hash / Pow2(64 - blockBits)
  }

  // ---- One round of the loop, on values ----

  datatype Probing = Found(segment: nat) | PastEnd | Endless

  /** Go round the segments from s to one whose position is a free slot. A position past
      the last slot stops the search; a full round without a free slot never ends. */
  function Probe(slots: seq<nat>, pos: seq<nat>, s: nat, rounds: nat): (r: Probing)
    requires s < |pos|
    ensures r.Found? ==> r.segment < |pos| && pos[r.segment] < |slots| && slots[pos[r.segment]] == 0
    decreases rounds
  {
    if rounds == 0 then Endless
    else if pos[s] >= |slots| then PastEnd
    else if slots[pos[s]] == 0 then Found(s)
    else Probe(slots, pos, (s + 1) % |pos|, rounds - 1)
  }

  datatype Placement = Placed(slots: seq<nat>, pos: seq<nat>) | Stopped(why: Probing)

  function PlaceOne(slots: seq<nat>, pos: seq<nat>, hash: uint64, blockBits: nat): (r: Placement)
    requires 1 <= blockBits <= 31 && |pos| == Pow2(blockBits)
    ensures r.Placed? ==> |r.slots| == |slots| && |r.pos| == |pos|
  {
    var p := Probe(slots, pos, SegmentIndex(hash, blockBits), |pos|);
    if p.Found? then Placed(slots[pos[p.segment] := hash], pos[p.segment := pos[p.segment] + 1]) else Stopped(p)
  }

  function PlaceAll(slots: seq<nat>, pos: seq<nat>, hs: seq<uint64>, blockBits: nat): (r: Placement)
    requires 1 <= blockBits <= 31 && |pos| == Pow2(blockBits)
    ensures r.Placed? ==> |r.slots| == |slots| && |r.pos| == |pos|
  {
    if hs == [] then Placed(slots, pos)
    else
      var p := PlaceAll(slots, pos, hs[..|hs| - 1], blockBits);
      if p.Placed? then PlaceOne(p.slots, p.pos, hs[|hs| - 1], blockBits) else p
  }

  lemma PlaceAllPush(slots: seq<nat>, pos: seq<nat>, hs: seq<uint64>, blockBits: nat, i: nat)
    requires 1 <= blockBits <= 31 && |pos| == Pow2(blockBits) && i < |hs|
    ensures var p := PlaceAll(slots, pos, hs[..i], blockBits);
            PlaceAll(slots, pos, hs[..i + 1], blockBits)
              == if p.Placed? then PlaceOne(p.slots, p.pos, hs[i], blockBits) else p
  {
    hide PlaceOne;
    assert hs[..i + 1][..i] == hs[..i];
  }

  /** Once stopped, the loop stays stopped. */
  lemma {:induction false} StoppedStays(slots: seq<nat>, pos: seq<nat>, hs: seq<uint64>, blockBits: nat, i: nat, j: nat)
    requires 1 <= blockBits <= 31 && |pos| == Pow2(blockBits) && i <= j <= |hs|
    requires PlaceAll(slots, pos, hs[..i], blockBits).Stopped?
    ensures PlaceAll(slots, pos, hs[..j], blockBits) == PlaceAll(slots, pos, hs[..i], blockBits)
    decreases j
  {
    hide PlaceOne;
    if i == j {
    } else {
      StoppedStays(slots, pos, hs, blockBits, i, j - 1);
      PlaceAllPush(slots, pos, hs, blockBits, j - 1);
    }
  }

  /** Where the segments begin. */
  function Starts(size: nat, block: nat): (r: seq<nat>)
    requires block > 0
    ensures |r| == block
  {
    seq(block, j requires 0 <= j < block => StartOf(j, size, block))
  }

  function StartOf(j: nat, size: nat, block: nat): nat
    requires block > 0
  {
    MulNonNegative(j, size);
    QuotientBounds(j * size, block);
    (j * size) / block
  }

  // ---- Where the write positions can be ----

  /** Each segment has written a run of slots from its start to its position; `written`
      is all of them together, and the other slots are as they were. */
  ghost predicate Runs(start: seq<nat>, pos: seq<nat>, written: set<nat>, was: seq<nat>, slots: seq<nat>) {
    && |start| == |pos| && |start| > 0 && start[0] == 0 && |slots| == |was|
    && (forall j :: 0 <= j < |pos| ==> start[j] <= pos[j])
    && (forall x :: x in written ==> exists j :: 0 <= j < |pos| && start[j] <= x < pos[j])
    && (forall j, x :: 0 <= j < |pos| && start[j] <= x < pos[j] ==> x in written)
    && (forall x :: 0 <= x < |slots| && x !in written ==> slots[x] == was[x])
  }

  lemma {:induction false} SetOfSmallNats(s: set<nat>, n: nat)
    requires forall x :: 0 <= x < n ==> x in s
    ensures |s| >= n
    decreases n
  {
    if n == 0 {
    } else {
      SetOfSmallNats(s - {n - 1}, n - 1);
    }
  }

  /** The first slot not written. */
  lemma FirstGap(written: set<nat>, limit: nat) returns (z: nat)
    requires |written| < limit
    ensures z < limit && z !in written
    ensures z > 0 ==> z - 1 in written
  {
    z := 0;
    while z in written
      invariant forall x :: 0 <= x < z ==> x in written
      invariant z <= limit
      decreases limit - z
    {
      if z == limit {
        SetOfSmallNats(written, limit);
        assert false;
      }
      z := z + 1;
    }
    if z >= limit {
      SetOfSmallNats(written, limit);
      assert false;
    }
  }

  /** While fewer slots are written than were free at first, some segment can still write:
      the segment whose run ends at the first gap. */
  lemma SomeSegmentCanWrite(start: seq<nat>, pos: seq<nat>, written: set<nat>, was: seq<nat>, slots: seq<nat>,
                            limit: nat)
    returns (j: nat)
    requires Runs(start, pos, written, was, slots) && limit <= |slots|
    requires forall x :: 0 <= x < limit ==> was[x] == 0
    requires |written| < limit
    ensures j < |pos| && pos[j] < limit && slots[pos[j]] == 0
  {
    var z := FirstGap(written, limit);
    if z == 0 {
      j := 0;
      assert start[0] <= 0 < pos[0] ==> 0 in written;
    } else {
      j :| 0 <= j < |pos| && start[j] <= z - 1 < pos[j];
      assert start[j] <= z < pos[j] ==> z in written;
    }
  }

  lemma RunGrows(start: seq<nat>, pos: seq<nat>, written: set<nat>, was: seq<nat>, slots: seq<nat>, j: nat, hash: nat)
    requires Runs(start, pos, written, was, slots) && j < |pos| && pos[j] < |slots|
    ensures Runs(start, pos[j := pos[j] + 1], written + {pos[j]}, was, slots[pos[j] := hash])
  {
    var pos', written' := pos[j := pos[j] + 1], written + {pos[j]};
    forall x | x in written'
      ensures exists i :: 0 <= i < |pos'| && start[i] <= x < pos'[i]
    {
      if x in written {
        var i :| 0 <= i < |pos| && start[i] <= x < pos[i];
        assert start[i] <= x < pos'[i];
      } else {
        assert start[j] <= x < pos'[j];
      }
    }
  }

  function Distance(from: nat, to: nat, n: nat): nat
    requires from < n && to < n
  {
    if from <= to then to - from else to + n - from
  }

  /** A search that never ends has passed over every segment within its rounds. */
  lemma {:induction false} EndlessPasses(slots: seq<nat>, pos: seq<nat>, s: nat, rounds: nat, j: nat)
    requires s < |pos| && j < |pos| && Distance(s, j, |pos|) < rounds
    requires Probe(slots, pos, s, rounds) == Endless
    ensures pos[j] < |slots| && slots[pos[j]] != 0
    decreases rounds
  {
    if s == j {
    } else {
      NextInCycle(s, |pos|);
      DivModUnique(s, |pos|, 0, s);
      EndlessPasses(slots, pos, (s + 1) % |pos|, rounds - 1, j);
    }
  }

  /** Segment j comes before s on the way round from `first`. */
  predicate PassedOver(first: nat, s: nat, j: nat) {
    if first <= s then first <= j < s else j >= first || j < s
  }

  /** The search stops at the first segment on its way that can write. */
  lemma {:induction false} ProbeIsFirst(slots: seq<nat>, pos: seq<nat>, s: nat, rounds: nat, j: nat)
    requires s < |pos| && rounds <= |pos| && j < |pos|
    requires Probe(slots, pos, s, rounds).Found?
    ensures PassedOver(s, Probe(slots, pos, s, rounds).segment, j) ==> pos[j] < |slots| && slots[pos[j]] != 0
    decreases rounds
  {
    if slots[pos[s]] == 0 {
    } else {
      NextInCycle(s, |pos|);
      DivModUnique(s, |pos|, 0, s);
      ProbeIsFirst(slots, pos, (s + 1) % |pos|, rounds - 1, j);
    }
  }

  // ---- The loop always finds a segment to look at ----

  /** Starting from free slots, no prefix of the hashes leaves the search going round for
      ever, whether or not there is a sentinel. */
  lemma {:induction false} NeverEndless(was: seq<nat>, hs: seq<uint64>, blockBits: nat, i: nat)
    returns (written: set<nat>)
    requires 1 <= blockBits <= 31 && i <= |hs| <= |was|
    requires forall x :: 0 <= x < |hs| ==> was[x] == 0
    ensures var start := Starts(|hs|, Pow2(blockBits));
            var p := PlaceAll(was, start, hs[..i], blockBits);
            if p.Placed? then Runs(start, p.pos, written, was, p.slots) && |written| <= i else p.why == PastEnd
    decreases i
  {
    hide Pow2, SegmentIndex, Probe, PlaceAll, Runs;
    var start := Starts(|hs|, Pow2(blockBits));
    if i == 0 {
      written := {};
      assert hs[..0] == [];
      NothingPlaced(was, |hs|, blockBits);
    } else {
      written := NeverEndless(was, hs, blockBits, i - 1);
      PlaceAllPush(was, start, hs, blockBits, i - 1);
      var p := PlaceAll(was, start, hs[..i - 1], blockBits);
      if p.Placed? {
        var j := SomeSegmentCanWrite(start, p.pos, written, was, p.slots, |hs|);
        var first := SegmentIndex(hs[i - 1], blockBits);
        var found := Probe(p.slots, p.pos, first, |p.pos|);
        if found == Endless {
          EndlessPasses(p.slots, p.pos, first, |p.pos|, j);
          assert false;
        }
        if found.Found? {
          RunGrows(start, p.pos, written, was, p.slots, found.segment, hs[i - 1]);
          written := written + {p.pos[found.segment]};
        }
      }
    }
  }

  lemma NothingPlaced(was: seq<nat>, size: nat, blockBits: nat)
    requires 1 <= blockBits <= 31
    ensures PlaceAll(was, Starts(size, Pow2(blockBits)), [], blockBits) == Placed(was, Starts(size, Pow2(blockBits)))
    ensures Runs(Starts(size, Pow2(blockBits)), Starts(size, Pow2(blockBits)), {}, was, was)
  {
    hide Pow2;
    DivModUnique(0, Pow2(blockBits), 0, 0);
  }

  // ---- With a sentinel ----

  function Zeros(n: nat): multiset<nat> {
    multiset(seq(n, _ => 0))
  }

  lemma ZerosStep(n: nat)
    requires n > 0
    ensures Zeros(n) == Zeros(n - 1) + multiset{0}
  {
    assert seq(n, _ => 0) == seq(n - 1, _ => 0) + [0];
  }

  lemma ReplaceZero(a: seq<nat>, i: nat, h: nat)
    requires i < |a| && a[i] == 0
    ensures multiset(a[i := h]) + multiset{0} == multiset(a) + multiset{h}
  {
    assert a == a[..i] + [0] + a[i + 1..];
    assert a[i := h] == a[..i] + [h] + a[i + 1..];
  }

  /** The first i hashes have been placed below the sentinel. */
  ghost predicate Progress(was: seq<nat>, slots: seq<nat>, pos: seq<nat>, hs: seq<uint64>, i: nat) {
    && i <= |hs| < |slots| == |was|
    && (forall j :: 0 <= j < |pos| ==> pos[j] <= |hs|)
    && slots[|hs|..] == was[|hs|..]
    && multiset(slots[..|hs|]) == multiset(hs[..i]) + Zeros(|hs| - i)
  }

  lemma OneMorePlaced(was: seq<nat>, slots: seq<nat>, pos: seq<nat>, hs: seq<uint64>, i: nat, s: nat)
    requires Progress(was, slots, pos, hs, i) && i < |hs| && was[|hs|] != 0
    requires s < |pos| && pos[s] < |slots| && slots[pos[s]] == 0
    ensures Progress(was, slots[pos[s] := hs[i]], pos[s := pos[s] + 1], hs, i + 1)
  {
    hide Zeros;
    assert slots[|hs|] == slots[|hs|..][0] == was[|hs|];
    var front, x := slots[..|hs|], pos[s];
    assert slots[x := hs[i]][..|hs|] == front[x := hs[i]];
    assert slots[x := hs[i]][|hs|..] == slots[|hs|..];
    ReplaceZero(front, x, hs[i]);
    ZerosStep(|hs| - i);
    assert hs[..i + 1] == hs[..i] + [hs[i]];
    assert multiset(front[x := hs[i]]) + multiset{0}
        == multiset(hs[..i + 1]) + Zeros(|hs| - (i + 1)) + multiset{0};
  }

  /** With a sentinel no position passes it, so every hash finds its slot. */
  lemma {:induction false} SentinelHolds(was: seq<nat>, hs: seq<uint64>, blockBits: nat, i: nat)
    requires 1 <= blockBits <= 31 && i <= |hs| < |was|
    requires (forall x :: 0 <= x < |hs| ==> was[x] == 0) && was[|hs|] != 0
    ensures var p := PlaceAll(was, Starts(|hs|, Pow2(blockBits)), hs[..i], blockBits);
            p.Placed? && Progress(was, p.slots, p.pos, hs, i)
    decreases i
  {
    hide Pow2, SegmentIndex, Probe, PlaceAll, Runs, Progress;
    var start := Starts(|hs|, Pow2(blockBits));
    if i == 0 {
      assert hs[..0] == [];
      NothingPlaced(was, |hs|, blockBits);
      StartsInside(|hs|, Pow2(blockBits));
      ProgressStarts(was, start, hs);
    } else {
      SentinelHolds(was, hs, blockBits, i - 1);
      PlaceAllPush(was, start, hs, blockBits, i - 1);
      var p := PlaceAll(was, start, hs[..i - 1], blockBits);
      var written := NeverEndless(was, hs, blockBits, i);
      var first := SegmentIndex(hs[i - 1], blockBits);
      ProgressInside(was, p.slots, p.pos, hs, i - 1);
      NotPastEnd(p.slots, p.pos, first, |p.pos|);
      OneMorePlaced(was, p.slots, p.pos, hs, i - 1, Probe(p.slots, p.pos, first, |p.pos|).segment);
    }
  }

  lemma ProgressInside(was: seq<nat>, slots: seq<nat>, pos: seq<nat>, hs: seq<uint64>, i: nat)
    requires Progress(was, slots, pos, hs, i)
    ensures forall j :: 0 <= j < |pos| ==> pos[j] < |slots|
  {
  }

  lemma ProgressStarts(was: seq<nat>, start: seq<nat>, hs: seq<uint64>)
    requires |hs| < |was| && (forall x :: 0 <= x < |hs| ==> was[x] == 0)
    requires forall j :: 0 <= j < |start| ==> start[j] <= |hs|
    ensures Progress(was, was, start, hs, 0)
  {
    assert was[..|hs|] == seq(|hs|, _ => 0);
    assert hs[..0] == [];
  }

  lemma {:induction false} NotPastEnd(slots: seq<nat>, pos: seq<nat>, s: nat, rounds: nat)
    requires s < |pos| && forall j :: 0 <= j < |pos| ==> pos[j] < |slots|
    ensures Probe(slots, pos, s, rounds) != PastEnd
    decreases rounds
  {
    if rounds == 0 {
    } else {
      DivModSplit(s + 1, |pos|);
      NotPastEnd(slots, pos, (s + 1) % |pos|, rounds - 1);
    }
  }

  lemma StartsInside(size: nat, block: nat)
    requires block > 0
    ensures forall j :: 0 <= j < block ==> Starts(size, block)[j] <= size
  {
    forall j | 0 <= j < block
      ensures StartOf(j, size, block) <= size
    {
      MulNonNegative(j, size);
      MulNonNegative(block - j, size);
      assert (block - j) * size == block * size - j * size;
      assert (size + 1) * block == block * size + block;
      QuotientBelow(j * size, block, size + 1);
    }
  }

  /** The placement of all hashes is a permutation of them, below the sentinel. */
  ghost predicate PlacesAll(hs: seq<uint64>, blockBits: nat, was: seq<nat>)
    requires 1 <= blockBits <= 31 && |hs| < |was|
  {
    var p := PlaceAll(was, Starts(|hs|, Pow2(blockBits)), hs, blockBits);
    && p.Placed?
    && multiset(p.slots[..|hs|]) == multiset(hs)
    && p.slots[|hs|..] == was[|hs|..]
  }

  lemma SentinelSuffices(hs: seq<uint64>, blockBits: nat, was: seq<nat>)
    requires 1 <= blockBits <= 31 && |hs| < |was|
    requires (forall x :: 0 <= x < |hs| ==> was[x] == 0) && was[|hs|] != 0
    ensures PlacesAll(hs, blockBits, was)
  {
    hide Pow2, PlaceAll;
    SentinelHolds(was, hs, blockBits, |hs|);
    assert hs[..|hs|] == hs;
    var none: seq<nat> := seq(0, _ => 0);
    assert none == [];
  }

  /** Slots as they are before the first hash. */
  function Cleared(size: nat, sentinel: nat): (r: seq<nat>)
    ensures |r| == size + 1 && r[size] == sentinel && forall x :: 0 <= x < size ==> r[x] == 0
  {
    seq(size, _ => 0) + [sentinel]
  }

  // ---- What is above the sentinel does not matter ----

  ghost predicate AlikeBelow(a: seq<nat>, b: seq<nat>, n: nat) {
    n < |a| && n < |b| && a[..n] == b[..n] && a[n] != 0 && b[n] != 0
  }

  lemma {:induction false} ProbeAlike(a: seq<nat>, b: seq<nat>, n: nat, pos: seq<nat>, s: nat, rounds: nat)
    requires AlikeBelow(a, b, n) && s < |pos| && forall j :: 0 <= j < |pos| ==> pos[j] <= n
    ensures Probe(a, pos, s, rounds) == Probe(b, pos, s, rounds)
    ensures Probe(a, pos, s, rounds).Found? ==> pos[Probe(a, pos, s, rounds).segment] < n
    decreases rounds
  {
    if rounds == 0 {
    } else {
      assert pos[s] < n ==> a[pos[s]] == a[..n][pos[s]] == b[..n][pos[s]] == b[pos[s]];
      DivModSplit(s + 1, |pos|);
      ProbeAlike(a, b, n, pos, (s + 1) % |pos|, rounds - 1);
    }
  }

  lemma {:induction false} PlacedAlike(a: seq<nat>, b: seq<nat>, hs: seq<uint64>, blockBits: nat, i: nat)
    requires 1 <= blockBits <= 31 && i <= |hs| && AlikeBelow(a, b, |hs|)
    requires forall x :: 0 <= x < |hs| ==> a[x] == 0 && b[x] == 0
    ensures var start := Starts(|hs|, Pow2(blockBits));
            var p, q := PlaceAll(a, start, hs[..i], blockBits), PlaceAll(b, start, hs[..i], blockBits);
            p.Placed? && q.Placed? && p.pos == q.pos && AlikeBelow(p.slots, q.slots, |hs|)
    decreases i
  {
    hide Pow2, SegmentIndex, Probe, PlaceAll, Progress;
    var start := Starts(|hs|, Pow2(blockBits));
    if i == 0 {
      assert hs[..0] == [];
      NothingPlaced(a, |hs|, blockBits);
      NothingPlaced(b, |hs|, blockBits);
    } else {
      PlacedAlike(a, b, hs, blockBits, i - 1);
      SentinelHolds(a, hs, blockBits, i - 1);
      SentinelHolds(a, hs, blockBits, i);
      PlaceAllPush(a, start, hs, blockBits, i - 1);
      PlaceAllPush(b, start, hs, blockBits, i - 1);
      var p, q := PlaceAll(a, start, hs[..i - 1], blockBits), PlaceAll(b, start, hs[..i - 1], blockBits);
      ProgressBelow(a, p.slots, p.pos, hs, i - 1);
      var first := SegmentIndex(hs[i - 1], blockBits);
      ProbeAlike(p.slots, q.slots, |hs|, p.pos, first, |p.pos|);
      var x := p.pos[Probe(p.slots, p.pos, first, |p.pos|).segment];
      assert p.slots[x := hs[i - 1]][..|hs|] == p.slots[..|hs|][x := hs[i - 1]];
      assert q.slots[x := hs[i - 1]][..|hs|] == q.slots[..|hs|][x := hs[i - 1]];
    }
  }

  lemma ProgressBelow(was: seq<nat>, slots: seq<nat>, pos: seq<nat>, hs: seq<uint64>, i: nat)
    requires Progress(was, slots, pos, hs, i)
    ensures forall j :: 0 <= j < |pos| ==> pos[j] <= |hs|
  {
  }

  /** The hashes in the order in which placement leaves them below a sentinel. */
  function PlacedOrder(hs: seq<uint64>, blockBits: nat): (r: seq<uint64>)
    requires 1 <= blockBits <= 31
    ensures multiset(r) == multiset(hs)
  {
    SentinelSuffices(hs, blockBits, Cleared(|hs|, 1));
    var slots := PlaceAll(Cleared(|hs|, 1), Starts(|hs|, Pow2(blockBits)), hs, blockBits).slots[..|hs|];
    OnlyHashes(slots, hs);
    slots
  }

  lemma OnlyHashes(slots: seq<nat>, hs: seq<uint64>)
    requires multiset(slots) == multiset(hs)
    ensures forall i :: 0 <= i < |slots| ==> slots[i] < TWO_64
  {
    forall i | 0 <= i < |slots|
      ensures slots[i] < TWO_64
    {
      assert slots[i] in multiset(slots);
      assert slots[i] in multiset(hs);
      assert slots[i] in hs;
    }
  }

  lemma SentinelKeepsGoing(hs: seq<uint64>, blockBits: nat, was: seq<nat>)
    requires 1 <= blockBits <= 31 && |hs| < |was|
    requires forall x :: 0 <= x < |hs| ==> was[x] == 0
    ensures was[|hs|] != 0 ==>
              && PlacesAll(hs, blockBits, was)
              && PlaceAll(was, Starts(|hs|, Pow2(blockBits)), hs, blockBits).slots[..|hs|] == PlacedOrder(hs, blockBits)
  {
    hide PlaceAll, Pow2;
    if was[|hs|] != 0 {
      SentinelSuffices(hs, blockBits, was);
      assert was[..|hs|] == Cleared(|hs|, 1)[..|hs|];
      assert hs[..|hs|] == hs;
      PlacedAlike(was, Cleared(|hs|, 1), hs, blockBits, |hs|);
    }
  }

  // ---- The loops themselves ----

  /** The search of the source, over the arrays; `ok` is false where it reads past the end. */
  method FindFree(order: array<uint64>, startPos: array<nat>, first: nat) returns (ok: bool, s: nat)
    requires first < startPos.Length
    requires Probe(order[..], startPos[..], first, startPos.Length) != Endless
    ensures ok <==> Probe(order[..], startPos[..], first, startPos.Length).Found?
    ensures ok ==> Probe(order[..], startPos[..], first, startPos.Length) == Found(s)
    ensures ok ==> s < startPos.Length && startPos[s] < order.Length && order[startPos[s]] == 0
    ensures ok ==> forall j :: 0 <= j < startPos.Length && PassedOver(first, s, j) ==>
                     startPos[j] < order.Length && order[startPos[j]] != 0
  {
    s := first;
    ghost var rounds := startPos.Length;
    while true
      invariant s < startPos.Length && rounds >= 0
      invariant Probe(order[..], startPos[..], s, rounds) == Probe(order[..], startPos[..], first, startPos.Length)
      decreases rounds
    {
      if startPos[s] >= order.Length {
        return false, s;
      }
      if order[startPos[s]] == 0 {
        forall j | 0 <= j < startPos.Length
          ensures PassedOver(first, s, j) ==> startPos[j] < order.Length && order[startPos[j]] != 0
        {
          ProbeIsFirst(order[..], startPos[..], first, startPos.Length, j);
        }
        return true, s;
      }
      DivModSplit(s + 1, startPos.Length);
      s := (s + 1) % startPos.Length;
      rounds := rounds - 1;
    }
  }

  method StartPositions(size: nat, block: nat) returns (startPos: array<nat>)
    requires block > 0
    ensures fresh(startPos) && startPos[..] == Starts(size, block)
  {
    startPos := new nat[block];
    var i := 0;
    while i < block
      invariant 0 <= i <= block
      invariant forall j :: 0 <= j < i ==> startPos[j] == StartOf(j, size, block)
    {
      startPos[i] := StartOf(i, size, block);
      i := i + 1;
    }
  }

  /** The placement loop. It ends, and does what the steps on values do; `ok` is false where
      it would read past the end. With a sentinel it succeeds, and the slots below become a
      permutation of the hashes, zeros included. */
  method PlaceHashes(hs: seq<uint64>, blockBits: nat, order: array<uint64>) returns (ok: bool)
    requires 1 <= blockBits <= 31
    requires order.Length > |hs|
    requires forall i :: 0 <= i < |hs| ==> order[i] == 0
    modifies order
    ensures var p := PlaceAll(old(order[..]), Starts(|hs|, Pow2(blockBits)), hs, blockBits);
            (ok <==> p.Placed?) && (ok ==> order[..] == p.slots) && p != Stopped(Endless)
    ensures old(order[|hs|]) != 0 ==>
              && ok && order[..|hs|] == PlacedOrder(hs, blockBits) && multiset(order[..|hs|]) == multiset(hs)
              && forall i :: |hs| <= i < order.Length ==> order[i] == old(order[i])
  {
    hide Pow2, Runs, PlaceAll, Probe, SegmentIndex, Starts, PlacedOrder;
    ghost var was := order[..];
    assert forall x :: 0 <= x < |hs| ==> was[x] == 0;
    var startPos := StartPositions(|hs|, Pow2(blockBits));
    ghost var start := startPos[..];
    NothingPlaced(was, |hs|, blockBits);
    assert hs[..0] == [];
    var i := 0;
    while i < |hs|
      invariant 0 <= i <= |hs|
      invariant PlaceAll(was, start, hs[..i], blockBits) == Placed(order[..], startPos[..])
    {
      ghost var slots, pos := order[..], startPos[..];
      ghost var written := NeverEndless(was, hs, blockBits, i + 1);
      PlaceAllPush(was, start, hs, blockBits, i);
      var s: nat;
      ok, s := FindFree(order, startPos, SegmentIndex(hs[i], blockBits));
      if !ok {
        StoppedStays(was, start, hs, blockBits, i + 1, |hs|);
        assert hs[..|hs|] == hs;
        SentinelKeepsGoing(hs, blockBits, was);
        return;
      }
      order[startPos[s]] := hs[i];
      startPos[s] := startPos[s] + 1;
      assert order[..] == slots[pos[s] := hs[i]];
      assert startPos[..] == pos[s := pos[s] + 1];
      i := i + 1;
    }
    assert hs[..|hs|] == hs;
    ok := true;
    SentinelKeepsGoing(hs, blockBits, was);
  }

  // ---- Without a sentinel ----

  const ALL_ONES: uint64 := 0xffff_ffff_ffff_ffff

  lemma LastSegment(blockBits: nat)
    requires 1 <= blockBits <= 31
    ensures SegmentIndex(ALL_ONES, blockBits) == Pow2(blockBits) - 1
  {
    hide Pow2;
    var p, q := Pow2(blockBits), Pow2(64 - blockBits);
    Pow64();
    Pow2Add(blockBits, 64 - blockBits);
    assert (p - 1) * q == p * q - q;
    DivModUnique(ALL_ONES, q, p - 1, q - 1);
  }

  /** The last segment begins after the first slot and before the end. */
  lemma LastStart(size: nat, block: nat)
    requires size >= 2 && block >= 2
    ensures 1 <= StartOf(block - 1, size, block) < size
  {
    var x, d := (block - 1) * size, StartOf(block - 1, size, block);
    assert x == block * size - size;
    assert size * block == block * size;
    QuotientBelow(x, block, size);
    MulNonNegative(block - 1, size - 2);
    assert (block - 1) * (size - 2) == x - 2 * (block - 1);
    DivModSplit(x, block);
    assert d * block == d + d * (block - 1);
  }

  /** n slots from p on hold all ones, the others nothing. */
  function Row(size: nat, p: nat, n: nat): (r: seq<nat>)
    requires p + n <= size + 1
    ensures |r| == size + 1
  {
    seq(size + 1, x => if p <= x < p + n then ALL_ONES else 0)
  }

  function Ones(n: nat): seq<uint64> {
    seq(n, _ => ALL_ONES)
  }

  /** Hashes that all belong to the last segment fill it, and then the slot past the end. */
  lemma {:induction false} FillsPastEnd(size: nat, blockBits: nat, p: nat, n: nat)
    requires size >= 2 && 1 <= blockBits <= 31
    requires p == StartOf(Pow2(blockBits) - 1, size, Pow2(blockBits)) && p + n <= size + 1
    ensures var start := Starts(size, Pow2(blockBits));
            PlaceAll(Cleared(size, 0), start, Ones(n), blockBits)
              == Placed(Row(size, p, n), start[Pow2(blockBits) - 1 := p + n])
    decreases n
  {
    hide Pow2, SegmentIndex, PlaceAll;
    var last, start := Pow2(blockBits) - 1, Starts(size, Pow2(blockBits));
    if n == 0 {
      NothingPlaced(Cleared(size, 0), size, blockBits);
      assert Ones(0) == [];
      assert Row(size, p, 0) == Cleared(size, 0);
      assert start[last := p] == start;
    } else {
      FillsPastEnd(size, blockBits, p, n - 1);
      assert Ones(n)[..n - 1] == Ones(n - 1) && Ones(n)[..n] == Ones(n);
      PlaceAllPush(Cleared(size, 0), start, Ones(n), blockBits, n - 1);
      LastSegment(blockBits);
      var slots, pos := Row(size, p, n - 1), start[last := p + n - 1];
      assert slots[pos[last]] == 0;
      assert Probe(slots, pos, last, |pos|) == Found(last);
      assert slots[p + n - 1 := ALL_ONES] == Row(size, p, n);
      assert pos[last := p + n] == start[last := p + n];
    }
  }

  /** Without a sentinel the hashes of the last segment run past the end. */
  lemma LosesAHash(size: nat, blockBits: nat)
    requires size >= 2 && 1 <= blockBits <= 31
    ensures !PlacesAll(Ones(size), blockBits, Cleared(size, 0))
  {
    hide Pow2, PlaceAll;
    var last, start := Pow2(blockBits) - 1, Starts(size, Pow2(blockBits));
    PowMonotone(1, blockBits);
    PowZero();
    PowDouble(0);
    var p := StartOf(last, size, Pow2(blockBits));
    LastStart(size, Pow2(blockBits));
    var n := size + 1 - p;
    FillsPastEnd(size, blockBits, p, n);
    var hs := Ones(size);
    assert hs[..n] == Ones(n);
    if n == size {
      assert hs[..n] == hs;
      var slots := Row(size, p, n)[..size];
      assert slots[0] == 0;
      assert 0 in multiset(slots);
      assert 0 !in multiset(hs);
    } else {
      PlaceAllPush(Cleared(size, 0), start, hs, blockBits, n);
      LastSegment(blockBits);
      var pos := start[last := size + 1];
      assert Probe(Row(size, p, n), pos, last, |pos|) == PastEnd;
      StoppedStays(Cleared(size, 0), start, hs, blockBits, n + 1, size);
      assert hs[..size] == hs;
    }
  }

  /** One hash needs no sentinel: every segment begins at the first slot. */
  lemma OneHashFits(hs: seq<uint64>, blockBits: nat, sentinel: nat)
    requires |hs| == 1 && 1 <= blockBits <= 31
    ensures PlacesAll(hs, blockBits, Cleared(1, sentinel))
  {
    hide Pow2, SegmentIndex;
    var block := Pow2(blockBits);
    var s := SegmentIndex(hs[0], blockBits);
    DivModUnique(s, block, 0, s);
    var was, pos := Cleared(1, sentinel), Starts(1, block);
    assert pos[s] == 0;
    NothingPlaced(was, 1, blockBits);
    assert hs[..0] == [] && hs[..1] == hs;
    PlaceAllPush(was, pos, hs, blockBits, 0);
    assert was[0 := hs[0]][..1] == [hs[0]];
  }

  lemma NoHashFits(hs: seq<uint64>, blockBits: nat, sentinel: nat)
    requires |hs| == 0 && 1 <= blockBits <= 31
    ensures PlacesAll(hs, blockBits, Cleared(0, sentinel))
  {
    hide Pow2;
    assert Cleared(0, sentinel)[..0] == [];
  }

  /** Placement works for every list of hashes of a given length exactly when there is a
      sentinel, or when there are fewer than two hashes. */
  lemma SentinelExactlyNeeded(size: nat, blockBits: nat, sentinel: nat)
    requires 1 <= blockBits <= 31
    ensures (forall hs: seq<uint64> :: |hs| == size ==> PlacesAll(hs, blockBits, Cleared(size, sentinel)))
            <==> sentinel != 0 || size < 2
  {
    hide PlacesAll;
    if sentinel == 0 && size >= 2 {
      assert |Ones(size)| == size;
      LosesAHash(size, blockBits);
    } else {
      forall hs: seq<uint64> | |hs| == size
        ensures PlacesAll(hs, blockBits, Cleared(size, sentinel))
      {
        if sentinel != 0 {
          SentinelSuffices(hs, blockBits, Cleared(size, sentinel));
        } else if size == 0 {
          NoHashFits(hs, blockBits, sentinel);
        } else {
          OneHashFits(hs, blockBits, sentinel);
        }
      }
    }
  }
}
