/** Adding every hash to the tables, and dropping the ones found to be duplicates. */
module FuseFill {
  import opened Bits
  import opened FuseGeometry
  import opened FuseTables

  /** The tables hold exactly the given items. */
  ghost predicate Holds(g: Shape, counts: seq<nat>, hashes: seq<nat>, items: seq<uint64>) {
    && |counts| == |hashes| == g.ArrayLength()
    && forall s :: 0 <= s < |counts| ==>
         counts[s] == Encode(Total(g, items, s)) && hashes[s] == Total(g, items, s).hash
  }

  /** No count has reached the 64 that a byte cannot hold. */
  ghost predicate Bounded(g: Shape, items: seq<uint64>) {
    forall s :: 0 <= s < g.ArrayLength() ==> Total(g, items, s).count <= 63
  }

  /** Every slot of a hash, except slot `skip`, has been raised or lowered; no other slot
      has changed. */
  ghost predicate Changed(g: Shape, hash: uint64, skip: int, raise: bool,
                          c: seq<nat>, h: seq<nat>, c': seq<nat>, h': seq<nat>)
  {
    && |c| == |h| == |c'| == |h'| == g.ArrayLength()
    && forall s :: 0 <= s < |c| ==>
         if Touches(g, hash, s) && s != skip then
           var k := Position(g, hash, s);
           c'[s] == (if raise then Raised(c[s], k) else Lowered(c[s], k)) && h'[s] == Xor(h[s], hash)
         else
           c'[s] == c[s] && h'[s] == h[s]
  }

  lemma HoldsMore(g: Shape, hash: uint64, c: seq<nat>, h: seq<nat>, c': seq<nat>, h': seq<nat>, items: seq<uint64>)
    requires Holds(g, c, h, items) && Changed(g, hash, -1, true, c, h, c', h')
    ensures Holds(g, c', h', items + [hash])
  {
    hide Touches, Position, Encode, Raised, Lowered, Xor, Total, Geometry.ArrayLength;
    forall s | 0 <= s < |c|
      ensures c'[s] == Encode(Total(g, items + [hash], s)) && h'[s] == Total(g, items + [hash], s).hash
    {
      TotalPush(g, items, hash, s);
      IndexBelow4(g, items, s);
      var t := Total(g, items, s);
      RaisedEncodes(t, Position(g, hash, s), Xor(t.hash, hash));
    }
  }

  lemma HoldsLess(g: Shape, hash: uint64, c: seq<nat>, h: seq<nat>, c': seq<nat>, h': seq<nat>, items: seq<uint64>)
    requires Holds(g, c, h, items + [hash]) && Changed(g, hash, -1, false, c, h, c', h')
    ensures Holds(g, c', h', items)
  {
    hide Touches, Position, Encode, Raised, Lowered, Xor, Total, Geometry.ArrayLength;
    forall s | 0 <= s < |c|
      ensures c'[s] == Encode(Total(g, items, s)) && h'[s] == Total(g, items, s).hash
    {
      TotalPush(g, items, hash, s);
      LoweredCell(g, hash, Total(g, items, s), items, s);
    }
  }

  lemma LoweredCell(g: Shape, hash: uint64, t: Cell, items: seq<uint64>, s: nat)
    requires t == Total(g, items, s)
    ensures Touches(g, hash, s) ==>
              && Lowered(Encode(Add(g, t, hash, s)), Position(g, hash, s)) == Encode(t)
              && Xor(Add(g, t, hash, s).hash, hash) == t.hash
  {
    hide Touches, Position, Encode, Raised, Lowered, Xor, Total;
    IndexBelow4(g, items, s);
    LoweredEncodes(t, Position(g, hash, s), Xor(t.hash, hash));
    XorCancel(t.hash, hash);
  }

  method RaiseSlots(g: Shape, hash: uint64, counts: array<nat>, hashes: array<nat>)
    requires counts != hashes && counts.Length == hashes.Length == g.ArrayLength()
    modifies counts, hashes
    ensures Changed(g, hash, -1, true, old(counts[..]), old(hashes[..]), counts[..], hashes[..])
  {
    hide Slot, Xor, Raised, Lowered, Geometry.ArrayLength;
    SlotsDiffer(g, hash);
    var h0, h1, h2 := Slot(g, 0, hash), Slot(g, 1, hash), Slot(g, 2, hash);
    counts[h0] := Raised(counts[h0], 0);
    hashes[h0] := Xor(hashes[h0], hash);
    counts[h1] := Raised(counts[h1], 1);
    hashes[h1] := Xor(hashes[h1], hash);
    counts[h2] := Raised(counts[h2], 2);
    hashes[h2] := Xor(hashes[h2], hash);
  }

  method LowerSlots(g: Shape, hash: uint64, counts: array<nat>, hashes: array<nat>)
    requires counts != hashes && counts.Length == hashes.Length == g.ArrayLength()
    modifies counts, hashes
    ensures Changed(g, hash, -1, false, old(counts[..]), old(hashes[..]), counts[..], hashes[..])
  {
    hide Slot, Xor, Raised, Lowered, Geometry.ArrayLength;
    SlotsDiffer(g, hash);
    var h0, h1, h2 := Slot(g, 0, hash), Slot(g, 1, hash), Slot(g, 2, hash);
    counts[h0] := Lowered(counts[h0], 0);
    hashes[h0] := Xor(hashes[h0], hash);
    counts[h1] := Lowered(counts[h1], 1);
    hashes[h1] := Xor(hashes[h1], hash);
    counts[h2] := Lowered(counts[h2], 2);
    hashes[h2] := Xor(hashes[h2], hash);
  }

  /** A slot that shows two hashes cancelling shows a hash added twice. */
  lemma DuplicateFound(g: Shape, c: seq<nat>, h: seq<nat>, kept: seq<uint64>, hash: uint64, s: nat)
    requires Holds(g, c, h, kept + [hash]) && Bounded(g, kept)
    requires s < |c| && Touches(g, hash, s) && c[s] == 8 && h[s] == 0
    ensures hash in kept
  {
    hide Touches, Position, Xor, Total, Geometry.ArrayLength;
    TotalPush(g, kept, hash, s);
    IndexBelow4(g, kept + [hash], s);
    var i := CancellingPair(g, kept, hash, s);
  }

  lemma DuplicateFits(g: Shape, c: seq<nat>, h: seq<nat>, kept: seq<uint64>, hash: uint64, s: nat)
    requires Holds(g, c, h, kept) && Bounded(g, kept) && hash in kept
    requires s < |c| && Touches(g, hash, s)
    ensures c[s] >= 4
  {
    hide Touches, Position, Xor, Total, Geometry.ArrayLength;
    EmptyCell(g, kept, s);
  }

  /** A byte below four after an addition means the 64th hash of its slot. */
  lemma FitsOrOverflows(g: Shape, c: seq<nat>, h: seq<nat>, kept: seq<uint64>, hash: uint64, s: nat)
    requires Holds(g, c, h, kept + [hash]) && Bounded(g, kept) && s < |c|
    ensures Touches(g, hash, s) && c[s] < 4 ==> Total(g, kept + [hash], s).count == 64
    ensures !Touches(g, hash, s) || c[s] >= 4 ==> Total(g, kept + [hash], s).count <= 63
  {
    hide Touches, Position, Xor, Total, Geometry.ArrayLength;
    TotalPush(g, kept, hash, s);
    IndexBelow4(g, kept + [hash], s);
  }

  lemma StillBounded(g: Shape, c: seq<nat>, h: seq<nat>, kept: seq<uint64>, hash: uint64)
    requires Holds(g, c, h, kept + [hash]) && Bounded(g, kept)
    requires forall s :: 0 <= s < |c| && Touches(g, hash, s) ==> c[s] >= 4
    ensures Bounded(g, kept + [hash])
  {
    hide Touches, Total, Encode, Geometry.ArrayLength;
    forall s | 0 <= s < g.ArrayLength()
      ensures Total(g, kept + [hash], s).count <= 63
    {
      FitsOrOverflows(g, c, h, kept, hash, s);
    }
  }

  predicate Cancelled(count: nat, hash: nat) {
    hash == 0 && count == 8
  }

  /** One cancelled hash makes the conjunction of the three zero. */
  lemma CancelledAnd(c0: nat, h0: nat, c1: nat, h1: nat, c2: nat, h2: nat)
    ensures Cancelled(c0, h0) || Cancelled(c1, h1) || Cancelled(c2, h2) ==> And(And(h0, h1), h2) == 0
  {
  }

  /** A hash is found to be a repetition: it is there already, and alone in a slot. */
  ghost predicate Repeats(g: Shape, kept: seq<uint64>, hash: uint64) {
    hash in kept && (AloneIn(g, kept, Slot(g, 0, hash)) || AloneIn(g, kept, Slot(g, 1, hash))
                     || AloneIn(g, kept, Slot(g, 2, hash)))
  }

  ghost predicate AloneIn(g: Shape, kept: seq<uint64>, s: nat) {
    Total(g, kept, s).count == 1
  }

  /** The hashes less those found to be repetitions of earlier ones. */
  ghost function Kept(g: Shape, items: seq<uint64>): seq<uint64> {
    if items == [] then []
    else
      var kept, last := Kept(g, items[..|items| - 1]), items[|items| - 1];
      if Repeats(g, kept, last) then kept else kept + [last]
  }

  lemma KeptPush(g: Shape, items: seq<uint64>, hash: uint64)
    ensures Kept(g, items + [hash])
         == if Repeats(g, Kept(g, items), hash) then Kept(g, items) else Kept(g, items) + [hash]
  {
    hide Repeats;
    assert (items + [hash])[..|items + [hash]| - 1] == items;
  }

  /** A slot of a hash shows a cancelled pair exactly when the hash was alone in it before. */
  lemma CancelledIffAlone(g: Shape, c: seq<nat>, h: seq<nat>, kept: seq<uint64>, hash: uint64, s: nat)
    requires Holds(g, c, h, kept + [hash]) && Bounded(g, kept) && s < |c| && Touches(g, hash, s)
    ensures Cancelled(c[s], h[s]) <==> hash in kept && AloneIn(g, kept, s)
  {
    hide Touches, Position, Xor, Total, Encode, Geometry.ArrayLength;
    TotalPush(g, kept, hash, s);
    IndexBelow4(g, kept + [hash], s);
    EncodedPair(Total(g, kept + [hash], s));
    if Cancelled(c[s], h[s]) {
      DuplicateFound(g, c, h, kept, hash, s);
    }
    if hash in kept && AloneIn(g, kept, s) {
      AloneCancels(g, kept, hash, s);
    }
  }

  lemma EncodedPair(c: Cell)
    requires c.count <= 64 && c.index < 4
    ensures Encode(c) == 8 <==> c.count == 2 && c.index == 0
  {
  }

  /** A hash that comes a second time to a slot it had alone cancels itself there. */
  lemma AloneCancels(g: Shape, kept: seq<uint64>, hash: uint64, s: nat)
    requires Touches(g, hash, s) && hash in kept && AloneIn(g, kept, s)
    ensures Total(g, kept + [hash], s) == Cell(2, 0, 0)
  {
    hide Touches, Position, Xor, Total;
    var j :| 0 <= j < |kept| && kept[j] == hash;
    TotalPush(g, kept, hash, s);
    TotalWithout(g, kept, j, s);
    EmptyCell(g, Without(kept, j), s);
    XorTwice(hash);
    XorTwice(Position(g, hash, s));
  }

  lemma XorTwice(a: nat)
    ensures Xor(Xor(0, a), a) == 0
  {
    XorSelf(a);
  }

  /** One round of the loop: the hash joins the kept ones, or is found to be one of them.
      Once an overflow has been seen (`exact` is false) the tables carry no promise. */
  method AddHash(g: Shape, hash: uint64, counts: array<nat>, hashes: array<nat>,
                 ghost kept: seq<uint64>, ghost exact: bool)
    returns (duplicate: bool, overflow: bool)
    requires counts != hashes && counts.Length == hashes.Length == g.ArrayLength()
    requires exact ==> Holds(g, counts[..], hashes[..], kept) && Bounded(g, kept)
    modifies counts, hashes
    ensures exact ==> (duplicate <==> Repeats(g, kept, hash))
    ensures exact && duplicate ==> !overflow && hash in kept && Holds(g, counts[..], hashes[..], kept)
    ensures exact && !duplicate && !overflow ==>
              Holds(g, counts[..], hashes[..], kept + [hash]) && Bounded(g, kept + [hash])
    ensures exact && overflow ==> Crowded(g, kept + [hash])
  {
    hide Holds, Bounded, Slot, Total, Changed, And, AloneIn, Cancelled, Geometry.ArrayLength;
    var h0, h1, h2 := Slot(g, 0, hash), Slot(g, 1, hash), Slot(g, 2, hash);
    ghost var c, h := counts[..], hashes[..];
    RaiseSlots(g, hash, counts, hashes);
    ghost var c1, h1' := counts[..], hashes[..];
    if exact {
      HoldsMore(g, hash, c, h, c1, h1', kept);
      CancelledIffAlone(g, c1, h1', kept, hash, h0);
      CancelledIffAlone(g, c1, h1', kept, hash, h1);
      CancelledIffAlone(g, c1, h1', kept, hash, h2);
    }
    CancelledAnd(counts[h0], hashes[h0], counts[h1], hashes[h1], counts[h2], hashes[h2]);
    duplicate := false;
    if And(And(hashes[h0], hashes[h1]), hashes[h2]) == 0 {
      if Cancelled(counts[h0], hashes[h0]) || Cancelled(counts[h1], hashes[h1]) || Cancelled(counts[h2], hashes[h2]) {
        duplicate := true;
        LowerSlots(g, hash, counts, hashes);
        if exact {
          HoldsLess(g, hash, c1, h1', counts[..], hashes[..], kept);
          DuplicateFits(g, counts[..], hashes[..], kept, hash, h0);
          DuplicateFits(g, counts[..], hashes[..], kept, hash, h1);
          DuplicateFits(g, counts[..], hashes[..], kept, hash, h2);
        }
      }
    }
    overflow := counts[h0] < 4 || counts[h1] < 4 || counts[h2] < 4;
    if exact && !duplicate {
      if overflow {
        FitsOrOverflows(g, c1, h1', kept, hash, h0);
        FitsOrOverflows(g, c1, h1', kept, hash, h1);
        FitsOrOverflows(g, c1, h1', kept, hash, h2);
      } else {
        StillBounded(g, c1, h1', kept, hash);
      }
    }
  }

  /** Some slot is touched by 64 of the hashes or more. */
  ghost predicate Crowded(g: Shape, items: seq<uint64>) {
    exists s :: 0 <= s < g.ArrayLength() && Total(g, items, s).count >= 64
  }

  ghost predicate Fewer(g: Shape, kept: seq<uint64>, items: seq<uint64>) {
    forall s :: 0 <= s < g.ArrayLength() ==> Total(g, kept, s).count <= Total(g, items, s).count
  }

  lemma FewerStays(g: Shape, kept: seq<uint64>, items: seq<uint64>, hash: uint64)
    requires Fewer(g, kept, items)
    ensures Fewer(g, kept, items + [hash]) && Fewer(g, kept + [hash], items + [hash])
  {
    hide Touches, Position, Xor, Total, Geometry.ArrayLength;
    forall s | 0 <= s < g.ArrayLength()
      ensures Total(g, kept, s).count <= Total(g, items + [hash], s).count
      ensures Total(g, kept + [hash], s).count <= Total(g, items + [hash], s).count
    {
      TotalPush(g, kept, hash, s);
      TotalPush(g, items, hash, s);
    }
  }

  lemma CrowdedStays(g: Shape, items: seq<uint64>, hash: uint64)
    requires Crowded(g, items)
    ensures Crowded(g, items + [hash])
  {
    hide Touches, Position, Xor, Total, Geometry.ArrayLength;
    var s :| 0 <= s < g.ArrayLength() && Total(g, items, s).count >= 64;
    TotalPush(g, items, hash, s);
  }

  lemma EmptyTables(g: Shape, c: seq<nat>, h: seq<nat>)
    requires |c| == |h| == g.ArrayLength()
    requires forall s :: 0 <= s < |c| ==> c[s] == 0 && h[s] == 0
    ensures Holds(g, c, h, []) && Bounded(g, []) && Fewer(g, [], [])
  {
  }

  /** The kept hashes are the hashes given, less repetitions. */
  ghost predicate Distils(kept: seq<uint64>, items: seq<uint64>, duplicates: nat) {
    && |kept| + duplicates == |items|
    && (forall i :: 0 <= i < |items| ==> items[i] in kept)
    && (forall i :: 0 <= i < |kept| ==> kept[i] in items)
  }

  lemma DistilsMore(kept: seq<uint64>, items: seq<uint64>, duplicates: nat, hash: uint64)
    requires Distils(kept, items, duplicates)
    ensures Distils(kept + [hash], items + [hash], duplicates)
    ensures hash in kept ==> Distils(kept, items + [hash], duplicates + 1)
  {
  }

  /** There is an error exactly when some slot is touched by 64 of the kept hashes. Without
      one the tables hold the kept hashes, and no hash given is missing from them. */
  method FillTables(g: Shape, order: array<uint64>, size: nat, counts: array<nat>, hashes: array<nat>)
    returns (error: bool, duplicates: nat, ghost kept: seq<uint64>)
    requires counts != hashes && counts.Length == hashes.Length == g.ArrayLength()
    requires size <= order.Length
    requires forall s :: 0 <= s < counts.Length ==> counts[s] == 0 && hashes[s] == 0
    modifies counts, hashes
    ensures !error ==> Holds(g, counts[..], hashes[..], kept) && Bounded(g, kept)
    ensures !error ==> Distils(kept, order[..size], duplicates)
    ensures error <==> Crowded(g, Kept(g, order[..size]))
    ensures !error ==> kept == Kept(g, order[..size])
    ensures error ==> Crowded(g, order[..size])
    ensures if size == 0 then !error && duplicates == 0 else duplicates < size
  {
    hide *;
    error, duplicates, kept := false, 0, [];
    EmptyTables(g, counts[..], hashes[..]);
    assert order[..0] == [];
    DistilsNothing();
    KeptNothing(g);
    var i := 0;
    while i < size
      invariant 0 <= i <= size
      invariant !error ==> Holds(g, counts[..], hashes[..], kept) && Bounded(g, kept)
      invariant !error ==> Distils(kept, order[..i], duplicates) && Fewer(g, kept, order[..i])
      invariant !error ==> kept == Kept(g, order[..i])
      invariant error ==> Crowded(g, order[..i]) && Crowded(g, Kept(g, order[..i]))
      invariant if i == 0 then !error && duplicates == 0 && kept == [] else duplicates < i
    {
      ghost var before := order[..i];
      var hash := order[i];
      var duplicate, overflow := AddHash(g, hash, counts, hashes, kept, !error);
      assert order[..i + 1] == before + [hash];
      KeptPush(g, before, hash);
      if error {
        CrowdedStays(g, before, hash);
        CrowdedStays(g, Kept(g, before), hash);
      } else {
        FewerStays(g, kept, before, hash);
        DistilsMore(kept, before, duplicates, hash);
        if overflow {
          CrowdedNow(g, kept + [hash], before + [hash]);
        }
        kept := if duplicate then kept else kept + [hash];
      }
      duplicates := if duplicate then duplicates + 1 else duplicates;
      error := overflow || error;
      i := i + 1;
    }
    if !error {
      CrowdedPermuted(g, kept, kept);
    }
  }

  lemma KeptNothing(g: Shape)
    ensures Kept(g, []) == []
  {
  }

  /** The kept hashes are the hashes given, less repetitions. */
  lemma {:induction false} KeptDistils(g: Shape, items: seq<uint64>)
    ensures |Kept(g, items)| <= |items| && Distils(Kept(g, items), items, |items| - |Kept(g, items)|)
    decreases |items|
  {
    hide Repeats, Distils;
    if items == [] {
      DistilsNothing();
    } else {
      var front, last := items[..|items| - 1], items[|items| - 1];
      assert items == front + [last];
      KeptDistils(g, front);
      KeptPush(g, front, last);
      DistilsMore(Kept(g, front), front, |front| - |Kept(g, front)|, last);
      RepeatsIn(g, Kept(g, front), last);
    }
  }

  lemma RepeatsIn(g: Shape, kept: seq<uint64>, hash: uint64)
    ensures Repeats(g, kept, hash) ==> hash in kept
  {
  }

  lemma DistilsNothing()
    ensures Distils([], [], 0)
  {
  }

  lemma CrowdedNow(g: Shape, kept: seq<uint64>, items: seq<uint64>)
    requires Fewer(g, kept, items) && Crowded(g, kept)
    ensures Crowded(g, items)
  {
    hide Total, Geometry.ArrayLength;
    var s :| 0 <= s < g.ArrayLength() && Total(g, kept, s).count >= 64;
  }

  lemma CrowdedPermuted(g: Shape, a: seq<uint64>, b: seq<uint64>)
    requires multiset(a) == multiset(b)
    ensures Crowded(g, a) <==> Crowded(g, b)
    ensures Bounded(g, a) ==> !Crowded(g, b)
  {
    hide Total, Geometry.ArrayLength;
    forall s: nat
      ensures Total(g, a, s) == Total(g, b, s)
    {
      TotalPermuted(g, a, b, s);
    }
  }

  /** Fewer than 64 hashes crowd no slot. */
  lemma {:induction false} CountWithin(g: Shape, items: seq<uint64>, s: nat)
    ensures Total(g, items, s).count <= |items|
    decreases |items|
  {
    hide Xor, Touches, Position;
    if items == [] {
    } else {
      CountWithin(g, items[..|items| - 1], s);
    }
  }

  lemma FewNotCrowded(g: Shape, items: seq<uint64>)
    requires |items| < 64
    ensures !Crowded(g, items)
  {
    hide Total, Geometry.ArrayLength;
    forall s: nat
      ensures Total(g, items, s).count <= 63
    {
      CountWithin(g, items, s);
    }
  }
}
