/** One attempt to peel the hashes of all keys: place them, fill the tables, peel. */
module FuseAttempt {
  import opened Bits
  import opened FuseGeometry
  import opened FuseTables
  import opened FusePlacement
  import opened FuseFill
  import opened FusePeeling

  method Fill<T>(a: array<T>, n: nat, v: T)
    requires n <= a.Length
    modifies a
    ensures forall i :: 0 <= i < n ==> a[i] == v
    ensures forall i :: n <= i < a.Length ==> a[i] == old(a[i])
  {
    var i := 0;
    while i < n
      invariant 0 <= i <= n
      invariant forall j :: 0 <= j < i ==> a[j] == v
      invariant forall j :: n <= j < a.Length ==> a[j] == old(a[j])
    {
      a[i] := v;
      i := i + 1;
    }
  }

  // ---- One attempt ----

  /** The buffers as an attempt starts on them. */
  ghost predicate Ready(g: Shape, size: nat, alone: array<nat>, counts: array<nat>, hashes: array<nat>,
                        order: array<uint64>, reverseH: array<nat>)
    reads counts, hashes, order
  {
    && alone != counts && alone != hashes && alone != reverseH
    && counts != hashes && counts != reverseH && hashes != reverseH
    && alone.Length == counts.Length == hashes.Length == g.ArrayLength()
    && size < order.Length && size <= reverseH.Length
    && (forall i :: 0 <= i < size ==> order[i] == 0)
    && (forall s :: 0 <= s < counts.Length ==> counts[s] == 0)
    && (forall s :: 0 <= s < hashes.Length ==> hashes[s] == 0)
  }

  ghost predicate Peelable(g: Shape, items: seq<uint64>) {
    exists order: seq<uint64>, found: seq<nat> :: Stacked(g, order, found) && multiset(order) == multiset(items)
  }

  lemma SameMembers(a: seq<uint64>, b: seq<uint64>)
    requires multiset(a) == multiset(b)
    ensures forall x :: x in a <==> x in b
  {
    forall x: uint64
      ensures x in a <==> x in b
    {
      assert x in a <==> x in multiset(a);
      assert x in b <==> x in multiset(b);
    }
  }

  /** Everything was peeled exactly when the kept hashes can be peeled at all. */
  lemma PeeledIffPeelable(g: Shape, kept: seq<uint64>, left: seq<uint64>, order: seq<uint64>, found: seq<nat>)
    requires Stacked(g, order, found) && Stuck(g, left)
    requires multiset(order) + multiset(left) == multiset(kept)
    ensures left == [] <==> Peelable(g, kept)
  {
    hide Stacked, Stuck;
    if left == [] {
      assert multiset(order) == multiset(kept);
    }
    if Peelable(g, kept) {
      var o: seq<uint64>, f: seq<nat> :| Stacked(g, o, f) && multiset(o) == multiset(kept);
      PeelingIsComplete(g, kept, left, o, f);
    }
  }

  ghost predicate AllDistinct(hs: seq<uint64>) {
    forall i, j :: 0 <= i < j < |hs| ==> hs[i] != hs[j]
  }

  /** The hashes overfill no slot and can be peeled. */
  ghost predicate Solvable(g: Shape, hs: seq<uint64>) {
    !Crowded(g, hs) && Peelable(g, hs)
  }

  lemma PeelableDistinct(g: Shape, hs: seq<uint64>)
    ensures Peelable(g, hs) ==> AllDistinct(hs)
  {
    hide Stacked;
    if Peelable(g, hs) {
      var order: seq<uint64>, found: seq<nat> :| Stacked(g, order, found) && multiset(order) == multiset(hs);
      forall i, j | 0 <= i < j < |order|
        ensures order[i] != order[j]
      {
        StackedDistinct(g, order, found, i, j);
      }
      DistinctPermuted(order, hs);
    }
  }

  lemma DistinctPermuted(a: seq<uint64>, b: seq<uint64>)
    requires AllDistinct(a) && multiset(a) == multiset(b)
    ensures AllDistinct(b)
  {
    forall i, j | 0 <= i < j < |b|
      ensures b[i] != b[j]
    {
      DistinctOnce(a, b[i]);
      if b[i] == b[j] {
        TwiceIsTwo(b, i, j);
        assert false;
      }
    }
  }

  lemma PeelablePermuted(g: Shape, a: seq<uint64>, b: seq<uint64>)
    requires multiset(a) == multiset(b)
    ensures Peelable(g, a) <==> Peelable(g, b)
  {
  }

  /** Kept hashes less repetitions of distinct hashes are all of them. */
  lemma NothingRepeated(kept: seq<uint64>, items: seq<uint64>, duplicates: nat)
    requires Distils(kept, items, duplicates) && AllDistinct(items)
    ensures duplicates == 0 && multiset(kept) == multiset(items)
  {
    var k, i := multiset(kept), multiset(items);
    forall x: uint64
      ensures i[x] <= k[x]
    {
      DistinctOnce(items, x);
      if i[x] > 0 {
        assert x in items;
        assert x in kept;
        assert x in k;
      }
    }
    assert i <= k;
    assert k == i + (k - i);
    assert |k| == |i| + |k - i|;
  }

  /** The kept hashes have the members of those given; distinct hashes are all kept, and
      then overfill a slot or can be peeled exactly when the kept ones do. */
  lemma Survivors(g: Shape, hs: seq<uint64>, placed: seq<uint64>)
    requires multiset(placed) == multiset(hs)
    ensures |Kept(g, placed)| <= |hs|
    ensures forall x :: x in Kept(g, placed) <==> x in hs
    ensures AllDistinct(hs) ==>
              && |Kept(g, placed)| == |hs|
              && (Crowded(g, Kept(g, placed)) <==> Crowded(g, hs))
              && (Peelable(g, Kept(g, placed)) <==> Peelable(g, hs))
  {
    hide Kept, Crowded, Peelable;
    var kept := Kept(g, placed);
    KeptDistils(g, placed);
    SameMembers(hs, placed);
    assert |multiset(placed)| == |multiset(hs)|;
    if AllDistinct(hs) {
      DistinctPermuted(hs, placed);
      NothingRepeated(kept, placed, |placed| - |kept|);
      CrowdedPermuted(g, kept, hs);
      PeelablePermuted(g, kept, hs);
    }
  }

  /** What an attempt without an error leaves below the sentinel: the stack, and above it
      the rest of the placed hashes. */
  ghost function LeftBehind(g: Shape, placed: seq<uint64>): (r: seq<uint64>) {
    var stack := PeelOrder(g, Kept(g, placed));
    if |stack| <= |placed| then stack + placed[|stack|..] else stack
  }

  lemma SolvableFacts(g: Shape, hs: seq<uint64>)
    ensures Solvable(g, hs) <==> !Crowded(g, hs) && Peelable(g, hs)
    ensures Solvable(g, hs) ==> AllDistinct(hs)
  {
    hide AllDistinct, Peelable, Crowded;
    PeelableDistinct(g, hs);
  }

  lemma DistilsSize(kept: seq<uint64>, items: seq<uint64>, duplicates: nat)
    requires Distils(kept, items, duplicates)
    ensures |kept| + duplicates == |items|
  {
  }

  /** The first half of an attempt: after an overflow everything is cleared. */
  method PlaceAndFill(g: Shape, hs: seq<uint64>, blockBits: nat, counts: array<nat>, hashes: array<nat>,
                      order: array<uint64>)
    returns (error: bool, duplicates: nat, ghost kept: seq<uint64>)
    requires counts != hashes && counts.Length == hashes.Length == g.ArrayLength()
    requires forall s :: 0 <= s < counts.Length ==> counts[s] == 0 && hashes[s] == 0
    requires 1 <= blockBits <= 31 && |hs| < order.Length && order[|hs|] != 0
    requires forall i :: 0 <= i < |hs| ==> order[i] == 0
    modifies counts, hashes, order
    ensures Holds(g, counts[..], hashes[..], kept) && Bounded(g, kept)
    ensures error <==> Crowded(g, Kept(g, PlacedOrder(hs, blockBits)))
    ensures kept == if error then [] else Kept(g, PlacedOrder(hs, blockBits))
    ensures !error ==> |kept| + duplicates == |hs| && order[..|hs|] == PlacedOrder(hs, blockBits)
    ensures if |hs| == 0 then !error && duplicates == 0 else duplicates < |hs|
    ensures error ==> Crowded(g, hs) && forall i :: 0 <= i < order.Length ==> order[i] == 0
    ensures !error ==> forall i :: |hs| <= i < order.Length ==> order[i] == old(order[i])
  {
    hide *;
    var ok := PlaceHashes(hs, blockBits, order);
    ghost var placed := order[..|hs|];
    error, duplicates, kept := FillTables(g, order, |hs|, counts, hashes);
    CrowdedPermuted(g, placed, hs);
    if error {
      Fill(order, order.Length, 0);
      Fill(counts, counts.Length, 0);
      Fill(hashes, hashes.Length, 0);
      kept := [];
      EmptyTables(g, counts[..], hashes[..]);
    } else {
      DistilsSize(kept, placed, duplicates);
    }
  }

  /** Place, fill and peel. When the attempt succeeds the stack holds every hash given and
      can be solved. It succeeds exactly when no 64 of the kept hashes share a slot and a
      peeling order of them exists; distinct hashes are all kept. */
  method Attempt(g: Shape, hs: seq<uint64>, blockBits: nat, alone: array<nat>, counts: array<nat>,
                 hashes: array<nat>, order: array<uint64>, reverseH: array<nat>)
    returns (error: bool, duplicates: nat, stacksize: nat, ghost kept: seq<uint64>)
    requires Ready(g, |hs|, alone, counts, hashes, order, reverseH)
    requires 1 <= blockBits <= 31 && order[|hs|] != 0
    modifies alone, counts, hashes, order, reverseH
    ensures stacksize <= |hs|
    ensures stacksize + duplicates == |hs| ==>
              && !error
              && Stacked(g, order[..stacksize], reverseH[..stacksize])
              && forall h :: h in hs ==> h in order[..stacksize]
    ensures !error ==> |kept| + duplicates == |hs| && forall h :: h in hs <==> h in kept
    ensures !error ==> (stacksize + duplicates == |hs| <==> Peelable(g, kept))
    ensures var k := Kept(g, PlacedOrder(hs, blockBits));
            && (error <==> Crowded(g, k))
            && (!error ==> kept == k)
            && (stacksize + duplicates == |hs| <==> Solvable(g, k))
    ensures error ==> Crowded(g, hs)
    ensures AllDistinct(hs) ==>
              && (error <==> Crowded(g, hs))
              && (stacksize + duplicates == |hs| <==> Solvable(g, hs))
              && (!error ==> duplicates == 0)
    ensures Solvable(g, hs) ==> stacksize + duplicates == |hs|
    ensures !error ==> order[..|hs|] == LeftBehind(g, PlacedOrder(hs, blockBits))
    ensures error ==> forall i :: 0 <= i < order.Length ==> order[i] == 0
    ensures !error ==> forall i :: |hs| <= i < order.Length ==> order[i] == old(order[i])
    ensures !error ==> forall i :: 0 <= i < |hs| ==> order[i] in hs
  {
    hide *;
    ReadyFacts(g, |hs|, alone, counts, hashes, order, reverseH);
    ghost var placed := PlacedOrder(hs, blockBits);
    Survivors(g, hs, placed);
    SolvableFacts(g, hs);
    SolvableFacts(g, Kept(g, placed));
    error, duplicates, kept := PlaceAndFill(g, hs, blockBits, counts, hashes, order);
    MakeBuffers(g, alone, counts, hashes, order, reverseH, kept);
    ghost var left;
    stacksize, left := Peel(g, alone, counts, hashes, order, reverseH, kept);
    if !error {
      PeeledIffPeelable(g, kept, left, order[..stacksize], reverseH[..stacksize]);
      StackFromKept(order[..stacksize], left, kept);
      assert forall i :: stacksize <= i < |hs| ==> order[i] == placed[i];
      assert order[..|hs|][..stacksize] == order[..stacksize];
      StackThenRest(g, placed, order[..stacksize], order[..|hs|]);
      SameMembers(placed, hs);
    }
  }

  lemma StackThenRest(g: Shape, placed: seq<uint64>, stack: seq<uint64>, after: seq<uint64>)
    requires stack == PeelOrder(g, Kept(g, placed)) && |stack| <= |placed| == |after|
    requires after[..|stack|] == stack && forall i :: |stack| <= i < |after| ==> after[i] == placed[i]
    ensures after == LeftBehind(g, placed)
  {
    hide PeelOrder, Kept;
    assert after == after[..|stack|] + after[|stack|..];
  }

  lemma StackFromKept(order: seq<uint64>, left: seq<uint64>, kept: seq<uint64>)
    requires multiset(order) + multiset(left) == multiset(kept)
    ensures forall i :: 0 <= i < |order| ==> order[i] in kept
    ensures left == [] ==> forall x :: x in kept ==> x in order
  {
    forall i | 0 <= i < |order|
      ensures order[i] in kept
    {
      assert order[i] in multiset(order);
      assert order[i] in multiset(kept);
    }
    if left == [] {
      SameMembers(order, kept);
    }
  }

  lemma ReadyFacts(g: Shape, size: nat, alone: array<nat>, counts: array<nat>, hashes: array<nat>,
                   order: array<uint64>, reverseH: array<nat>)
    requires Ready(g, size, alone, counts, hashes, order, reverseH)
    ensures alone != counts && alone != hashes && alone != reverseH
    ensures counts != hashes && counts != reverseH && hashes != reverseH
    ensures alone.Length == counts.Length == hashes.Length == g.ArrayLength()
    ensures size < order.Length && size <= reverseH.Length
    ensures forall i :: 0 <= i < size ==> order[i] == 0
    ensures forall s :: 0 <= s < counts.Length ==> counts[s] == 0
    ensures forall s :: 0 <= s < hashes.Length ==> hashes[s] == 0
  {
  }

  lemma MakeBuffers(g: Shape, alone: array<nat>, counts: array<nat>, hashes: array<nat>,
                    order: array<uint64>, reverseH: array<nat>, kept: seq<uint64>)
    requires alone != counts && alone != hashes && alone != reverseH
    requires counts != hashes && counts != reverseH && hashes != reverseH
    requires alone.Length == counts.Length == hashes.Length == g.ArrayLength()
    requires |kept| <= order.Length && |kept| <= reverseH.Length
    ensures Buffers(g, alone, counts, hashes, order, reverseH, kept)
  {
  }

  /** Clear the tables, and the slots below the sentinel. */
  method Reset(g: Shape, size: nat, alone: array<nat>, counts: array<nat>, hashes: array<nat>,
               order: array<uint64>, reverseH: array<nat>)
    requires alone != counts && alone != hashes && alone != reverseH
    requires counts != hashes && counts != reverseH && hashes != reverseH
    requires alone.Length == counts.Length == hashes.Length == g.ArrayLength()
    requires size < order.Length && size <= reverseH.Length
    modifies counts, hashes, order
    ensures Ready(g, size, alone, counts, hashes, order, reverseH)
    ensures order[size] == old(order[size])
  {
    Fill(order, size, 0);
    Fill(counts, counts.Length, 0);
    Fill(hashes, hashes.Length, 0);
  }

  lemma MakeReady(g: Shape, size: nat, alone: array<nat>, counts: array<nat>, hashes: array<nat>,
                  order: array<uint64>, reverseH: array<nat>)
    requires alone != counts && alone != hashes && alone != reverseH
    requires counts != hashes && counts != reverseH && hashes != reverseH
    requires alone.Length == counts.Length == hashes.Length == g.ArrayLength()
    requires size < order.Length && size <= reverseH.Length
    requires forall i :: 0 <= i < size ==> order[i] == 0
    requires forall s :: 0 <= s < counts.Length ==> counts[s] == 0
    requires forall s :: 0 <= s < hashes.Length ==> hashes[s] == 0
    ensures Ready(g, size, alone, counts, hashes, order, reverseH)
  {
  }
}
