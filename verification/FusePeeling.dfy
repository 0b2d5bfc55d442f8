/** Peeling: slots touched by one remaining hash are taken from a queue, their hash goes
    on a stack, and the hash leaves its other two slots. */
module FusePeeling {
  import opened Bits
  import opened FuseGeometry
  import opened FuseTables
  import opened FuseFill

  /** The tables hold the remaining items, except in the settled slots, which keep a stale
      value and which no remaining item touches. */
  ghost predicate Tables(g: Shape, c: seq<nat>, h: seq<nat>, left: seq<uint64>, settled: set<nat>) {
    && |c| == |h| == g.ArrayLength()
    && (forall s :: 0 <= s < |c| && s !in settled ==>
         c[s] == Encode(Total(g, left, s)) && h[s] == Total(g, left, s).hash)
    && (forall s :: s in settled ==> Total(g, left, s).count == 0)
  }

  ghost predicate Distinct(queue: seq<nat>) {
    forall i, j :: 0 <= i < j < |queue| ==> queue[i] != queue[j]
  }

  /** The queue holds no slot twice, no settled slot, every slot that is touched once and
      otherwise only untouched ones. */
  ghost predicate Queued(g: Shape, queue: seq<nat>, left: seq<uint64>, settled: set<nat>) {
    && Distinct(queue)
    && (forall i :: 0 <= i < |queue| ==>
         queue[i] < g.ArrayLength() && queue[i] !in settled && Total(g, left, queue[i]).count <= 1)
    && (forall s :: 0 <= s < g.ArrayLength() && Total(g, left, s).count == 1 ==> s in queue)
  }

  /** Each stacked hash has a slot that no hash above it on the stack touches. */
  ghost predicate Stacked(g: Shape, order: seq<uint64>, found: seq<nat>) {
    && |order| == |found|
    && (forall k :: 0 <= k < |found| ==> found[k] <= 2)
    && (forall j, k :: 0 <= j < k < |order| ==> !Touches(g, order[k], Slot(g, found[j], order[j])))
  }

  ghost predicate Settles(g: Shape, order: seq<uint64>, found: seq<nat>, settled: set<nat>) {
    && |order| == |found|
    && forall k :: 0 <= k < |found| ==> found[k] <= 2 && Slot(g, found[k], order[k]) in settled
  }

  // ---- One step, on values ----

  lemma TablesStep(g: Shape, hash: uint64, index: nat, c: seq<nat>, h: seq<nat>, c': seq<nat>, h': seq<nat>,
                   left: seq<uint64>, i: nat, settled: set<nat>)
    requires Tables(g, c, h, left, settled) && Bounded(g, left)
    requires i < |left| && left[i] == hash && Touches(g, hash, index)
    requires Total(g, left, index).count == 1 && index < |c|
    requires Changed(g, hash, index, false, c, h, c', h')
    ensures Tables(g, c', h', Without(left, i), settled + {index}) && Bounded(g, Without(left, i))
  {
    hide Touches, Position, Encode, Raised, Lowered, Xor, Total, Geometry.ArrayLength;
    var rest := Without(left, i);
    forall s: nat
      ensures Total(g, left, s) == Add(g, Total(g, rest, s), hash, s)
    {
      TotalWithout(g, left, i, s);
    }
    forall s | 0 <= s < |c| && s !in settled && s != index
      ensures c'[s] == Encode(Total(g, rest, s)) && h'[s] == Total(g, rest, s).hash
    {
      LoweredCell(g, hash, Total(g, rest, s), rest, s);
    }
  }

  function PushIf(queue: seq<nat>, s: nat, push: bool): seq<nat> {
    if push then queue + [s] else queue
  }

  /** The slots of a peeled hash besides the one it was found by. */
  ghost predicate Others(g: Shape, hash: uint64, index: nat, o1: nat, o2: nat) {
    && index < g.ArrayLength() && o1 < g.ArrayLength() && o2 < g.ArrayLength()
    && index != o1 && index != o2 && o1 != o2
    && forall s :: Touches(g, hash, s) <==> s == index || s == o1 || s == o2
  }

  lemma QueueStep(g: Shape, hash: uint64, index: nat, o1: nat, o2: nat, queue: seq<nat>,
                  left: seq<uint64>, i: nat, settled: set<nat>)
    requires Queued(g, queue + [index], left, settled)
    requires i < |left| && left[i] == hash && Others(g, hash, index, o1, o2)
    requires Total(g, left, index).count == 1
    requires forall s :: s in settled ==> Total(g, left, s).count == 0
    ensures Queued(g, PushIf(PushIf(queue, o1, Total(g, left, o1).count == 2), o2, Total(g, left, o2).count == 2),
                   Without(left, i), settled + {index})
  {
    hide Touches, Position, Xor, Total, Geometry.ArrayLength, Without;
    var rest := Without(left, i);
    forall s: nat
      ensures Total(g, left, s).count == Total(g, rest, s).count + (if s == index || s == o1 || s == o2 then 1 else 0)
    {
      TotalWithout(g, left, i, s);
      assert Touches(g, hash, s) <==> s == index || s == o1 || s == o2;
    }
    assert forall k :: 0 <= k < |queue| ==> queue[k] == (queue + [index])[k];
    assert (queue + [index])[|queue|] == index;
    QueueStepCounts(g, index, o1, o2, queue, left, rest, settled);
  }

  lemma QueueStepCounts(g: Shape, index: nat, o1: nat, o2: nat, queue: seq<nat>,
                        left: seq<uint64>, rest: seq<uint64>, settled: set<nat>)
    requires Queued(g, queue + [index], left, settled)
    requires index < g.ArrayLength() && o1 < g.ArrayLength() && o2 < g.ArrayLength()
    requires index != o1 && index != o2 && o1 != o2
    requires forall s: nat :: Total(g, left, s).count
                           == Total(g, rest, s).count + (if s == index || s == o1 || s == o2 then 1 else 0)
    requires Total(g, left, index).count == 1
    requires forall s :: s in settled ==> Total(g, left, s).count == 0
    ensures Queued(g, PushIf(PushIf(queue, o1, Total(g, left, o1).count == 2), o2, Total(g, left, o2).count == 2),
                   rest, settled + {index})
  {
    hide Touches, Position, Xor, Total, Geometry.ArrayLength;
    var q1 := PushIf(queue, o1, Total(g, left, o1).count == 2);
    var q2 := PushIf(q1, o2, Total(g, left, o2).count == 2);
    assert forall k :: 0 <= k < |queue| ==> queue[k] == (queue + [index])[k];
    assert (queue + [index])[|queue|] == index;
    forall s | 0 <= s < g.ArrayLength() && Total(g, rest, s).count == 1
      ensures s in q2
    {
      if s != index && s != o1 && s != o2 {
        assert s in queue + [index];
      }
    }
  }

  lemma StackStep(g: Shape, hash: uint64, k: nat, order: seq<uint64>, found: seq<nat>,
                  left: seq<uint64>, i: nat, settled: set<nat>)
    requires Stacked(g, order, found) && Settles(g, order, found, settled)
    requires i < |left| && left[i] == hash && k <= 2
    requires forall s :: s in settled ==> Total(g, left, s).count == 0
    ensures Stacked(g, order + [hash], found + [k])
    ensures Settles(g, order + [hash], found + [k], settled + {Slot(g, k, hash)})
  {
    hide Touches, Slot, Total;
    forall j | 0 <= j < |order|
      ensures !Touches(g, hash, Slot(g, found[j], order[j]))
    {
      EmptyCell(g, left, Slot(g, found[j], order[j]));
    }
  }

  lemma {:induction false} DistinctFits(queue: seq<nat>, n: nat)
    requires Distinct(queue) && forall i :: 0 <= i < |queue| ==> queue[i] < n
    ensures |queue| <= n
  {
    var s := set x | x in queue;
    SetOfSeq(queue, s);
    SetBelow(s, n);
  }

  lemma {:induction false} SetOfSeq(queue: seq<nat>, s: set<nat>)
    requires Distinct(queue) && s == set x | x in queue
    ensures |s| == |queue|
  {
    if queue == [] {
    } else {
      var n := |queue| - 1;
      var front := queue[..n];
      var last := queue[n];
      assert queue == front + [last];
      assert s == (set x | x in front) + {last};
      SetOfSeq(front, set x | x in front);
    }
  }

  lemma {:induction false} SetBelow(s: set<nat>, n: nat)
    requires forall x :: x in s ==> x < n
    ensures |s| <= n
    decreases n
  {
    if n == 0 {
      assert s == {};
    } else {
      SetBelow(s - {n - 1}, n - 1);
    }
  }

  lemma MultisetWithout(items: seq<uint64>, i: nat)
    requires i < |items|
    ensures multiset(items) == multiset(Without(items, i)) + multiset{items[i]}
    ensures |Without(items, i)| == |items| - 1
  {
    assert items == items[..i] + [items[i]] + items[i + 1..];
  }

  // ---- The order in which hashes are peeled ----

  function Mod3(x: nat): nat {
    if x > 2 then x - 3 else x
  }

  /** The slots below n that one hash touches, in increasing order. */
  ghost function LoneSlots(g: Shape, items: seq<uint64>, n: nat): seq<nat> {
    if n == 0 then [] else PushIf(LoneSlots(g, items, n - 1), n - 1, Total(g, items, n - 1).count == 1)
  }

  /** The first item that touches a slot. */
  ghost function Toucher(g: Shape, items: seq<uint64>, s: nat): (i: nat)
    ensures i <= |items| && (i < |items| ==> Touches(g, items[i], s))
  {
    if items == [] || Touches(g, items[0], s) then 0 else 1 + Toucher(g, items[1..], s)
  }

  /** The stack that results from a queue of slots and the hashes left: the last slot of the
      queue is taken each time, and slots that become lone are added behind. */
  ghost function StackFrom(g: Shape, queue: seq<nat>, left: seq<uint64>, stack: seq<uint64>): seq<uint64>
    decreases |left|, |queue|
  {
    if queue == [] then stack
    else
      var rest, index := queue[..|queue| - 1], queue[|queue| - 1];
      var i := Toucher(g, left, index);
      if Total(g, left, index).count == 1 && i < |left| then
        StackFrom(g, QueueAfter(g, rest, left, left[i], index), Without(left, i), stack + [left[i]])
      else
        StackFrom(g, rest, left, stack)
  }

  ghost function QueueAfter(g: Shape, queue: seq<nat>, left: seq<uint64>, hash: uint64, index: nat): seq<nat> {
    var k := Position(g, hash, index);
    var o1, o2 := Slot(g, Mod3(k + 1), hash), Slot(g, Mod3(k + 2), hash);
    PushIf(PushIf(queue, o1, Total(g, left, o1).count == 2), o2, Total(g, left, o2).count == 2)
  }

  /** The hashes that peeling takes off, in its order. */
  ghost function PeelOrder(g: Shape, kept: seq<uint64>): seq<uint64> {
    StackFrom(g, LoneSlots(g, kept, g.ArrayLength()), kept, [])
  }

  lemma {:induction false} ToucherFirst(g: Shape, items: seq<uint64>, s: nat, i: nat)
    requires i < |items| && Touches(g, items[i], s)
    ensures Toucher(g, items, s) <= i
    decreases |items|
  {
    hide Touches;
    if Touches(g, items[0], s) {
    } else {
      assert items[1..][i - 1] == items[i];
      ToucherFirst(g, items[1..], s, i - 1);
    }
  }

  lemma OnlyToucher(g: Shape, items: seq<uint64>, s: nat, i: nat)
    requires Total(g, items, s).count == 1 && i < |items| && Touches(g, items[i], s)
    ensures Toucher(g, items, s) == i
  {
    hide Touches, Total, Position, Xor, Toucher;
    ToucherFirst(g, items, s, i);
    var j := Toucher(g, items, s);
    if j < i {
      assert Without(items, i)[j] == items[j];
      TotalWithout(g, items, i, s);
      EmptyCell(g, Without(items, i), s);
      assert false;
    }
  }

  lemma StackPeels(g: Shape, queue: seq<nat>, index: nat, left: seq<uint64>, i: nat, stack: seq<uint64>)
    requires Total(g, left, index).count == 1 && i < |left| && Touches(g, left[i], index)
    ensures StackFrom(g, queue + [index], left, stack)
         == StackFrom(g, QueueAfter(g, queue, left, left[i], index), Without(left, i), stack + [left[i]])
  {
    hide Touches, Total, QueueAfter, Without, Toucher;
    OnlyToucher(g, left, index, i);
    assert (queue + [index])[..|queue + [index]| - 1] == queue;
  }

  lemma StackDrops(g: Shape, queue: seq<nat>, index: nat, left: seq<uint64>, stack: seq<uint64>)
    requires Total(g, left, index).count != 1
    ensures StackFrom(g, queue + [index], left, stack) == StackFrom(g, queue, left, stack)
  {
    hide Touches, Total, QueueAfter, Without, Toucher;
    assert (queue + [index])[..|queue + [index]| - 1] == queue;
  }

  // ---- The loop ----

  ghost predicate Peeling(g: Shape, c: seq<nat>, h: seq<nat>, queue: seq<nat>, order: seq<uint64>, found: seq<nat>,
                          left: seq<uint64>, settled: set<nat>, kept: seq<uint64>)
  {
    && Tables(g, c, h, left, settled) && Bounded(g, left)
    && Queued(g, queue, left, settled)
    && Stacked(g, order, found) && Settles(g, order, found, settled)
    && multiset(order) + multiset(left) == multiset(kept)
    && |order| + |left| == |kept|
  }

  /** What the tables say about a slot that is touched once. */
  lemma Lone(g: Shape, c: seq<nat>, h: seq<nat>, queue: seq<nat>, order: seq<uint64>, found: seq<nat>,
             left: seq<uint64>, settled: set<nat>, kept: seq<uint64>, index: nat) returns (i: nat)
    requires Peeling(g, c, h, queue + [index], order, found, left, settled, kept)
    requires index < |c| && c[index] / 4 == 1
    ensures Total(g, left, index).count == 1
    ensures i < |left| && left[i] == h[index]
    ensures c[index] % 4 <= 2 && Slot(g, c[index] % 4, left[i]) == index
    ensures Touches(g, left[i], index) && Position(g, left[i], index) == c[index] % 4
    ensures |order| < |kept| && |queue| < g.ArrayLength() == |h|
  {
    hide Touches, Slot, Total, Geometry.ArrayLength, Stacked, Settles;
    assert (queue + [index])[|queue|] == index;
    IndexBelow4(g, left, index);
    i := LoneItem(g, left, index);
    PositionUnique(g, left[i], c[index] % 4);
    DistinctFits(queue + [index], g.ArrayLength());
  }

  lemma OtherSlots(g: Shape, hash: uint64, k: nat)
    requires k <= 2
    ensures Others(g, hash, Slot(g, k, hash), Slot(g, Mod3(k + 1), hash), Slot(g, Mod3(k + 2), hash))
    ensures Position(g, hash, Slot(g, Mod3(k + 1), hash)) == Mod3(k + 1)
    ensures Position(g, hash, Slot(g, Mod3(k + 2), hash)) == Mod3(k + 2)
  {
    hide Slot;
    SlotsDiffer(g, hash);
  }

  /** A slot of a remaining item is not settled, and its byte tells a count of two. */
  lemma CountOfTwo(g: Shape, c: seq<nat>, h: seq<nat>, left: seq<uint64>, i: nat, settled: set<nat>, s: nat)
    requires Tables(g, c, h, left, settled) && Bounded(g, left)
    requires i < |left| && Touches(g, left[i], s) && s < |c|
    ensures c[s] / 4 == 2 <==> Total(g, left, s).count == 2
  {
    hide Touches, Total, Geometry.ArrayLength;
    EmptyCell(g, left, s);
    IndexBelow4(g, left, s);
  }

  lemma PeelingStep(g: Shape, c: seq<nat>, h: seq<nat>, c': seq<nat>, h': seq<nat>, queue: seq<nat>, index: nat,
                    order: seq<uint64>, found: seq<nat>, left: seq<uint64>, i: nat, settled: set<nat>,
                    kept: seq<uint64>, k: nat, o1: nat, o2: nat)
    requires Peeling(g, c, h, queue + [index], order, found, left, settled, kept)
    requires i < |left| && Total(g, left, index).count == 1 && k <= 2 && Slot(g, k, left[i]) == index
    requires Others(g, left[i], index, o1, o2)
    requires Changed(g, left[i], index, false, c, h, c', h')
    ensures Peeling(g, c', h', PushIf(PushIf(queue, o1, c[o1] / 4 == 2), o2, c[o2] / 4 == 2),
                    order + [left[i]], found + [k], Without(left, i), settled + {index}, kept)
  {
    hide Touches, Slot, Total, Geometry.ArrayLength, Stacked, Settles, Bounded, Queued, Changed, Without, PushIf;
    assert Touches(g, left[i], index) && Touches(g, left[i], o1) && Touches(g, left[i], o2);
    TablesStep(g, left[i], index, c, h, c', h', left, i, settled);
    CountOfTwo(g, c, h, left, i, settled, o1);
    CountOfTwo(g, c, h, left, i, settled, o2);
    QueueStep(g, left[i], index, o1, o2, queue, left, i, settled);
    StackStep(g, left[i], k, order, found, left, i, settled);
    MultisetWithout(left, i);
  }

  /** The queue has room for a slot it is not given after all. */
  lemma QueueRoom(g: Shape, c: seq<nat>, h: seq<nat>, queue: seq<nat>, index: nat, order: seq<uint64>, found: seq<nat>,
                  left: seq<uint64>, i: nat, settled: set<nat>, kept: seq<uint64>, o1: nat, o2: nat)
    requires Peeling(g, c, h, queue + [index], order, found, left, settled, kept)
    requires i < |left| && Total(g, left, index).count == 1
    requires Others(g, left[i], index, o1, o2)
    ensures |PushIf(queue, o1, c[o1] / 4 == 2)| < g.ArrayLength()
    ensures |PushIf(PushIf(queue, o1, c[o1] / 4 == 2), o2, c[o2] / 4 == 2)| < g.ArrayLength()
  {
    hide Touches, Slot, Total, Geometry.ArrayLength, Stacked, Settles, Bounded, Without, Queued;
    assert Touches(g, left[i], index) && Touches(g, left[i], o1) && Touches(g, left[i], o2);
    CountOfTwo(g, c, h, left, i, settled, o1);
    CountOfTwo(g, c, h, left, i, settled, o2);
    QueueStep(g, left[i], index, o1, o2, queue, left, i, settled);
    QueueFits(g, PushIf(PushIf(queue, o1, c[o1] / 4 == 2), o2, c[o2] / 4 == 2), Without(left, i), settled, index);
  }

  lemma QueueFits(g: Shape, queue: seq<nat>, left: seq<uint64>, settled: set<nat>, index: nat)
    requires Queued(g, queue, left, settled + {index}) && index < g.ArrayLength()
    ensures |queue| < g.ArrayLength()
  {
    hide Total, Geometry.ArrayLength;
    DistinctFits(queue + [index], g.ArrayLength());
  }

  lemma OthersChanged(g: Shape, hash: uint64, found: nat, c: seq<nat>, h: seq<nat>, c': seq<nat>, h': seq<nat>)
    requires found <= 2 && |c| == |h| == |c'| == |h'| == g.ArrayLength()
    requires var k1, k2 := Mod3(found + 1), Mod3(found + 2);
             var o1, o2 := Slot(g, k1, hash), Slot(g, k2, hash);
             && c' == c[o1 := Lowered(c[o1], k1)][o2 := Lowered(c[o2], k2)]
             && h' == h[o1 := Xor(h[o1], hash)][o2 := Xor(h[o2], hash)]
    ensures Changed(g, hash, Slot(g, found, hash), false, c, h, c', h')
  {
    hide Slot, Xor, Raised, Lowered, Geometry.ArrayLength, Position, Touches;
    OtherSlots(g, hash, found);
  }

  /** Nothing else on the queue: a popped slot that is no longer touched is dropped. */
  lemma PopUntouched(g: Shape, c: seq<nat>, h: seq<nat>, queue: seq<nat>, order: seq<uint64>, found: seq<nat>,
                     left: seq<uint64>, settled: set<nat>, kept: seq<uint64>, index: nat)
    requires Peeling(g, c, h, queue + [index], order, found, left, settled, kept)
    requires index < |c| && c[index] / 4 != 1
    ensures Peeling(g, c, h, queue, order, found, left, settled, kept)
    ensures Total(g, left, index).count != 1
  {
    hide Touches, Slot, Total, Geometry.ArrayLength, Stacked, Settles;
    var q := queue + [index];
    assert q[|queue|] == index;
    assert forall k :: 0 <= k < |queue| ==> queue[k] == q[k];
    IndexBelow4(g, left, index);
    assert Total(g, left, index).count != 1;
    forall s | 0 <= s < g.ArrayLength() && Total(g, left, s).count == 1
      ensures s in queue
    {
      assert s in q;
    }
  }

  /** The arrays the loop works on. */
  ghost predicate Buffers(g: Shape, alone: array<nat>, counts: array<nat>, hashes: array<nat>,
                          order: array<uint64>, reverseH: array<nat>, kept: seq<uint64>)
  {
    && alone != counts && alone != hashes && alone != reverseH
    && counts != hashes && counts != reverseH && hashes != reverseH
    && alone.Length == counts.Length == hashes.Length == g.ArrayLength()
    && |kept| <= order.Length && |kept| <= reverseH.Length
  }

  method LowerOthers(g: Shape, hash: uint64, found: nat, counts: array<nat>, hashes: array<nat>,
                     alone: array<nat>, qsize: nat) returns (qsize': nat)
    requires alone != counts && alone != hashes && counts != hashes
    requires alone.Length == counts.Length == hashes.Length == g.ArrayLength()
    requires found <= 2
    requires qsize < alone.Length
    requires |PushIf(alone[..qsize], Slot(g, Mod3(found + 1), hash), counts[Slot(g, Mod3(found + 1), hash)] / 4 == 2)|
           < alone.Length
    modifies counts, hashes, alone
    ensures qsize' <= alone.Length
    ensures var o1, o2 := Slot(g, Mod3(found + 1), hash), Slot(g, Mod3(found + 2), hash);
            alone[..qsize'] == PushIf(PushIf(old(alone[..qsize]), o1, old(counts[o1]) / 4 == 2),
                                      o2, old(counts[o2]) / 4 == 2)
    ensures Changed(g, hash, Slot(g, found, hash), false, old(counts[..]), old(hashes[..]), counts[..], hashes[..])
  {
    hide Slot, Xor, Raised, Lowered, Geometry.ArrayLength, Position, Touches, Changed;
    OtherSlots(g, hash, found);
    ghost var c, h := counts[..], hashes[..];
    var h012 := [Slot(g, 0, hash), Slot(g, 1, hash), Slot(g, 2, hash), Slot(g, 0, hash), Slot(g, 1, hash)];
    qsize' := qsize;
    var o1 := h012[found + 1];
    assert o1 == Slot(g, Mod3(found + 1), hash);
    alone[qsize'] := o1;
    qsize' := if counts[o1] / 4 == 2 then qsize' + 1 else qsize';
    assert alone[..qsize'] == PushIf(old(alone[..qsize]), o1, old(counts[o1]) / 4 == 2);
    counts[o1] := Lowered(counts[o1], Mod3(found + 1));
    hashes[o1] := Xor(hashes[o1], hash);
    var o2 := h012[found + 2];
    assert o2 == Slot(g, Mod3(found + 2), hash);
    ghost var q1 := alone[..qsize'];
    alone[qsize'] := o2;
    qsize' := if counts[o2] / 4 == 2 then qsize' + 1 else qsize';
    assert alone[..qsize'] == PushIf(q1, o2, old(counts[o2]) / 4 == 2);
    counts[o2] := Lowered(counts[o2], Mod3(found + 2));
    hashes[o2] := Xor(hashes[o2], hash);
    OthersChanged(g, hash, found, c, h, counts[..], hashes[..]);
  }

  /** Take the hash found alone in a slot off the tables and put it on the stack. */
  method PeelOne(g: Shape, index: nat, alone: array<nat>, counts: array<nat>, hashes: array<nat>,
                 order: array<uint64>, reverseH: array<nat>, qsize: nat, stacksize: nat,
                 ghost left: seq<uint64>, ghost settled: set<nat>, ghost kept: seq<uint64>)
    returns (qsize': nat, ghost left': seq<uint64>)
    requires Buffers(g, alone, counts, hashes, order, reverseH, kept)
    requires qsize <= alone.Length && stacksize <= |kept| && index < counts.Length
    requires Peeling(g, counts[..], hashes[..], alone[..qsize] + [index], order[..stacksize], reverseH[..stacksize],
                     left, settled, kept)
    requires counts[index] / 4 == 1
    modifies alone, counts, hashes, order, reverseH
    ensures qsize' <= alone.Length && stacksize < |kept| && |left'| < |left|
    ensures Peeling(g, counts[..], hashes[..], alone[..qsize'], order[..stacksize + 1], reverseH[..stacksize + 1],
                    left', settled + {index}, kept)
    ensures forall i :: stacksize < i < order.Length ==> order[i] == old(order[i])
    ensures StackFrom(g, alone[..qsize'], left', order[..stacksize + 1])
         == StackFrom(g, old(alone[..qsize]) + [index], left, old(order[..stacksize]))
  {
    hide *;
    BufferFacts(g, alone, counts, hashes, order, reverseH, kept);
    ghost var c, h, queue := counts[..], hashes[..], alone[..qsize];
    ghost var stack, found' := order[..stacksize], reverseH[..stacksize];
    ghost var i := Lone(g, c, h, queue, stack, found', left, settled, kept, index);
    var hash: uint64 := hashes[index];
    var found := counts[index] % 4;
    OtherSlots(g, hash, found);
    ghost var o1, o2 := Slot(g, Mod3(found + 1), hash), Slot(g, Mod3(found + 2), hash);
    QueueRoom(g, c, h, queue, index, stack, found', left, i, settled, kept, o1, o2);
    reverseH[stacksize] := found;
    order[stacksize] := hash;
    qsize' := LowerOthers(g, hash, found, counts, hashes, alone, qsize);
    PeelingStep(g, c, h, counts[..], hashes[..], queue, index, stack, found', left, i, settled, kept, found, o1, o2);
    QueueRead(g, c, h, queue, index, stack, found', left, i, settled, kept, found);
    StackPeels(g, queue, index, left, i, stack);
    left' := Without(left, i);
    MultisetWithout(left, i);
    assert order[..stacksize + 1] == stack + [hash];
    assert reverseH[..stacksize + 1] == found' + [found];
  }

  /** The bytes of the other two slots tell which of them become lone. */
  lemma QueueRead(g: Shape, c: seq<nat>, h: seq<nat>, queue: seq<nat>, index: nat, order: seq<uint64>, found: seq<nat>,
                  left: seq<uint64>, i: nat, settled: set<nat>, kept: seq<uint64>, k: nat)
    requires Peeling(g, c, h, queue + [index], order, found, left, settled, kept)
    requires i < |left| && k <= 2 && Position(g, left[i], index) == k
    ensures var o1, o2 := Slot(g, Mod3(k + 1), left[i]), Slot(g, Mod3(k + 2), left[i]);
            o1 < |c| && o2 < |c| && PushIf(PushIf(queue, o1, c[o1] / 4 == 2), o2, c[o2] / 4 == 2)
                                    == QueueAfter(g, queue, left, left[i], index)
  {
    hide Slot, Total, Geometry.ArrayLength, Stacked, Settles, Bounded, Queued, Position;
    var o1, o2 := Slot(g, Mod3(k + 1), left[i]), Slot(g, Mod3(k + 2), left[i]);
    CountOfTwo(g, c, h, left, i, settled, o1);
    CountOfTwo(g, c, h, left, i, settled, o2);
  }

  lemma BufferFacts(g: Shape, alone: array<nat>, counts: array<nat>, hashes: array<nat>,
                    order: array<uint64>, reverseH: array<nat>, kept: seq<uint64>)
    requires Buffers(g, alone, counts, hashes, order, reverseH, kept)
    ensures alone != counts && alone != hashes && alone != reverseH
    ensures counts != hashes && counts != reverseH && hashes != reverseH
    ensures alone.Length == counts.Length == hashes.Length == g.ArrayLength()
    ensures |kept| <= order.Length && |kept| <= reverseH.Length
  {
  }

  /** The queue holds, once each, the slots below n whose byte tells a count of one. */
  ghost predicate Collected(queue: seq<nat>, c: seq<nat>, n: nat) {
    && n <= |c|
    && Distinct(queue)
    && (forall i :: 0 <= i < |queue| ==> queue[i] < n && c[queue[i]] / 4 == 1)
    && (forall s :: 0 <= s < n && c[s] / 4 == 1 ==> s in queue)
  }

  lemma CollectedMore(queue: seq<nat>, c: seq<nat>, n: nat)
    requires Collected(queue, c, n) && n < |c|
    ensures Collected(PushIf(queue, n, c[n] / 4 == 1), c, n + 1)
  {
  }

  /** The slots below n whose byte tells a count of one, in increasing order. */
  ghost function OnesBelow(c: seq<nat>, n: nat): seq<nat>
    requires n <= |c|
  {
    if n == 0 then [] else PushIf(OnesBelow(c, n - 1), n - 1, c[n - 1] / 4 == 1)
  }

  lemma {:induction false} OnesAreLone(g: Shape, c: seq<nat>, h: seq<nat>, kept: seq<uint64>, n: nat)
    requires Holds(g, c, h, kept) && Bounded(g, kept) && n <= |c|
    ensures OnesBelow(c, n) == LoneSlots(g, kept, n)
    decreases n
  {
    hide Total, Geometry.ArrayLength;
    if n == 0 {
    } else {
      OnesAreLone(g, c, h, kept, n - 1);
      IndexBelow4(g, kept, n - 1);
    }
  }

  method CollectAlone(alone: array<nat>, counts: array<nat>) returns (qsize: nat)
    requires alone != counts && alone.Length == counts.Length
    modifies alone
    ensures qsize <= alone.Length && Collected(alone[..qsize], counts[..], counts.Length)
    ensures alone[..qsize] == OnesBelow(counts[..], counts.Length)
  {
    qsize := 0;
    var i := 0;
    assert Collected(alone[..0], counts[..], 0);
    while i < counts.Length
      invariant 0 <= qsize <= i <= counts.Length
      invariant Collected(alone[..qsize], counts[..], i) && alone[..qsize] == OnesBelow(counts[..], i)
    {
      hide Collected;
      ghost var queue := alone[..qsize];
      CollectedMore(queue, counts[..], i);
      alone[qsize] := i;
      qsize := if counts[i] / 4 == 1 then qsize + 1 else qsize;
      assert alone[..qsize] == PushIf(queue, i, counts[i] / 4 == 1);
      i := i + 1;
    }
  }

  lemma PeelingStarts(g: Shape, c: seq<nat>, h: seq<nat>, queue: seq<nat>, kept: seq<uint64>)
    requires Holds(g, c, h, kept) && Bounded(g, kept) && Collected(queue, c, |c|)
    ensures Peeling(g, c, h, queue, [], [], kept, {}, kept)
  {
    hide Total, Geometry.ArrayLength;
    forall s | 0 <= s < |c|
      ensures c[s] / 4 == Total(g, kept, s).count
    {
      IndexBelow4(g, kept, s);
    }
  }

  lemma PeelOrderStarts(g: Shape, c: seq<nat>, h: seq<nat>, kept: seq<uint64>)
    requires Holds(g, c, h, kept) && Bounded(g, kept)
    ensures StackFrom(g, OnesBelow(c, |c|), kept, []) == PeelOrder(g, kept)
  {
    hide Total, StackFrom, OnesBelow, LoneSlots;
    OnesAreLone(g, c, h, kept, |c|);
  }

  lemma StackDone(g: Shape, left: seq<uint64>, stack: seq<uint64>)
    ensures StackFrom(g, [], left, stack) == stack
  {
  }

  /** No slot is touched by exactly one of the items: nothing can be peeled. */
  ghost predicate Stuck(g: Shape, items: seq<uint64>) {
    forall s :: 0 <= s < g.ArrayLength() ==> Total(g, items, s).count != 1
  }

  lemma PeelingEnds(g: Shape, c: seq<nat>, h: seq<nat>, order: seq<uint64>, found: seq<nat>,
                    left: seq<uint64>, settled: set<nat>, kept: seq<uint64>)
    requires Peeling(g, c, h, [], order, found, left, settled, kept)
    ensures Stacked(g, order, found) && Stuck(g, left)
    ensures multiset(order) + multiset(left) == multiset(kept)
    ensures |order| + |left| == |kept|
  {
    hide Total, Geometry.ArrayLength;
  }

  lemma InQueue(g: Shape, c: seq<nat>, h: seq<nat>, queue: seq<nat>, order: seq<uint64>, found: seq<nat>,
                left: seq<uint64>, settled: set<nat>, kept: seq<uint64>)
    requires Peeling(g, c, h, queue, order, found, left, settled, kept)
    ensures forall i :: 0 <= i < |queue| ==> queue[i] < |c|
  {
    hide Total, Geometry.ArrayLength;
  }

  /** The stack can be solved from the top down, and what is left cannot be peeled. */
  method Peel(g: Shape, alone: array<nat>, counts: array<nat>, hashes: array<nat>,
              order: array<uint64>, reverseH: array<nat>, ghost kept: seq<uint64>)
    returns (stacksize: nat, ghost left: seq<uint64>)
    requires Buffers(g, alone, counts, hashes, order, reverseH, kept)
    requires Holds(g, counts[..], hashes[..], kept) && Bounded(g, kept)
    modifies alone, counts, hashes, order, reverseH
    ensures stacksize + |left| == |kept|
    ensures Stacked(g, order[..stacksize], reverseH[..stacksize])
    ensures multiset(order[..stacksize]) + multiset(left) == multiset(kept)
    ensures Stuck(g, left)
    ensures order[..stacksize] == PeelOrder(g, kept)
    ensures forall i :: stacksize <= i < order.Length ==> order[i] == old(order[i])
  {
    hide *;
    BufferFacts(g, alone, counts, hashes, order, reverseH, kept);
    var qsize: nat := CollectAlone(alone, counts);
    PeelingStarts(g, counts[..], hashes[..], alone[..qsize], kept);
    PeelOrderStarts(g, counts[..], hashes[..], kept);
    stacksize, left := 0, kept;
    ghost var settled: set<nat> := {};
    assert order[..0] == [] && reverseH[..0] == [];
    while qsize > 0
      invariant qsize <= alone.Length && stacksize <= |kept|
      invariant Peeling(g, counts[..], hashes[..], alone[..qsize], order[..stacksize], reverseH[..stacksize],
                        left, settled, kept)
      invariant StackFrom(g, alone[..qsize], left, order[..stacksize]) == PeelOrder(g, kept)
      invariant forall i :: stacksize <= i < order.Length ==> order[i] == old(order[i])
      decreases |left|, qsize
    {
      InQueue(g, counts[..], hashes[..], alone[..qsize], order[..stacksize], reverseH[..stacksize],
              left, settled, kept);
      qsize := qsize - 1;
      var index := alone[qsize];
      assert alone[..qsize + 1] == alone[..qsize] + [index];
      assert alone[..qsize + 1][qsize] == index;
      if counts[index] / 4 == 1 {
        qsize, left := PeelOne(g, index, alone, counts, hashes, order, reverseH, qsize, stacksize, left, settled, kept);
        stacksize := stacksize + 1;
        settled := settled + {index};
      } else {
        PopUntouched(g, counts[..], hashes[..], alone[..qsize], order[..stacksize], reverseH[..stacksize],
                     left, settled, kept, index);
        StackDrops(g, alone[..qsize], index, left, order[..stacksize]);
      }
    }
    assert alone[..0] == [];
    StackDone(g, left, order[..stacksize]);
    PeelingEnds(g, counts[..], hashes[..], order[..stacksize], reverseH[..stacksize], left, settled, kept);
  }

  // ---- Peeling finds an order whenever there is one ----

  lemma StackedDistinct(g: Shape, order: seq<uint64>, found: seq<nat>, j: nat, k: nat)
    requires Stacked(g, order, found) && j < k < |order|
    ensures order[j] != order[k]
  {
    hide Slot;
  }

  lemma {:induction false} DistinctOnce(order: seq<uint64>, x: uint64)
    requires forall j, k :: 0 <= j < k < |order| ==> order[j] != order[k]
    ensures multiset(order)[x] <= 1
  {
    if order == [] {
    } else {
      var n := |order| - 1;
      var front, last := order[..n], order[n];
      assert order == front + [last];
      DistinctOnce(front, x);
      if x == last {
        assert x !in front;
        assert x !in multiset(front);
      }
    }
  }

  lemma TwiceIsTwo(items: seq<uint64>, i: nat, j: nat)
    requires i < j < |items| && items[i] == items[j]
    ensures multiset(items)[items[i]] >= 2
  {
    assert items == items[..j] + [items[j]] + items[j + 1..];
    assert items[i] in items[..j];
    assert items[i] in multiset(items[..j]);
  }

  /** The stacked hash lowest in the order is alone in its slot. */
  lemma LowestIsLone(g: Shape, items: seq<uint64>, order: seq<uint64>, found: seq<nat>, j: nat, i: nat)
    requires Stacked(g, order, found) && multiset(items) <= multiset(order)
    requires j < |order| && i < |items| && items[i] == order[j]
    requires forall k :: 0 <= k < j ==> order[k] !in items
    ensures Total(g, items, Slot(g, found[j], order[j])).count == 1
  {
    hide Slot, Total;
    var s := Slot(g, found[j], order[j]);
    var rest := Without(items, i);
    forall r | 0 <= r < |rest|
      ensures !Touches(g, rest[r], s)
    {
      var i' := if r < i then r else r + 1;
      assert rest[r] == items[i'];
      assert items[i'] in multiset(items);
      assert items[i'] in multiset(order);
      var k :| 0 <= k < |order| && order[k] == items[i'];
      assert order[k] in items;
      if k == j {
        TwiceIsTwo(items, if i < i' then i else i', if i < i' then i' else i);
        forall a, b | 0 <= a < b < |order|
          ensures order[a] != order[b]
        {
          StackedDistinct(g, order, found, a, b);
        }
        DistinctOnce(order, order[j]);
        assert false;
      }
    }
    TotalWithout(g, items, i, s);
    EmptyCell(g, rest, s);
    PositionUnique(g, order[j], found[j]);
  }

  /** If some order would empty the tables, then peeling in any order empties them: what
      is stuck is empty. */
  lemma PeelingIsComplete(g: Shape, kept: seq<uint64>, left: seq<uint64>, order: seq<uint64>, found: seq<nat>)
    requires Stacked(g, order, found) && multiset(order) == multiset(kept)
    requires multiset(left) <= multiset(kept) && Stuck(g, left)
    ensures left == []
  {
    hide Slot, Total, Touches;
    if left != [] {
      assert left[0] in multiset(left);
      assert left[0] in multiset(order);
      var j :| 0 <= j < |order| && order[j] == left[0];
      j := LowestIn(order, left, j);
      var i :| 0 <= i < |left| && left[i] == order[j];
      LowestIsLone(g, left, order, found, j, i);
      assert false;
    }
  }

  lemma {:induction false} LowestIn(order: seq<uint64>, items: seq<uint64>, k: nat) returns (j: nat)
    requires k < |order| && order[k] in items
    ensures j < |order| && order[j] in items
    ensures forall i :: 0 <= i < j ==> order[i] !in items
    decreases k
  {
    if i :| 0 <= i < k && order[i] in items {
      j := LowestIn(order, items, i);
    } else {
      j := k;
    }
  }
}
