/** What the count and hash tables of a filter under construction hold: for every slot,
    how many hashes touch it and the exclusive or of them and of their positions. */
module FuseTables {
  import opened Bits
  import opened FuseGeometry

  type Shape = g: Geometry | g.Valid() witness Geometry(2, 1)

  /** The k-th slot of a hash. */
  function Slot(g: Shape, k: nat, hash: uint64): (r: nat)
    requires k <= 2
    ensures r < g.ArrayLength()
  {
    SlotBound(g, k, hash);
    BinaryFuseHash(g, k, hash)
  }

  lemma SlotBound(g: Shape, k: nat, hash: uint64)
    requires k <= 2
    ensures BinaryFuseHash(g, k, hash) < g.ArrayLength()
  {
    hide HashBatch, BinaryFuseHash;
    SegmentCapSuffices(g, hash);
    SlotsAreConsecutive(g, hash);
  }

  lemma SlotsDiffer(g: Shape, hash: uint64)
    ensures Slot(g, 0, hash) != Slot(g, 1, hash)
    ensures Slot(g, 0, hash) != Slot(g, 2, hash)
    ensures Slot(g, 1, hash) != Slot(g, 2, hash)
  {
    hide HashBatch, BinaryFuseHash;
    SegmentCapSuffices(g, hash);
    SlotsAreDistinct(g, hash);
  }

  predicate Touches(g: Shape, hash: uint64, s: nat) {
    s == Slot(g, 0, hash) || s == Slot(g, 1, hash) || s == Slot(g, 2, hash)
  }

  /** Which of its slots a hash has at s. */
  function Position(g: Shape, hash: uint64, s: nat): (k: nat)
    ensures k <= 2
    ensures Touches(g, hash, s) ==> Slot(g, k, hash) == s
  {
    if s == Slot(g, 0, hash) then 0 else if s == Slot(g, 1, hash) then 1 else 2
  }

  lemma PositionUnique(g: Shape, hash: uint64, k: nat)
    requires k <= 2
    ensures Touches(g, hash, Slot(g, k, hash))
    ensures Position(g, hash, Slot(g, k, hash)) == k
  {
    hide Slot;
    SlotsDiffer(g, hash);
    assert k == 0 || k == 1 || k == 2;
  }

  datatype Cell = Cell(count: nat, index: nat, hash: nat)

  function Add(g: Shape, c: Cell, hash: uint64, s: nat): Cell {
    if Touches(g, hash, s) then
      Cell(c.count + 1, Xor(c.index, Position(g, hash, s)), Xor(c.hash, hash))
    else
      c
  }

  function Total(g: Shape, items: seq<uint64>, s: nat): Cell {
    if items == [] then
      Cell(0, 0, 0)
    else
      Add(g, Total(g, items[..|items| - 1], s), items[|items| - 1], s)
  }

  lemma TotalPush(g: Shape, items: seq<uint64>, hash: uint64, s: nat)
    ensures Total(g, items + [hash], s) == Add(g, Total(g, items, s), hash, s)
  {
    hide Add;
    assert (items + [hash])[..|items|] == items;
  }

  lemma AddCommutes(g: Shape, c: Cell, a: uint64, b: uint64, s: nat)
    ensures Add(g, Add(g, c, a, s), b, s) == Add(g, Add(g, c, b, s), a, s)
  {
    hide Xor, Touches, Position;
    XorSwap(c.hash, a, b);
    XorSwap(c.index, Position(g, a, s), Position(g, b, s));
  }

  function Without(items: seq<uint64>, i: nat): seq<uint64>
    requires i < |items|
  {
    items[..i] + items[i + 1..]
  }

  /** Any item may be taken to be the last one added. */
  lemma {:induction false} TotalWithout(g: Shape, items: seq<uint64>, i: nat, s: nat)
    requires i < |items|
    ensures Total(g, items, s) == Add(g, Total(g, Without(items, i), s), items[i], s)
    decreases |items|
  {
    hide Add;
    var n := |items| - 1;
    var front, last := items[..n], items[n];
    if i == n {
      assert Without(items, i) == front;
    } else {
      TotalWithout(g, front, i, s);
      assert Without(items, i) == Without(front, i) + [last];
      TotalPush(g, Without(front, i), last, s);
      AddCommutes(g, Total(g, Without(front, i), s), items[i], last, s);
    }
  }

  lemma WithoutPermuted(front: seq<uint64>, last: uint64, b: seq<uint64>, i: nat)
    requires multiset(front + [last]) == multiset(b) && i < |b| && b[i] == last
    ensures multiset(front) == multiset(Without(b, i))
  {
    assert b == b[..i] + [last] + b[i + 1..];
    assert multiset(b) == multiset(Without(b, i)) + multiset{last};
    var f, w, one := multiset(front), multiset(Without(b, i)), multiset{last};
    assert f + one == w + one;
    forall x: uint64
      ensures f[x] == w[x]
    {
      assert (f + one)[x] == f[x] + one[x];
      assert (w + one)[x] == w[x] + one[x];
    }
  }

  /** The tables depend only on which hashes were added, and how often. */
  lemma {:induction false} TotalPermuted(g: Shape, a: seq<uint64>, b: seq<uint64>, s: nat)
    requires multiset(a) == multiset(b)
    ensures Total(g, a, s) == Total(g, b, s)
    decreases |a|
  {
    hide Add;
    assert |multiset(a)| == |multiset(b)|;
    if a == [] {
      assert b == [];
    } else {
      var n := |a| - 1;
      var front, last := a[..n], a[n];
      assert a == front + [last];
      assert last in multiset(b);
      var i :| 0 <= i < |b| && b[i] == last;
      WithoutPermuted(front, last, b, i);
      TotalPermuted(g, front, Without(b, i), s);
      TotalWithout(g, b, i, s);
    }
  }

  lemma {:induction false} IndexBelow4(g: Shape, items: seq<uint64>, s: nat)
    ensures Total(g, items, s).index < 4
    decreases |items|
  {
    hide Xor, Touches, Position;
    if items == [] {
    } else {
      var front, last := items[..|items| - 1], items[|items| - 1];
      IndexBelow4(g, front, s);
      XorBound(Total(g, front, s).index, Position(g, last, s), 2);
    }
  }

  lemma {:induction false} HashBelow(g: Shape, items: seq<uint64>, s: nat)
    ensures Total(g, items, s).hash < TWO_64
    decreases |items|
  {
    hide Xor, Touches, Position;
    if items == [] {
    } else {
      var front, last := items[..|items| - 1], items[|items| - 1];
      HashBelow(g, front, s);
      Xor64(Total(g, front, s).hash, last);
    }
  }

  lemma Xor64(a: nat, b: nat)
    requires a < TWO_64 && b < TWO_64
    ensures Xor(a, b) < TWO_64
  {
    hide Xor, Pow2;
    Pow64();
    XorBound(a, b, 64);
  }

  /** An untouched slot is empty, and an empty one untouched. */
  lemma {:induction false} EmptyCell(g: Shape, items: seq<uint64>, s: nat)
    ensures Total(g, items, s).count == 0 ==>
              Total(g, items, s) == Cell(0, 0, 0) && forall i :: 0 <= i < |items| ==> !Touches(g, items[i], s)
    ensures (forall i :: 0 <= i < |items| ==> !Touches(g, items[i], s)) ==> Total(g, items, s).count == 0
    decreases |items|
  {
    hide Xor, Touches, Position;
    if items == [] {
    } else {
      var n := |items| - 1;
      EmptyCell(g, items[..n], s);
      assert forall i :: 0 <= i < n ==> items[..n][i] == items[i];
    }
  }

  /** A slot touched once holds the hash that touches it, and its position. */
  lemma {:induction false} LoneItem(g: Shape, items: seq<uint64>, s: nat) returns (i: nat)
    requires Total(g, items, s).count == 1
    ensures i < |items| && Touches(g, items[i], s)
    ensures items[i] == Total(g, items, s).hash
    ensures Position(g, items[i], s) == Total(g, items, s).index
    decreases |items|
  {
    hide Xor, Touches, Position;
    var n := |items| - 1;
    if Touches(g, items[n], s) {
      i := n;
      EmptyCell(g, items[..n], s);
      XorZero(items[n]);
      XorZero(Position(g, items[n], s));
    } else {
      i := LoneItem(g, items[..n], s);
    }
  }

  /** Two hashes that cancel in a slot are equal. */
  lemma CancellingPair(g: Shape, items: seq<uint64>, hash: uint64, s: nat) returns (i: nat)
    requires Touches(g, hash, s)
    requires Total(g, items + [hash], s).count == 2 && Total(g, items + [hash], s).hash == 0
    ensures i < |items| && items[i] == hash
  {
    hide Xor, Touches, Position;
    TotalPush(g, items, hash, s);
    i := LoneItem(g, items, s);
    XorZeroMeansEqual(items[i], hash);
  }

  // ---- The count table: four times the count plus the positions, in a byte ----

  function Encode(c: Cell): nat {
    4 * (c.count % 64) + c.index
  }

  function Raised(b: nat, k: nat): nat {
    Xor((b + 4) % 256, k)
  }

  function Lowered(b: nat, k: nat): nat {
    Xor((b + 252) % 256, k)
  }

  lemma XorHalves(c: nat, d: nat, i: nat, k: nat)
    requires i < 2 && k < 2
    ensures Xor(2 * c + i, 2 * d + k) == 2 * Xor(c, d) + (i + k) % 2
  {
    hide Xor;
    XorStep(2 * c + i, 2 * d + k);
  }

  lemma XorLowBits(c: nat, i: nat, k: nat)
    requires i < 4 && k < 4
    ensures Xor(i, k) < 4
    ensures Xor(4 * c + i, k) == 4 * c + Xor(i, k)
  {
    hide Xor;
    var i1, i0, k1, k0 := i / 2, i % 2, k / 2, k % 2;
    XorHalves(2 * c + i1, k1, i0, k0);
    XorHalves(c, 0, i1, k1);
    XorHalves(i1, k1, i0, k0);
    XorHalves(0, 0, i1, k1);
    XorZero(c);
    XorZero(0);
  }

  lemma RaisedEncodes(c: Cell, k: nat, hash: nat)
    requires c.index < 4 && k < 4
    ensures Raised(Encode(c), k) == Encode(Cell(c.count + 1, Xor(c.index, k), hash))
  {
    hide Xor;
    var n := c.count % 64;
    NextCount(c.count);
    CountUp(n, c.index);
    XorLowBits((n + 1) % 64, c.index, k);
  }

  lemma LoweredEncodes(c: Cell, k: nat, hash: nat)
    requires c.index < 4 && k < 4
    ensures Lowered(Encode(Cell(c.count + 1, Xor(c.index, k), hash)), k) == Encode(c)
  {
    hide Xor;
    var n, i := c.count % 64, Xor(c.index, k);
    XorLowBits(n, c.index, k);
    XorLowBits(n, i, k);
    XorCancel(c.index, k);
    NextCount(c.count);
    CountDown(n, i);
  }

  lemma NextCount(n: nat)
    ensures (n + 1) % 64 == (n % 64 + 1) % 64
  {
  }

  lemma CountUp(n: nat, i: nat)
    requires n < 64 && i < 4
    ensures (4 * n + i + 4) % 256 == 4 * ((n + 1) % 64) + i
  {
  }

  lemma CountDown(n: nat, i: nat)
    requires n < 64 && i < 4
    ensures (4 * ((n + 1) % 64) + i + 252) % 256 == 4 * n + i
  {
    if n == 63 {
    } else {
      assert (n + 1) % 64 == n + 1;
    }
  }
}
