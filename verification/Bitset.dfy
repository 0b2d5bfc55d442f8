/** The growable bitset, against finite sets of naturals. */
module Bitset {
  import opened Bits
  import opened BitWords

  // ---- Words as a set ----

  function Max(a: nat, b: nat): nat {
    if a < b then b else a
  }

  function WordAt(ws: seq<uint64>, k: nat): uint64 {
    if k < |ws| then ws[k] else 0
  }

  predicate Get(ws: seq<uint64>, i: nat) {
    Bit(WordAt(ws, i / 64), i % 64)
  }

  lemma GetInside(ws: seq<uint64>, i: nat)
    ensures Get(ws, i) ==> i < 64 * |ws|
  {
    if i >= 64 * |ws| {
      assert i / 64 >= |ws|;
      ZeroHasNoBits(i % 64);
    }
  }

  ghost function Members(ws: seq<uint64>): set<nat> {
    set i | 0 <= i < 64 * |ws| && Get(ws, i)
  }

  lemma MembersGet(ws: seq<uint64>)
    ensures forall i: nat :: i in Members(ws) <==> Get(ws, i)
  {
    forall i: nat
      ensures i in Members(ws) <==> Get(ws, i)
    {
      GetInside(ws, i);
    }
  }

  function SumTo(ws: seq<uint64>, n: nat): nat
    requires n <= |ws|
  {
    if n == 0 then 0 else SumTo(ws, n - 1) + Popcount(ws[n - 1])
  }

  /** The bit counts of the words add up to the size of the set. */
  lemma {:induction false} SumIsCardinality(ws: seq<uint64>, n: nat)
    requires n <= |ws|
    ensures |Members(ws[..n])| == SumTo(ws, n)
  {
    if n == 0 {
      assert Members(ws[..0]) == {};
    } else {
      SumIsCardinality(ws, n - 1);
      var low, high := Members(ws[..n - 1]), Ones(ws[n - 1], 64 * (n - 1), 64);
      forall x
        ensures x in Members(ws[..n]) <==> x in low || x in high
      {
        WordSplit(ws, n, x);
      }
      assert Members(ws[..n]) == low + high;
      assert low !! high;
      Pow64();
      OnesCount(ws[n - 1], 64 * (n - 1), 64);
    }
  }

  lemma WordSplit(ws: seq<uint64>, n: nat, x: nat)
    requires 0 < n <= |ws|
    ensures x in Members(ws[..n]) <==> x in Members(ws[..n - 1]) || x in Ones(ws[n - 1], 64 * (n - 1), 64)
  {
    hide Bit;
    if x in Ones(ws[n - 1], 64 * (n - 1), 64) {
      var i :| 0 <= i < 64 && Bit(ws[n - 1], i) && x == 64 * (n - 1) + i;
      assert x / 64 == n - 1 && x % 64 == i;
    }
    if x in Members(ws[..n]) && x / 64 == n - 1 {
      assert x == 64 * (n - 1) + x % 64;
    }
  }

  // ---- Set operations on words ----

  datatype SetOp = Union | Intersection | Difference | SymmetricDifference

  function Combine(op: SetOp, a: uint64, b: uint64): uint64 {
    match op
    case Union => OrWord(a, b)
    case Intersection => AndWord(a, b)
    case Difference => AndWord(a, NotWord(b))
    case SymmetricDifference => XorWord(a, b)
  }

  ghost function Apply(op: SetOp, a: set<nat>, b: set<nat>): set<nat> {
    match op
    case Union => a + b
    case Intersection => a * b
    case Difference => a - b
    case SymmetricDifference => (a - b) + (b - a)
  }

  /** The words an operation leaves in its first operand. */
  function Result(op: SetOp, a: seq<uint64>, b: seq<uint64>): (r: seq<uint64>)
    ensures |r| == if op.Intersection? || op.Difference? || |a| >= |b| then |a| else |b|
  {
    var n := if op.Intersection? || op.Difference? || |a| >= |b| then |a| else |b|;
    seq(n, k requires 0 <= k < n => Combine(op, WordAt(a, k), WordAt(b, k)))
  }

  lemma CombineZero(op: SetOp, a: uint64)
    ensures Combine(op, 0, 0) == 0
    ensures Combine(op, a, 0) == if op.Intersection? then 0 else a
    ensures op.Union? || op.SymmetricDifference? ==> Combine(op, 0, a) == a
    ensures op.Intersection? || op.Difference? ==> Combine(op, 0, a) == 0
  {
    Pow64();
    AndAll(a, 64);
  }

  lemma ResultAt(op: SetOp, a: seq<uint64>, b: seq<uint64>, k: nat)
    ensures WordAt(Result(op, a, b), k) == Combine(op, WordAt(a, k), WordAt(b, k))
  {
    hide Combine;
    CombineZero(op, WordAt(a, k));
    CombineZero(op, WordAt(b, k));
  }

  predicate Holds(op: SetOp, p: bool, q: bool) {
    match op
    case Union => p || q
    case Intersection => p && q
    case Difference => p && !q
    case SymmetricDifference => p != q
  }

  lemma CombineBit(op: SetOp, a: uint64, b: uint64, i: nat)
    requires i < 64
    ensures Bit(Combine(op, a, b), i) <==> Holds(op, Bit(a, i), Bit(b, i))
  {
    hide Bit;
    match op
    case Union => OrBit(a, b, i);
    case Intersection => AndBit(a, b, i);
    case Difference => AndBit(a, NotWord(b), i); NotWordBit(b, i);
    case SymmetricDifference => XorBit(a, b, i);
  }

  /** The result holds the members that the operation on sets gives. */
  lemma ResultMembers(op: SetOp, a: seq<uint64>, b: seq<uint64>)
    ensures Members(Result(op, a, b)) == Apply(op, Members(a), Members(b))
  {
    hide Bit, Combine, Members;
    MembersGet(a);
    MembersGet(b);
    MembersGet(Result(op, a, b));
    forall i: nat
      ensures i in Members(Result(op, a, b)) <==> i in Apply(op, Members(a), Members(b))
    {
      ResultAt(op, a, b, i / 64);
      CombineBit(op, WordAt(a, i / 64), WordAt(b, i / 64), i % 64);
    }
  }

  // ---- Single bits ----

  lemma OneBit(i: nat)
    ensures Bit(1, i) <==> i == 0
  {
    if i > 0 {
      ZeroHasNoBits(i - 1);
    }
  }

  lemma SetWordBit(w: uint64, k: nat, j: nat)
    requires k < 64 && j < 64
    ensures Bit(OrWord(w, ShlWord(1, k)), j) <==> Bit(w, j) || j == k
    ensures Bit(AndWord(w, NotWord(ShlWord(1, k))), j) <==> Bit(w, j) && j != k
    ensures Bit(AndWord(w, ShlWord(1, k)), j) <==> Bit(w, j) && j == k
  {
    hide Bit, ShlWord;
    ShlBit(1, k, j);
    if j >= k {
      OneBit(j - k);
    }
    OrBit(w, ShlWord(1, k), j);
    AndBit(w, NotWord(ShlWord(1, k)), j);
    AndBit(w, ShlWord(1, k), j);
    NotWordBit(ShlWord(1, k), j);
  }

  /** Masking out all other bits leaves zero exactly when the bit is not set. */
  lemma TestWordBit(w: uint64, k: nat)
    requires k < 64
    ensures AndWord(w, ShlWord(1, k)) != 0 <==> Bit(w, k)
  {
    hide Bit, ShlWord, AndWord;
    var m := AndWord(w, ShlWord(1, k));
    SetWordBit(w, k, k);
    if m == 0 {
      ZeroHasNoBits(k);
    } else {
      CtzBelow64(m);
      SetWordBit(w, k, Ctz(m));
    }
  }

  lemma SetMembers(ws: seq<uint64>, i: nat)
    requires i / 64 < |ws|
    ensures Members(ws[i / 64 := OrWord(ws[i / 64], ShlWord(1, i % 64))]) == Members(ws) + {i}
    ensures Members(ws[i / 64 := AndWord(ws[i / 64], NotWord(ShlWord(1, i % 64)))]) == Members(ws) - {i}
  {
    hide Bit, OrWord, AndWord, NotWord, ShlWord, Members;
    var k := i / 64;
    var up, down := ws[k := OrWord(ws[k], ShlWord(1, i % 64))], ws[k := AndWord(ws[k], NotWord(ShlWord(1, i % 64)))];
    MembersGet(ws);
    MembersGet(up);
    MembersGet(down);
    forall j: nat
      ensures Get(up, j) <==> Get(ws, j) || j == i
      ensures Get(down, j) <==> Get(ws, j) && j != i
    {
      SetWordBit(ws[k], i % 64, j % 64);
    }
  }

  lemma ZerosMembers(ws: seq<uint64>, more: seq<uint64>)
    requires forall k :: 0 <= k < |more| ==> more[k] == 0
    ensures Members(ws + more) == Members(ws)
  {
    hide Members;
    MembersGet(ws);
    MembersGet(ws + more);
    forall i: nat
      ensures Get(ws + more, i) <==> Get(ws, i)
    {
      ZeroHasNoBits(i % 64);
    }
  }

  // ---- Shifted words ----

  /** Word j after every bit has moved up by s. */
  function LeftWord(a: seq<uint64>, s: nat, j: nat): uint64 {
    var extra, w := s / 64, s % 64;
    if j < extra then 0
    else if w == 0 then WordAt(a, j - extra)
    else if j == extra then ShlWord(WordAt(a, 0), w)
    else OrWord(ShlWord(WordAt(a, j - extra), w), ShrWord(WordAt(a, j - extra - 1), 64 - w))
  }

  /** Word j after every bit has moved down by s. */
  function RightWord(a: seq<uint64>, s: nat, j: nat): uint64 {
    var extra, w := s / 64, s % 64;
    if w == 0 then WordAt(a, j + extra)
    else OrWord(ShrWord(WordAt(a, j + extra), w), ShlWord(WordAt(a, j + extra + 1), 64 - w))
  }

  lemma Position(k: nat, i: nat, x: nat)
    requires i < 64 && x == 64 * k + i
    ensures x / 64 == k && x % 64 == i
  {
  }

  lemma LeftBit(a: seq<uint64>, s: nat, x: nat)
    ensures Bit(LeftWord(a, s, x / 64), x % 64) <==> x >= s && Get(a, x - s)
  {
    hide Bit, OrWord, ShlWord, ShrWord, WordAt;
    var j, i, extra, w := x / 64, x % 64, s / 64, s % 64;
    if j < extra {
      ZeroHasNoBits(i);
    } else {
      ShlBit(WordAt(a, j - extra), w, i);
      if i >= w {
        Position(j - extra, i - w, x - s);
      }
      if j > extra {
        ShrBit(WordAt(a, j - extra - 1), 64 - w, i);
        if i < w {
          Position(j - extra - 1, i + 64 - w, x - s);
        }
        OrWordBit(ShlWord(WordAt(a, j - extra), w), ShrWord(WordAt(a, j - extra - 1), 64 - w), i);
      }
    }
  }

  lemma OrWordBit(a: uint64, b: uint64, i: nat)
    ensures Bit(OrWord(a, b), i) <==> Bit(a, i) || Bit(b, i)
  {
    OrBit(a, b, i);
  }

  lemma RightBit(a: seq<uint64>, s: nat, x: nat)
    ensures Bit(RightWord(a, s, x / 64), x % 64) <==> Get(a, x + s)
  {
    hide Bit, OrWord, ShlWord, ShrWord, WordAt;
    var j, i, extra, w := x / 64, x % 64, s / 64, s % 64;
    if w == 0 {
      Position(j + extra, i, x + s);
    } else {
      ShrBit(WordAt(a, j + extra), w, i);
      ShlBit(WordAt(a, j + extra + 1), 64 - w, i);
      OrWordBit(ShrWord(WordAt(a, j + extra), w), ShlWord(WordAt(a, j + extra + 1), 64 - w), i);
      if i + w < 64 {
        Position(j + extra, i + w, x + s);
      } else {
        Position(j + extra + 1, i + w - 64, x + s);
      }
    }
  }

  /** A set moved up, or moved down with the members below s dropped. */
  ghost function MovedUp(a: set<nat>, s: nat): set<nat> {
    set i | i in a :: i + s
  }

  ghost function MovedDown(a: set<nat>, s: nat): set<nat> {
    set i | i in a && i >= s :: i - s
  }

  lemma LeftMembers(a: seq<uint64>, s: nat, r: seq<uint64>)
    requires 64 * |r| >= 64 * |a| + s
    requires forall j :: 0 <= j < |r| ==> r[j] == LeftWord(a, s, j)
    ensures Members(r) == MovedUp(Members(a), s)
  {
    hide Bit, LeftWord, Members;
    MembersGet(a);
    MembersGet(r);
    forall x: nat
      ensures Get(r, x) <==> x >= s && Get(a, x - s)
    {
      LeftBit(a, s, x);
      if x / 64 >= |r| {
        ZeroHasNoBits(x % 64);
        if x >= s {
          GetInside(a, x - s);
        }
      }
    }
    forall x: nat
      ensures x in MovedUp(Members(a), s) <==> x >= s && x - s in Members(a)
    {
      if x >= s && x - s in Members(a) {
        assert x == (x - s) + s;
      }
    }
  }

  lemma RightMembers(a: seq<uint64>, s: nat, r: seq<uint64>)
    requires 64 * |r| + s >= 64 * |a|
    requires forall j :: 0 <= j < |r| ==> r[j] == RightWord(a, s, j)
    ensures Members(r) == MovedDown(Members(a), s)
  {
    hide Bit, RightWord, Members;
    MembersGet(a);
    MembersGet(r);
    forall x: nat
      ensures Get(r, x) <==> Get(a, x + s)
    {
      RightBit(a, s, x);
      if x / 64 >= |r| {
        ZeroHasNoBits(x % 64);
        GetInside(a, x + s);
      }
    }
    forall x: nat
      ensures x in MovedDown(Members(a), s) <==> x + s in Members(a)
    {
      if x + s in Members(a) {
        assert x == (x + s) - s;
      }
    }
  }

  /** Moving up and then down again restores the set. */
  lemma UpThenDown(a: set<nat>, s: nat)
    ensures MovedDown(MovedUp(a, s), s) == a
  {
    forall x
      ensures x in MovedDown(MovedUp(a, s), s) <==> x in a
    {
      if x in a {
        assert x + s in MovedUp(a, s);
        assert x == (x + s) - s;
      }
    }
  }

  // ---- Finding members ----

  lemma NoneBeyond(ws: seq<uint64>)
    ensures forall j: nat :: j >= 64 * |ws| ==> !Get(ws, j)
  {
    hide Bit;
    forall j: nat | j >= 64 * |ws|
      ensures !Get(ws, j)
    {
      GetInside(ws, j);
    }
  }

  lemma MembersInside(ws: seq<uint64>)
    ensures forall x: nat :: x in Members(ws) ==> x < 64 * |ws|
  {
  }

  lemma FirstWord(ws: seq<uint64>, i: nat)
    requires i / 64 < |ws|
    ensures var w := ShrWord(ws[i / 64], i % 64);
            && (w == 0 ==> forall j :: i <= j < 64 * (i / 64 + 1) ==> !Get(ws, j))
            && (w != 0 ==> Get(ws, i + Ctz(w)) && forall j :: i <= j < i + Ctz(w) ==> !Get(ws, j))
  {
    hide Bit, ShrWord;
    var x, k := i / 64, i % 64;
    var w := ShrWord(ws[x], k);
    forall j | i <= j < 64 * (x + 1)
      ensures Get(ws, j) <==> Bit(w, j - i)
    {
      ShrBit(ws[x], k, j - i);
      Position(x, k + (j - i), j);
    }
    if w == 0 {
      forall j | i <= j < 64 * (x + 1)
        ensures !Get(ws, j)
      {
        ZeroHasNoBits(j - i);
      }
    } else {
      ShrBit(ws[x], k, Ctz(w));
    }
  }

  lemma LaterWord(ws: seq<uint64>, x: nat)
    requires x < |ws|
    ensures ws[x] == 0 ==> forall j :: 64 * x <= j < 64 * (x + 1) ==> !Get(ws, j)
    ensures ws[x] != 0 ==> Get(ws, 64 * x + Ctz(ws[x])) && forall j :: 64 * x <= j < 64 * x + Ctz(ws[x]) ==> !Get(ws, j)
  {
    hide Bit, ShrWord;
    FirstWord(ws, 64 * x);
    ShrNone(ws[x]);
  }

  lemma ShrNone(w: uint64)
    ensures ShrWord(w, 0) == w
  {
  }

  // ---- Comparing ----

  ghost predicate SameCommonWords(a: seq<uint64>, b: seq<uint64>) {
    forall k :: 0 <= k < |a| && k < |b| ==> a[k] == b[k]
  }

  ghost predicate EmptyTails(a: seq<uint64>, b: seq<uint64>) {
    && (forall k :: |a| <= k < |b| ==> b[k] == 0)
    && (forall k :: |b| <= k < |a| ==> a[k] == 0)
  }

  /** Different words differ in a bit. */
  lemma DifferentWords(v: uint64, w: uint64) returns (i: nat)
    requires v != w
    ensures i < 64 && Bit(v, i) != Bit(w, i)
  {
    hide Xor, XorWord;
    XorZeroMeansEqual(v, w);
    XorWordIs(v, w);
    i := Ctz(XorWord(v, w));
    CtzBelow64(XorWord(v, w));
    XorBit(v, w, i);
  }

  lemma XorWordIs(v: uint64, w: uint64)
    ensures XorWord(v, w) == Xor(v, w)
  {
  }

  lemma DifferingWord(a: seq<uint64>, b: seq<uint64>) returns (k: nat)
    requires !SameCommonWords(a, b) || !EmptyTails(a, b)
    ensures WordAt(a, k) != WordAt(b, k)
  {
    if !SameCommonWords(a, b) {
      k :| 0 <= k < |a| && k < |b| && a[k] != b[k];
    } else if i :| |a| <= i < |b| && b[i] != 0 {
      k := i;
    } else {
      k :| |b| <= k < |a| && a[k] != 0;
    }
  }

  /** Sets are equal exactly when their words are, counting missing words as zero. */
  lemma EqualExactly(a: seq<uint64>, b: seq<uint64>)
    ensures Members(a) == Members(b) <==> SameCommonWords(a, b) && EmptyTails(a, b)
  {
    hide Bit, Members;
    MembersGet(a);
    MembersGet(b);
    if SameCommonWords(a, b) && EmptyTails(a, b) {
      assert forall i: nat :: Get(a, i) <==> Get(b, i);
    } else {
      var k := DifferingWord(a, b);
      var i := DifferentWords(WordAt(a, k), WordAt(b, k));
      Position(k, i, 64 * k + i);
      assert Get(a, 64 * k + i) != Get(b, 64 * k + i);
    }
  }

  /** The comparison ignores the tail: {} and {64} over one and two words look equal. */
  lemma EqualCanBeWrong()
    ensures SameCommonWords([0], [0, 1]) && Members([0]) != Members([0, 1])
  {
    var a: seq<uint64>, b: seq<uint64> := [0], [0, 1];
    assert b[1] == 1;
    EqualExactly(a, b);
  }

  // ---- The bitset ----

  class Bitset {
    var words: array<uint64>
    var arraysize: nat

    ghost predicate Valid()
      reads this
    {
      arraysize <= words.Length
    }

    ghost function Contents(): (r: seq<uint64>)
      requires Valid()
      reads this, words
      ensures |r| == arraysize
    {
      words[..arraysize]
    }

    ghost function Elements(): set<nat>
      requires Valid()
      reads this, words
    {
      Members(Contents())
    }

    constructor Create()
      ensures Valid() && fresh(words) && Elements() == {}
    {
      words := new uint64[0];
      arraysize := 0;
    }

    /** Make room for n words; the words beyond the old ones are zero if asked for and
        anything otherwise. */
    method Resize(n: nat, padWithZeroes: bool)
      requires Valid()
      modifies this, words
      ensures Valid() && arraysize == n && (words == old(words) || fresh(words))
      ensures var kept := if n < old(arraysize) then n else old(arraysize);
              && Contents()[..kept] == old(Contents())[..kept]
              && (padWithZeroes ==> forall k :: kept <= k < n ==> words[k] == 0)
    {
      var smallest := if n < arraysize then n else arraysize;
      ghost var before := Contents();
      if words.Length < n {
        var newArray := new uint64[2 * n];
        var i := 0;
        while i < words.Length
          invariant 0 <= i <= words.Length
          invariant forall j :: 0 <= j < i ==> newArray[j] == words[j]
          modifies newArray
        {
          newArray[i] := words[i];
          i := i + 1;
        }
        words := newArray;
      }
      if padWithZeroes {
        var i := smallest;
        while i < n
          invariant smallest <= i <= n
          invariant forall j :: 0 <= j < smallest ==> words[j] == before[j]
          invariant forall j :: smallest <= j < i ==> words[j] == 0
          modifies words
        {
          words[i] := 0;
          i := i + 1;
        }
      }
      arraysize := n;
      assert forall j :: 0 <= j < smallest ==> words[j] == before[j];
      assert Contents()[..smallest] == before[..smallest];
    }

    method Grow(n: nat)
      requires Valid() && arraysize <= n
      modifies this, words
      ensures Valid() && arraysize == n && (words == old(words) || fresh(words))
      ensures Contents()[..old(arraysize)] == old(Contents())
      ensures Elements() == old(Elements())
    {
      ghost var before := Contents();
      Resize(n, true);
      assert Contents() == before + Contents()[|before|..];
      ZerosMembers(before, Contents()[|before|..]);
    }

    method Set(i: nat)
      requires Valid()
      modifies this, words
      ensures Valid() && (words == old(words) || fresh(words))
      ensures Elements() == old(Elements()) + {i}
      ensures arraysize == Max(old(arraysize), i / 64 + 1)
    {
      hide OrWord, ShlWord, Members;
      var k := i / 64;
      if k >= arraysize {
        Grow(k + 1);
      }
      ghost var before := Contents();
      words[k] := OrWord(words[k], ShlWord(1, i % 64));
      assert Contents() == before[k := OrWord(before[k], ShlWord(1, i % 64))];
      SetMembers(before, i);
    }

    method Unset(i: nat)
      requires Valid()
      modifies words
      ensures Valid()
      ensures Elements() == old(Elements()) - {i}
    {
      hide AndWord, NotWord, ShlWord, Members, Bit;
      var k := i / 64;
      MembersGet(Contents());
      if k >= arraysize {
        ZeroHasNoBits(i % 64);
        return;
      }
      ghost var before := Contents();
      words[k] := AndWord(words[k], NotWord(ShlWord(1, i % 64)));
      assert Contents() == before[k := AndWord(before[k], NotWord(ShlWord(1, i % 64)))];
      SetMembers(before, i);
    }

    method Has(i: nat) returns (r: bool)
      requires Valid()
      ensures r <==> i in Elements()
    {
      hide AndWord, ShlWord, Members, Bit;
      var k := i / 64;
      MembersGet(Contents());
      if k >= arraysize {
        ZeroHasNoBits(i % 64);
        return false;
      }
      TestWordBit(words[k], i % 64);
      r := AndWord(words[k], ShlWord(1, i % 64)) != 0;
    }

    // ---- In-place set operations ----

    ghost predicate Apart(other: Bitset)
      reads this, other
    {
      Valid() && other.Valid() && (this != other ==> words != other.words)
    }

    /** Combine the words both sets have. */
    method CombineCommon(op: SetOp, other: Bitset)
      requires Apart(other)
      modifies words
      ensures Valid()
      ensures var n := if arraysize < other.arraysize then arraysize else other.arraysize;
              && (forall k :: 0 <= k < n ==>
                   words[k] == Combine(op, old(Contents())[k], old(other.Contents())[k]))
              && (forall k :: n <= k < arraysize ==> words[k] == old(words[k]))
    {
      hide Combine;
      var n := if arraysize < other.arraysize then arraysize else other.arraysize;
      var k := 0;
      while k < n
        invariant 0 <= k <= n
        invariant forall j :: 0 <= j < k ==> words[j] == Combine(op, old(Contents())[j], old(other.Contents())[j])
        invariant forall j :: k <= j < words.Length ==> words[j] == old(words[j])
        invariant forall j :: k <= j < other.words.Length ==> other.words[j] == old(other.words[j])
      {
        words[k] := Combine(op, words[k], other.words[k]);
        k := k + 1;
      }
    }

    /** The union, or the symmetric difference: the words only the other set has are
        copied. */
    method CombineAll(op: SetOp, other: Bitset)
      requires Apart(other) && (op.Union? || op.SymmetricDifference?)
      modifies this, words
      ensures Valid() && (words == old(words) || fresh(words))
      ensures Elements() == Apply(op, old(Elements()), old(other.Elements()))
      ensures arraysize == Max(old(arraysize), other.arraysize)
    {
      hide Combine, Members;
      ghost var a, b := Contents(), other.Contents();
      CombineCommon(op, other);
      if other.arraysize > arraysize {
        CopyTail(other);
      }
      SameWords(op, a, b, Contents());
      ResultMembers(op, a, b);
    }

    /** Append the words that only the other set has. */
    method CopyTail(other: Bitset)
      requires Apart(other) && other.arraysize > arraysize
      modifies this, words
      ensures Valid() && (words == old(words) || fresh(words))
      ensures Contents() == old(Contents()) + old(other.Contents()[arraysize..])
    {
      var oldSize := arraysize;
      ghost var half, b := Contents(), other.Contents();
      Resize(other.arraysize, false);
      assert forall j :: 0 <= j < oldSize ==> words[j] == Contents()[..oldSize][j] == half[j];
      var k := oldSize;
      while k < other.arraysize
        invariant oldSize <= k <= other.arraysize
        invariant forall j :: 0 <= j < oldSize ==> words[j] == half[j]
        invariant forall j :: oldSize <= j < k ==> words[j] == b[j]
        modifies words
      {
        words[k] := other.words[k];
        k := k + 1;
      }
      assert Contents() == half + b[oldSize..];
    }

    method InplaceUnion(other: Bitset)
      requires Apart(other)
      modifies this, words
      ensures Valid() && (words == old(words) || fresh(words))
      ensures Elements() == old(Elements()) + old(other.Elements())
      ensures arraysize == Max(old(arraysize), other.arraysize)
    {
      hide Members;
      CombineAll(Union, other);
    }

    method InplaceSymmetricDifference(other: Bitset)
      requires Apart(other)
      modifies this, words
      ensures Valid() && (words == old(words) || fresh(words))
      ensures Elements() == (old(Elements()) - old(other.Elements())) + (old(other.Elements()) - old(Elements()))
      ensures arraysize == Max(old(arraysize), other.arraysize)
    {
      hide Members;
      CombineAll(SymmetricDifference, other);
    }

    method InplaceIntersection(other: Bitset)
      requires Apart(other)
      modifies words
      ensures Valid()
      ensures Elements() == old(Elements()) * old(other.Elements())
    {
      hide Combine, Members;
      ghost var a, b := Contents(), other.Contents();
      var k := if arraysize < other.arraysize then arraysize else other.arraysize;
      CombineCommon(Intersection, other);
      ghost var n, half := k, Contents();
      while k < arraysize
        invariant n <= k <= arraysize
        invariant forall j :: 0 <= j < n ==> words[j] == half[j]
        invariant forall j :: n <= j < k ==> words[j] == 0
      {
        words[k] := 0;
        k := k + 1;
      }
      SameWords(Intersection, a, b, Contents());
      ResultMembers(Intersection, a, b);
    }

    method InplaceDifference(other: Bitset)
      requires Apart(other)
      modifies words
      ensures Valid()
      ensures Elements() == old(Elements()) - old(other.Elements())
    {
      hide Combine, Members;
      ghost var a, b := Contents(), other.Contents();
      CombineCommon(Difference, other);
      SameWords(Difference, a, b, Contents());
      ResultMembers(Difference, a, b);
    }

    // ---- Shifts ----

    /** Every member moves up by s. */
    method ShiftLeft(s: nat)
      requires Valid() && (arraysize > 0 || s % 64 == 0)
      modifies this, words
      ensures Valid() && (words == old(words) || fresh(words))
      ensures Elements() == MovedUp(old(Elements()), s)
      ensures arraysize == old(arraysize) + s / 64 + (if s % 64 == 0 then 0 else 1)
    {
      hide Members, LeftWord;
      var extra := s / 64;
      ghost var a := Contents();
      if s % 64 == 0 {
        ShiftLeftWords(s);
      } else {
        ShiftLeftBits(s);
      }
      var i := 0;
      while i < extra
        invariant 0 <= i <= extra
        invariant forall j :: 0 <= j < i ==> words[j] == LeftWord(a, s, j)
        invariant forall j :: extra <= j < arraysize ==> words[j] == LeftWord(a, s, j)
        modifies words
      {
        words[i] := 0;
        LowWordsEmpty(a, s, i);
        i := i + 1;
      }
      LeftMembers(a, s, Contents());
    }

    method ShiftLeftWords(s: nat)
      requires Valid() && s % 64 == 0
      modifies this, words
      ensures Valid() && (words == old(words) || fresh(words))
      ensures arraysize == old(arraysize) + s / 64
      ensures forall j :: s / 64 <= j < arraysize ==> words[j] == LeftWord(old(Contents()), s, j)
    {
      hide ShlWord, ShrWord, OrWord;
      var extra, as0 := s / 64, arraysize;
      ghost var a := Contents();
      Resize(as0 + extra, false);
      ghost var kept := Contents()[..as0];
      assert forall j :: 0 <= j < as0 ==> words[j] == kept[j] == a[j];
      MoveUp(a, s);
    }

    method MoveUp(ghost a: seq<uint64>, s: nat)
      requires Valid() && s % 64 == 0 && arraysize == |a| + s / 64
      requires forall j :: 0 <= j < |a| ==> words[j] == a[j]
      modifies words
      ensures forall j :: s / 64 <= j < arraysize ==> words[j] == LeftWord(a, s, j)
    {
      hide LeftWord;
      var extra := s / 64;
      var i := arraysize;
      while i > extra
        invariant extra <= i <= arraysize
        invariant forall j :: 0 <= j < i && j < |a| ==> words[j] == a[j]
        invariant forall j :: i <= j < arraysize ==> words[j] == LeftWord(a, s, j)
      {
        words[i - 1] := words[i - 1 - extra];
        LeftWordMoved(a, s, i - 1);
        i := i - 1;
      }
    }

    method ShiftLeftBits(s: nat)
      requires Valid() && arraysize > 0 && s % 64 != 0
      modifies this, words
      ensures Valid() && (words == old(words) || fresh(words))
      ensures arraysize == old(arraysize) + s / 64 + 1
      ensures forall j :: s / 64 <= j < arraysize ==> words[j] == LeftWord(old(Contents()), s, j)
    {
      hide ShlWord, ShrWord, OrWord, LeftWord;
      var extra, w, as0 := s / 64, s % 64, arraysize;
      ghost var a := Contents();
      Resize(as0 + extra + 1, true);
      ghost var kept := Contents()[..as0];
      assert forall j :: 0 <= j < as0 ==> words[j] == kept[j] == a[j];
      words[as0 + extra] := ShrWord(words[as0 - 1], 64 - w);
      LeftWordForms(a, s, as0 + extra);
      CarryUp(a, s);
      words[extra] := ShlWord(words[0], w);
      LeftWordForms(a, s, extra);
    }

    /** The words between the lowest and the highest, from the top down. */
    method CarryUp(ghost a: seq<uint64>, s: nat)
      requires Valid() && s % 64 != 0 && |a| > 0 && arraysize == |a| + s / 64 + 1
      requires forall j :: 0 <= j < |a| ==> words[j] == a[j]
      requires words[arraysize - 1] == LeftWord(a, s, arraysize - 1)
      modifies words
      ensures words[0] == a[0]
      ensures forall j :: s / 64 < j < arraysize ==> words[j] == LeftWord(a, s, j)
    {
      hide ShlWord, ShrWord, OrWord, LeftWord;
      var extra, w := s / 64, s % 64;
      var i := arraysize - 1;
      while i >= extra + 2
        invariant extra + 1 <= i < arraysize
        invariant forall j :: 0 <= j < i && j < |a| ==> words[j] == a[j]
        invariant forall j :: i <= j < arraysize ==> words[j] == LeftWord(a, s, j)
      {
        words[i - 1] := OrWord(ShlWord(words[i - 1 - extra], w), ShrWord(words[i - 2 - extra], 64 - w));
        LeftWordForms(a, s, i - 1);
        i := i - 1;
      }
    }

    /** Every member moves down by s; those below s are dropped. */
    method ShiftRight(s: nat)
      requires Valid()
      requires if s % 64 == 0 then s / 64 <= arraysize else s / 64 < arraysize
      modifies this, words
      ensures Valid() && (words == old(words) || fresh(words))
      ensures Elements() == MovedDown(old(Elements()), s)
      ensures arraysize == old(arraysize) - s / 64
    {
      hide Members, RightWord;
      ghost var a := Contents();
      var n := arraysize - s / 64;
      if s % 64 == 0 {
        ShiftRightWords(s);
      } else {
        ShiftRightBits(s);
      }
      ghost var done := words[..n];
      Resize(n, false);
      assert Contents() == Contents()[..n] == done;
      RightMembers(a, s, Contents());
    }

    method ShiftRightWords(s: nat)
      requires Valid() && s % 64 == 0 && s / 64 <= arraysize
      modifies words
      ensures Valid()
      ensures forall j :: 0 <= j < arraysize - s / 64 ==> words[j] == RightWord(old(Contents()), s, j)
    {
      hide ShlWord, ShrWord, OrWord;
      var extra := s / 64;
      ghost var a := Contents();
      var i := 0;
      while i < arraysize - extra
        invariant 0 <= i <= arraysize - extra
        invariant forall j :: 0 <= j < i ==> words[j] == RightWord(a, s, j)
        invariant forall j :: i <= j < arraysize ==> words[j] == a[j]
      {
        words[i] := words[i + extra];
        i := i + 1;
      }
    }

    method ShiftRightBits(s: nat)
      requires Valid() && s % 64 != 0 && s / 64 < arraysize
      modifies words
      ensures Valid()
      ensures forall j :: 0 <= j < arraysize - s / 64 ==> words[j] == RightWord(old(Contents()), s, j)
    {
      hide ShlWord, ShrWord, OrWord;
      var extra, w := s / 64, s % 64;
      ghost var a := Contents();
      var i := 0;
      while i + extra + 1 < arraysize
        invariant 0 <= i < arraysize - extra
        invariant forall j :: 0 <= j < i ==> words[j] == RightWord(a, s, j)
        invariant forall j :: i <= j < arraysize ==> words[j] == a[j]
      {
        words[i] := OrWord(ShrWord(words[i + extra], w), ShlWord(words[i + extra + 1], 64 - w));
        i := i + 1;
      }
      ShlZero(64 - w, ShrWord(a[arraysize - 1], w));
      words[arraysize - extra - 1] := ShrWord(words[arraysize - 1], w);
    }

    /** Shifting left and then right by the same amount changes nothing. */
    method ShiftLeftThenRight(s: nat)
      requires Valid() && arraysize > 0
      modifies this, words
      ensures Valid() && Elements() == old(Elements())
    {
      hide Members;
      UpThenDown(Elements(), s);
      ShiftLeft(s);
      ShiftRight(s);
    }

    // ---- Iterating ----

    /** The least member at or above i, if there is one. */
    method NextSetBit(i: nat) returns (found: bool, next: nat)
      requires Valid()
      ensures found ==> next >= i && next in Elements() && forall j :: i <= j < next ==> j !in Elements()
      ensures !found ==> forall j :: j >= i ==> j !in Elements()
    {
      hide Members, Bit, ShrWord, Get;
      found, next := false, i;
      ghost var ws := Contents();
      MembersGet(ws);
      NoneBeyond(ws);
      var x := i / 64;
      if x >= arraysize {
        return;
      }
      var w := ShrWord(words[x], i % 64);
      FirstWord(ws, i);
      if w != 0 {
        return true, i + Ctz(w);
      }
      x := x + 1;
      while x < arraysize
        invariant i / 64 < x <= arraysize
        invariant forall j :: i <= j < 64 * x ==> !Get(ws, j)
      {
        w := words[x];
        LaterWord(ws, x);
        if w != 0 {
          return true, x * 64 + Ctz(w);
        }
        x := x + 1;
      }
    }

    /** Stepping from each member to the next visits every member once, in order. */
    method Enumerate() returns (r: seq<nat>)
      requires Valid()
      ensures forall a, b :: 0 <= a < b < |r| ==> r[a] < r[b]
      ensures forall x: nat :: x in r <==> x in Elements()
    {
      hide Members;
      r := [];
      var i := 0;
      MembersInside(Contents());
      while true
        invariant 0 <= i <= 64 * arraysize + 1
        invariant forall a :: 0 <= a < |r| ==> r[a] < i
        invariant forall a, b :: 0 <= a < b < |r| ==> r[a] < r[b]
        invariant forall x: nat :: x in r <==> x in Elements() && x < i
        decreases 64 * arraysize + 1 - i
      {
        var found, next := NextSetBit(i);
        if !found {
          return;
        }
        r := r + [next];
        i := next + 1;
      }
    }

    // ---- Comparing ----

    /** Compares the words that both sets have; the rest of the longer one is not looked
        at. */
    method Equal(other: Bitset) returns (r: bool)
      requires Valid() && other.Valid()
      ensures r <==> SameCommonWords(Contents(), other.Contents())
      ensures (r == (Elements() == other.Elements())) <==>
                !SameCommonWords(Contents(), other.Contents()) || EmptyTails(Contents(), other.Contents())
    {
      hide Members, EmptyTails;
      ghost var a, b := Contents(), other.Contents();
      r := true;
      var n := if arraysize < other.arraysize then arraysize else other.arraysize;
      var k := 0;
      while k < n && r
        invariant 0 <= k <= n
        invariant r ==> forall j :: 0 <= j < k ==> a[j] == b[j]
        invariant !r ==> exists j :: 0 <= j < n && a[j] != b[j]
      {
        if words[k] != other.words[k] {
          r := false;
        }
        k := k + 1;
      }
      EqualExactly(a, b);
    }

    // ---- Counting ----

    method Count() returns (card: nat)
      requires Valid()
      ensures card == |Elements()|
    {
      hide Popcount, Members;
      ghost var ws := Contents();
      card := 0;
      var k := 0;
      while k + 7 < arraysize
        invariant 0 <= k <= arraysize && card == SumTo(ws, k)
      {
        card := CountFour(ws, k, card, words);
        card := CountFour(ws, k + 4, card, words);
        k := k + 8;
      }
      while k + 3 < arraysize
        invariant 0 <= k <= arraysize && card == SumTo(ws, k)
      {
        card := CountFour(ws, k, card, words);
        k := k + 4;
      }
      while k < arraysize
        invariant 0 <= k <= arraysize && card == SumTo(ws, k)
      {
        card := card + Popcount(words[k]);
        k := k + 1;
      }
      SumIsCardinality(ws, |ws|);
      assert ws[..|ws|] == ws;
    }

    /** Count the combined words both sets have. */
    method CountCommon(op: SetOp, other: Bitset) returns (answer: nat, k: nat)
      requires Valid() && other.Valid()
      ensures k == (if arraysize < other.arraysize then arraysize else other.arraysize)
      ensures answer == SumTo(Result(op, Contents(), other.Contents()), k)
    {
      hide Popcount, Combine;
      ghost var r := Result(op, Contents(), other.Contents());
      var n := if arraysize < other.arraysize then arraysize else other.arraysize;
      answer, k := 0, 0;
      while k < n
        invariant 0 <= k <= n && answer == SumTo(r, k)
      {
        answer := answer + Popcount(Combine(op, words[k], other.words[k]));
        k := k + 1;
      }
    }

    /** The same for the union, four words a round. */
    method UnionCommon(other: Bitset) returns (answer: nat, k: nat)
      requires Valid() && other.Valid()
      ensures k == (if arraysize < other.arraysize then arraysize else other.arraysize)
      ensures answer == SumTo(Result(Union, Contents(), other.Contents()), k)
    {
      hide Popcount, Combine, Result, SumTo;
      ghost var a, b := Contents(), other.Contents();
      ghost var r := Result(Union, a, b);
      SumOfNone(r);
      var n := if arraysize < other.arraysize then arraysize else other.arraysize;
      answer, k := 0, 0;
      while k + 3 < n
        invariant 0 <= k <= n && answer == SumTo(r, k)
      {
        answer := answer + Popcount(Combine(Union, words[k], other.words[k]));
        NextWord(Union, a, b, k);
        answer := answer + Popcount(Combine(Union, words[k + 1], other.words[k + 1]));
        NextWord(Union, a, b, k + 1);
        answer := answer + Popcount(Combine(Union, words[k + 2], other.words[k + 2]));
        NextWord(Union, a, b, k + 2);
        answer := answer + Popcount(Combine(Union, words[k + 3], other.words[k + 3]));
        NextWord(Union, a, b, k + 3);
        k := k + 4;
      }
      while k < n
        invariant 0 <= k <= n && answer == SumTo(r, k)
      {
        answer := answer + Popcount(Combine(Union, words[k], other.words[k]));
        NextWord(Union, a, b, k);
        k := k + 1;
      }
    }

    method UnionCount(other: Bitset) returns (answer: nat)
      requires Valid() && other.Valid()
      ensures answer == |Elements() + other.Elements()|
    {
      hide Popcount, Combine, Members;
      ghost var a, b := Contents(), other.Contents();
      var k: nat;
      answer, k := UnionCommon(other);
      TailWords(Union, a, b);
      if other.arraysize > arraysize {
        answer := CountTailByFours(Result(Union, a, b), k, answer, other.words, other.arraysize);
      } else {
        answer := CountTailByFours(Result(Union, a, b), k, answer, words, arraysize);
      }
      ResultCardinality(Union, a, b);
    }

    method IntersectionCount(other: Bitset) returns (answer: nat)
      requires Valid() && other.Valid()
      ensures answer == |Elements() * other.Elements()|
    {
      hide Popcount, Combine, Members;
      ghost var a, b := Contents(), other.Contents();
      var k: nat;
      answer, k := CountCommon(Intersection, other);
      TailWords(Intersection, a, b);
      SumOfZeros(Result(Intersection, a, b), k);
      ResultCardinality(Intersection, a, b);
    }

    method DifferenceCount(other: Bitset) returns (answer: nat)
      requires Valid() && other.Valid()
      ensures answer == |Elements() - other.Elements()|
    {
      hide Popcount, Combine, Members;
      ghost var a, b := Contents(), other.Contents();
      var k: nat;
      answer, k := CountCommon(Difference, other);
      TailWords(Difference, a, b);
      answer := CountTail(Result(Difference, a, b), k, answer, words, arraysize);
      ResultCardinality(Difference, a, b);
    }

    method SymmetricDifferenceCount(other: Bitset) returns (answer: nat)
      requires Valid() && other.Valid()
      ensures answer == |(Elements() - other.Elements()) + (other.Elements() - Elements())|
    {
      hide Popcount, Combine, Members;
      ghost var a, b := Contents(), other.Contents();
      var k: nat;
      answer, k := CountCommon(SymmetricDifference, other);
      TailWords(SymmetricDifference, a, b);
      if other.arraysize > arraysize {
        answer := CountTail(Result(SymmetricDifference, a, b), k, answer, other.words, other.arraysize);
      } else {
        answer := CountTail(Result(SymmetricDifference, a, b), k, answer, words, arraysize);
      }
      ResultCardinality(SymmetricDifference, a, b);
    }
  }

  lemma SumOfNone(ws: seq<uint64>)
    ensures SumTo(ws, 0) == 0
  {
  }

  lemma NextWord(op: SetOp, a: seq<uint64>, b: seq<uint64>, k: nat)
    requires k < |a| && k < |b|
    ensures SumTo(Result(op, a, b), k + 1) == SumTo(Result(op, a, b), k) + Popcount(Combine(op, a[k], b[k]))
  {
    hide Combine, Popcount;
  }

  lemma LeftWordMoved(a: seq<uint64>, s: nat, j: nat)
    requires s % 64 == 0 && s / 64 <= j < s / 64 + |a|
    ensures LeftWord(a, s, j) == a[j - s / 64]
  {
  }

  lemma LeftWordForms(a: seq<uint64>, s: nat, j: nat)
    requires s % 64 != 0 && |a| > 0 && s / 64 <= j <= s / 64 + |a|
    ensures var extra, w := s / 64, s % 64;
            && (j == extra ==> LeftWord(a, s, j) == ShlWord(a[0], w))
            && (extra < j < extra + |a| ==>
                 LeftWord(a, s, j) == OrWord(ShlWord(a[j - extra], w), ShrWord(a[j - extra - 1], 64 - w)))
            && (j == extra + |a| ==> LeftWord(a, s, j) == ShrWord(a[|a| - 1], 64 - w))
  {
    hide ShlWord, ShrWord, OrWord;
    ShlZero(s % 64, ShrWord(a[|a| - 1], 64 - s % 64));
  }

  lemma LowWordsEmpty(a: seq<uint64>, s: nat, j: nat)
    requires j < s / 64
    ensures LeftWord(a, s, j) == 0
  {
  }

  lemma ShlZero(k: nat, x: uint64)
    ensures ShlWord(0, k) == 0 && OrWord(0, x) == x && OrWord(x, 0) == x
  {
    assert 0 * Pow2(k) == 0;
  }

  /** Past the common words the result is zero or the longer operand. */
  lemma TailWords(op: SetOp, a: seq<uint64>, b: seq<uint64>)
    ensures var r := Result(op, a, b);
            && (forall k :: |b| <= k < |a| ==> r[k] == if op.Intersection? then 0 else a[k])
            && (forall k :: |a| <= k < |r| ==> r[k] == b[k])
  {
    hide Combine;
    forall k | 0 <= k < |Result(op, a, b)|
      ensures Result(op, a, b)[k] == Combine(op, WordAt(a, k), WordAt(b, k))
      ensures Combine(op, WordAt(a, k), 0) == if op.Intersection? then 0 else WordAt(a, k)
      ensures op.Union? || op.SymmetricDifference? ==> Combine(op, 0, WordAt(b, k)) == WordAt(b, k)
    {
      CombineZero(op, WordAt(a, k));
      CombineZero(op, WordAt(b, k));
    }
  }

  lemma ResultCardinality(op: SetOp, a: seq<uint64>, b: seq<uint64>)
    ensures SumTo(Result(op, a, b), |Result(op, a, b)|) == |Apply(op, Members(a), Members(b))|
  {
    hide Popcount, Combine, Members, Apply;
    var r := Result(op, a, b);
    SumIsCardinality(r, |r|);
    assert r[..|r|] == r;
    ResultMembers(op, a, b);
  }

  method CountTail(ghost r: seq<uint64>, k0: nat, answer0: nat, words: array<uint64>, size: nat) returns (answer: nat)
    requires k0 <= size == |r| <= words.Length && answer0 == SumTo(r, k0)
    requires forall j :: k0 <= j < size ==> r[j] == words[j]
    ensures answer == SumTo(r, size)
  {
    hide Popcount;
    answer := answer0;
    var k := k0;
    while k < size
      invariant k0 <= k <= size && answer == SumTo(r, k)
    {
      answer := answer + Popcount(words[k]);
      k := k + 1;
    }
  }

  method CountTailByFours(ghost r: seq<uint64>, k0: nat, answer0: nat, words: array<uint64>, size: nat)
    returns (answer: nat)
    requires k0 <= size == |r| <= words.Length && answer0 == SumTo(r, k0)
    requires forall j :: k0 <= j < size ==> r[j] == words[j]
    ensures answer == SumTo(r, size)
  {
    hide Popcount;
    answer := answer0;
    var k := k0;
    while k + 3 < size
      invariant k0 <= k <= size && answer == SumTo(r, k)
    {
      answer := CountFour(r, k, answer, words);
      k := k + 4;
    }
    answer := CountTail(r, k, answer, words, size);
  }

  /** Four rounds of the counting loop at once. */
  method CountFour(ghost ws: seq<uint64>, k: nat, card: nat, words: array<uint64>) returns (r: nat)
    requires k + 4 <= |ws| <= words.Length && card == SumTo(ws, k)
    requires forall j :: k <= j < |ws| ==> ws[j] == words[j]
    ensures r == SumTo(ws, k + 4)
  {
    hide Popcount;
    r := card + Popcount(words[k]);
    assert r == SumTo(ws, k + 1);
    r := r + Popcount(words[k + 1]);
    assert r == SumTo(ws, k + 2);
    r := r + Popcount(words[k + 2]);
    assert r == SumTo(ws, k + 3);
    r := r + Popcount(words[k + 3]);
  }

  lemma {:induction false} SumOfZeros(ws: seq<uint64>, n: nat)
    requires n <= |ws| && forall k :: n <= k < |ws| ==> ws[k] == 0
    ensures SumTo(ws, |ws|) == SumTo(ws, n)
  {
    var k := n;
    while k < |ws|
      invariant n <= k <= |ws| && SumTo(ws, k) == SumTo(ws, n)
    {
      k := k + 1;
    }
  }

  /** Combined common words, and the rest as the operation leaves it, are the result. */
  lemma SameWords(op: SetOp, a: seq<uint64>, b: seq<uint64>, r: seq<uint64>)
    requires |r| == |Result(op, a, b)|
    requires forall k :: 0 <= k < |a| && k < |b| ==> r[k] == Combine(op, a[k], b[k])
    requires forall k :: |b| <= k < |a| ==> r[k] == if op.Intersection? then 0 else a[k]
    requires forall k :: |a| <= k < |r| ==> r[k] == b[k]
    ensures r == Result(op, a, b)
  {
    hide Combine;
    forall k | 0 <= k < |r|
      ensures r[k] == Result(op, a, b)[k]
    {
      ResultAt(op, a, b, k);
      CombineZero(op, WordAt(a, k));
      CombineZero(op, WordAt(b, k));
    }
  }
}
