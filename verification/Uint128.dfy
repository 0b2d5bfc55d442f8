/** Portable 128-bit arithmetic on pairs of 64-bit words. */
module Uint128 {
  import opened DivMod
  import opened Bits
  import opened Wrappers

  const TWO_128: nat := 0x1_0000_0000_0000_0000_0000_0000_0000_0000

  datatype U128 = U128(high: uint64, low: uint64) {
    function Value(): (r: nat)
      ensures r < TWO_128
    {
      high * TWO_64 + low
    }
  }

  /** Arithmetic modulo 2^64. */
  function Wrap(x: int): uint64 {
    x % TWO_64
  }

  lemma WrapForm(x: int)
    ensures x == (x / TWO_64) * TWO_64 + Wrap(x)
  {
  }

  lemma WrapOne(x: int, q: int)
    requires q * TWO_64 <= x < (q + 1) * TWO_64
    ensures Wrap(x) == x - q * TWO_64
  {
  }

  /** A carry out of the high word is lost modulo 2^128. */
  lemma JoinWords(h: int, l: nat)
    requires l < TWO_64
    ensures Wrap(h) * TWO_64 + l == (h * TWO_64 + l) % TWO_128
  {
    hide Wrap;
    WrapForm(h);
    DivModUnique(h * TWO_64 + l, TWO_128, h / TWO_64, Wrap(h) * TWO_64 + l);
  }

  function Add(a: U128, b: U128): (r: U128)
    ensures r.Value() == (a.Value() + b.Value()) % TWO_128
  {
    AddWords(a, b);
    var low := Wrap(a.low + b.low);
    U128(Wrap(a.high + b.high + (if low < a.low then 1 else 0)), low)
  }

  lemma AddWords(a: U128, b: U128)
    ensures var low := Wrap(a.low + b.low);
            var high := Wrap(a.high + b.high + (if low < a.low then 1 else 0));
            high * TWO_64 + low == (a.Value() + b.Value()) % TWO_128
  {
    hide Wrap;
    var sum := a.low + b.low;
    WrapOne(sum, if sum < TWO_64 then 0 else 1);
    JoinWords(a.high + b.high + (if Wrap(sum) < a.low then 1 else 0), Wrap(sum));
  }

  function Sub(a: U128, b: U128): (r: U128)
    ensures r.Value() == (a.Value() - b.Value()) % TWO_128
  {
    SubWords(a, b);
    U128(Wrap(a.high - b.high - (if a.low < b.low then 1 else 0)), Wrap(a.low - b.low))
  }

  lemma SubWords(a: U128, b: U128)
    ensures var high := Wrap(a.high - b.high - (if a.low < b.low then 1 else 0));
            high * TWO_64 + Wrap(a.low - b.low) == (a.Value() - b.Value()) % TWO_128
  {
    hide Wrap;
    var difference := a.low - b.low;
    WrapOne(difference, if difference < 0 then -1 else 0);
    JoinWords(a.high - b.high - (if difference < 0 then 1 else 0), Wrap(difference));
  }

  predicate Less(a: U128, b: U128)
    ensures Less(a, b) <==> a.Value() < b.Value()
  {
    a.high < b.high || (a.high == b.high && a.low < b.low)
  }

  // ---- Shifts ----

  lemma Pow128()
    ensures Pow2(64) == TWO_64 && Pow2(128) == TWO_128
  {
    hide Pow2;
    Pow64();
    Pow2Add(64, 64);
  }

  function Shl(x: uint64, k: nat): uint64 {
    Wrap(x * Pow2(k))
  }

  function Shr(x: uint64, k: nat): (r: uint64)
    ensures r == x / Pow2(k)
  {
    QuotientBounds(x, Pow2(k));
    x / Pow2(k)
  }

  /** Shifting a word left moves its leading bits d out and leaves the others r. */
  lemma ShiftedWord(x: nat, d: nat, r: nat, p: nat, q: nat)
    requires p > 0 && p * q == TWO_64 && x == d * q + r && r < q
    ensures Wrap(x * p) == r * p && (x * p) / TWO_64 == d
  {
    assert (d * q) * p == d * (p * q);
    assert x * p == d * TWO_64 + r * p;
    MulNonNegative(r, p);
    MulLower(q - r, p);
    assert (q - r) * p == TWO_64 - r * p;
    DivModUnique(x * p, TWO_64, d, r * p);
  }

  /** The bits shifted out of one word and into the other do not overlap the rest. */
  lemma Splice(h: uint64, l: uint64, k: nat)
    requires 0 < k < 64
    ensures Pow2(k) * Pow2(64 - k) == TWO_64
    ensures Or(Shl(h, k), Shr(l, 64 - k)) == Shl(h, k) + Shr(l, 64 - k) < TWO_64
    ensures Shl(h, k) == (h % Pow2(64 - k)) * Pow2(k)
    ensures Shr(l, 64 - k) == (l * Pow2(k)) / TWO_64
  {
    hide Pow2, Or, Wrap;
    var p, q := Pow2(k), Pow2(64 - k);
    Pow128();
    Pow2Add(k, 64 - k);
    DivModSplit(h, q);
    DivModSplit(l, q);
    QuotientBounds(h, q);
    QuotientBelow(l, q, p);
    ShiftedWord(h, h / q, h % q, p, q);
    ShiftedWord(l, l / q, l % q, p, q);
    OrDisjoint(l / q, h % q, k);
    OrComm(l / q, (h % q) * p);
    MulLower(q - h % q, p);
    assert (q - h % q) * p == TWO_64 - (h % q) * p;
  }

  function ShiftLeft(x: U128, n: nat): (r: U128)
    ensures r.Value() == (x.Value() * Pow2(n % 128)) % TWO_128
  {
    var k := n % 64;
    if (n / 64) % 2 == 1 then
      LeftByWord(x, n);
      U128(Shl(x.low, k), 0)
    else if k != 0 then
      LeftByBits(x, n);
      Splice(x.high, x.low, k);
      U128(Or(Shl(x.high, k), Shr(x.low, 64 - k)), Shl(x.low, k))
    else
      ByNone(x, n);
      x
  }

  lemma ByNone(x: U128, n: nat)
    requires (n / 64) % 2 == 0 && n % 64 == 0
    ensures x.Value() == (x.Value() * Pow2(n % 128)) % TWO_128
    ensures x.Value() == x.Value() / Pow2(n % 128)
  {
    WordsAndBits(n);
    PowZero();
  }

  lemma LeftByWord(x: U128, n: nat)
    requires (n / 64) % 2 == 1
    ensures Shl(x.low, n % 64) * TWO_64 == (x.Value() * Pow2(n % 128)) % TWO_128
  {
    hide Pow2, Wrap;
    var p := Pow2(n % 64);
    assert Pow2(n % 128) == TWO_64 * p by {
      PastWord(n);
    }
    ShiftPastWord(x.high, x.low, p);
  }

  lemma PastWord(n: nat)
    requires (n / 64) % 2 == 1
    ensures Pow2(n % 128) == TWO_64 * Pow2(n % 64)
  {
    hide Pow2;
    WordsAndBits(n);
    Pow128();
    Pow2Add(64, n % 64);
  }

  /** A shift is taken modulo 128: the words moved, modulo two, and the bits. */
  lemma WordsAndBits(n: nat)
    ensures n % 128 == (if (n / 64) % 2 == 1 then 64 else 0) + n % 64
  {
    var words, bits := n / 64, n % 64;
    DivModUnique(n, 128, words / 2, 64 * (words % 2) + bits);
  }

  /** Shifted by a word or more, the high word is lost. */
  lemma ShiftPastWord(h: nat, l: nat, p: nat)
    ensures Wrap(l * p) * TWO_64 == ((h * TWO_64 + l) * (TWO_64 * p)) % TWO_128
  {
    hide Wrap;
    WrapForm(l * p);
    var q := (l * p) / TWO_64;
    Factors(h, l, p);
    assert h * p * TWO_128 + (q * TWO_64 + Wrap(l * p)) * TWO_64 == (h * p + q) * TWO_128 + Wrap(l * p) * TWO_64;
    DivModUnique((h * TWO_64 + l) * (TWO_64 * p), TWO_128, h * p + q, Wrap(l * p) * TWO_64);
  }

  lemma Factors(h: nat, l: nat, p: nat)
    ensures (h * TWO_64 + l) * (TWO_64 * p) == h * p * TWO_128 + (l * p) * TWO_64
  {
    Distribute(h, l, p);
    assert (h * TWO_64 + l) * (TWO_64 * p) == ((h * TWO_64 + l) * p) * TWO_64;
  }

  lemma LeftByBits(x: U128, n: nat)
    requires (n / 64) % 2 == 0 && n % 64 != 0
    ensures var k := n % 64;
            Or(Shl(x.high, k), Shr(x.low, 64 - k)) * TWO_64 + Shl(x.low, k)
              == (x.Value() * Pow2(n % 128)) % TWO_128
  {
    hide Pow2, Wrap, Or, Shr;
    var k := n % 64;
    WordsAndBits(n);
    Splice(x.high, x.low, k);
    Distribute(x.high, x.low, Pow2(k));
    Assemble(x.high * Pow2(k), x.low * Pow2(k));
  }

  lemma Distribute(h: nat, l: nat, p: nat)
    ensures (h * TWO_64 + l) * p == (h * p) * TWO_64 + l * p
    ensures h * p >= 0 && l * p >= 0
  {
  }

  lemma Assemble(hp: nat, lp: nat)
    requires Wrap(hp) + lp / TWO_64 < TWO_64
    ensures (Wrap(hp) + lp / TWO_64) * TWO_64 + Wrap(lp) == (hp * TWO_64 + lp) % TWO_128
  {
    hide Wrap;
    WrapForm(hp);
    WrapForm(lp);
    DivModUnique(hp * TWO_64 + lp, TWO_128, hp / TWO_64, (Wrap(hp) + lp / TWO_64) * TWO_64 + Wrap(lp));
  }

  function ShiftRight(x: U128, n: nat): (r: U128)
    ensures r.Value() == x.Value() / Pow2(n % 128)
  {
    var k := n % 64;
    if (n / 64) % 2 == 1 then
      RightByWord(x, n);
      U128(0, Shr(x.high, k))
    else if k != 0 then
      RightByBits(x, n);
      Splice(x.high, x.low, 64 - k);
      U128(Shr(x.high, k), Or(Shl(x.high, 64 - k), Shr(x.low, k)))
    else
      ByNone(x, n);
      x
  }

  lemma RightByWord(x: U128, n: nat)
    requires (n / 64) % 2 == 1
    ensures Shr(x.high, n % 64) == x.Value() / Pow2(n % 128)
  {
    hide Pow2;
    PastWord(n);
    HighWordOnly(x.high, x.low, Pow2(n % 64));
  }

  /** Shifted by a word or more, the low word is lost. */
  lemma HighWordOnly(h: nat, l: nat, p: nat)
    requires p > 0 && l < TWO_64
    ensures h / p == (h * TWO_64 + l) / (TWO_64 * p)
  {
    DivModSplit(h, p);
    var q, r := h / p, h % p;
    assert h * TWO_64 == q * (TWO_64 * p) + r * TWO_64 by {
      assert (q * p) * TWO_64 == q * (TWO_64 * p);
    }
    DivModUnique(h * TWO_64 + l, TWO_64 * p, q, r * TWO_64 + l);
  }

  lemma RightByBits(x: U128, n: nat)
    requires (n / 64) % 2 == 0 && n % 64 != 0
    ensures var k := n % 64;
            Shr(x.high, k) * TWO_64 + Or(Shl(x.high, 64 - k), Shr(x.low, k))
              == x.Value() / Pow2(n % 128)
  {
    hide Pow2, Wrap, Or, Shr, Shl;
    var k := n % 64;
    WordsAndBits(n);
    Splice(x.high, x.low, 64 - k);
    RightWords(x.high, x.low, Pow2(k), Pow2(64 - k));
  }

  lemma RightWords(h: nat, l: nat, p: nat, q: nat)
    requires p > 0 && q > 0 && q * p == TWO_64
    ensures (h / p) * TWO_64 + (h % p) * q + l / p == (h * TWO_64 + l) / p
  {
    DivModSplit(h, p);
    DivModSplit(l, p);
    var high, low := h / p, (h % p) * q + l / p;
    assert ((h % p) * q) * p == (h % p) * TWO_64;
    assert (high * TWO_64) * p == (high * p) * TWO_64;
    assert (high * TWO_64 + low) * p == (high * TWO_64) * p + ((h % p) * q) * p + (l / p) * p;
    DivModUnique(h * TWO_64 + l, p, high * TWO_64 + low, l % p);
  }

  // ---- Multiplication ----

  lemma ProductBelow(x: nat, y: nat)
    requires x < TWO_32 && y < TWO_32
    ensures 0 <= x * y < TWO_64
  {
    MulNonNegative(x, y);
    MulNonNegative(TWO_32 - x, TWO_32);
    MulNonNegative(x, TWO_32 - y);
    assert TWO_64 - x * y == (TWO_32 - x) * TWO_32 + x * (TWO_32 - y);
  }

  function Multiply(a: U128, b: U128): (r: U128)
    ensures r.Value() == (a.Value() * b.Value()) % TWO_128
  {
    var a1, a0, b1, b0 := a.low / TWO_32, a.low % TWO_32, b.low / TWO_32, b.low % TWO_32;
    ProductBelow(a1, b1);
    ProductBelow(a0, b0);
    ProductBelow(a1, b0);
    ProductBelow(b1, a0);
    var high := Wrap(Wrap(a.low * b.high + b.low * a.high) + a1 * b1);
    var mid1, mid2 := ShiftLeft(U128(0, a1 * b0), 32), ShiftLeft(U128(0, b1 * a0), 32);
    SmallShift(a1 * b0);
    SmallShift(b1 * a0);
    MultiplyWords(a, b, a1, a0, b1, b0, mid1, mid2);
    Add(Add(U128(high, a0 * b0), mid1), mid2)
  }

  lemma SmallShift(x: uint64)
    ensures ShiftLeft(U128(0, x), 32).Value() == x * TWO_32
  {
    hide Pow2, ShiftLeft;
    Pow64();
  }

  lemma WrapTwice(x: int, y: int)
    ensures Wrap(Wrap(x) + y) == Wrap(x + y)
  {
    hide Wrap;
    WrapForm(x);
    WrapForm(Wrap(x) + y);
    var q := (Wrap(x) + y) / TWO_64 + x / TWO_64;
    WrapOne(x + y, q);
  }

  lemma SumOfThree(x: int, y: int, z: int)
    ensures ((x % TWO_128 + y) % TWO_128 + z) % TWO_128 == (x + y + z) % TWO_128
  {
    var q := x / TWO_128 + (x % TWO_128 + y) / TWO_128;
    var w := (x % TWO_128 + y) % TWO_128 + z;
    assert x + y + z == q * TWO_128 + w;
    DivModUnique(x + y + z, TWO_128, q + w / TWO_128, w % TWO_128);
  }

  lemma MultiplyWords(a: U128, b: U128, a1: nat, a0: nat, b1: nat, b0: nat, mid1: U128, mid2: U128)
    requires a.low == a1 * TWO_32 + a0 && b.low == b1 * TWO_32 + b0 && 0 <= a0 * b0 < TWO_64
    requires mid1.Value() == a1 * b0 * TWO_32 && mid2.Value() == b1 * a0 * TWO_32
    ensures var high := Wrap(Wrap(a.low * b.high + b.low * a.high) + a1 * b1);
            Add(Add(U128(high, a0 * b0), mid1), mid2).Value() == (a.Value() * b.Value()) % TWO_128
  {
    hide Wrap, Add, U128.Value;
    var upper := a.low * b.high + b.low * a.high + a1 * b1;
    assert Wrap(Wrap(a.low * b.high + b.low * a.high) + a1 * b1) == Wrap(upper) by {
      WrapTwice(a.low * b.high + b.low * a.high, a1 * b1);
    }
    HighAndLow(upper, a0 * b0);
    AddThree(U128(Wrap(upper), a0 * b0), upper * TWO_64 + a0 * b0, mid1, mid2);
    ProductWraps(a, b, a1, a0, b1, b0);
  }

  lemma HighAndLow(h: int, l: uint64)
    ensures U128(Wrap(h), l).Value() == (h * TWO_64 + l) % TWO_128
  {
    hide Wrap;
    JoinWords(h, l);
  }

  lemma AddThree(x: U128, sum: int, y: U128, z: U128)
    requires x.Value() == sum % TWO_128
    ensures Add(Add(x, y), z).Value() == (sum + y.Value() + z.Value()) % TWO_128
  {
    hide Add, U128.Value;
    SumOfThree(sum, y.Value(), z.Value());
  }

  /** The product of the high words falls out of 128 bits. */
  lemma ProductWraps(a: U128, b: U128, a1: nat, a0: nat, b1: nat, b0: nat)
    requires a.low == a1 * TWO_32 + a0 && b.low == b1 * TWO_32 + b0
    ensures var upper := a.low * b.high + b.low * a.high + a1 * b1;
            (a.Value() * b.Value()) % TWO_128
              == (upper * TWO_64 + a0 * b0 + a1 * b0 * TWO_32 + b1 * a0 * TWO_32) % TWO_128
  {
    ProductOfWords(a.high, a1, a0, b.high, b1, b0);
    var upper := a.low * b.high + b.low * a.high + a1 * b1;
    DropMultiple(a.Value() * b.Value(), a.high * b.high,
                 upper * TWO_64 + a0 * b0 + a1 * b0 * TWO_32 + b1 * a0 * TWO_32);
  }

  lemma DropMultiple(x: int, q: int, sum: int)
    requires x == q * TWO_128 + sum
    ensures x % TWO_128 == sum % TWO_128
  {
    DivModSplit(sum, TWO_128);
    DivModUnique(x, TWO_128, q + sum / TWO_128, sum % TWO_128);
  }

  lemma ProductOfWords(h: nat, a1: nat, a0: nat, k: nat, b1: nat, b0: nat)
    ensures var l, m := a1 * TWO_32 + a0, b1 * TWO_32 + b0;
            (h * TWO_64 + l) * (k * TWO_64 + m)
              == (h * k) * TWO_128 + (l * k + m * h + a1 * b1) * TWO_64 + a0 * b0 + a1 * b0 * TWO_32 + b1 * a0 * TWO_32
  {
    var l, m := a1 * TWO_32 + a0, b1 * TWO_32 + b0;
    assert (h * TWO_64 + l) * (k * TWO_64 + m) == (h * k) * TWO_128 + (l * k + m * h) * TWO_64 + l * m by {
      assert (h * TWO_64 + l) * (k * TWO_64 + m)
          == (h * TWO_64) * (k * TWO_64) + (h * TWO_64) * m + l * (k * TWO_64) + l * m;
      assert (h * TWO_64) * (k * TWO_64) == (h * k) * TWO_128;
      assert (h * TWO_64) * m == (m * h) * TWO_64;
      assert l * (k * TWO_64) == (l * k) * TWO_64;
    }
    assert l * m == (a1 * b1) * TWO_64 + a0 * b0 + a1 * b0 * TWO_32 + b1 * a0 * TWO_32 by {
      assert l * m == (a1 * TWO_32) * (b1 * TWO_32) + (a1 * TWO_32) * b0 + a0 * (b1 * TWO_32) + a0 * b0;
      assert (a1 * TWO_32) * (b1 * TWO_32) == (a1 * b1) * TWO_64;
      assert (a1 * TWO_32) * b0 == a1 * b0 * TWO_32;
      assert a0 * (b1 * TWO_32) == b1 * a0 * TWO_32;
    }
  }

  // ---- Leading zeros ----

  /** The number of zero bits above the highest bit set. */
  function Clz64(v: uint64): (c: nat)
    requires v > 0
    ensures c <= 63 && Pow2(63 - c) <= v < Pow2(64 - c)
    decreases TWO_64 - v
  {
    Pow63();
    if v >= 0x8000_0000_0000_0000 then 0 else 1 + Clz64(2 * v)
  }

  lemma Pow63()
    ensures Pow2(63) == 0x8000_0000_0000_0000 && Pow2(64) == TWO_64
  {
    Pow128();
  }

  function Clz(x: U128): (c: nat)
    requires x.Value() > 0
    ensures c <= 127 && Pow2(127 - c) <= x.Value() < Pow2(128 - c)
  {
    if x.high != 0 then
      var c := Clz64(x.high);
      HighWordRange(x, c);
      c
    else
      64 + Clz64(x.low)
  }

  lemma HighWordRange(x: U128, c: nat)
    requires c <= 63 && Pow2(63 - c) <= x.high < Pow2(64 - c)
    ensures Pow2(127 - c) <= x.Value() < Pow2(128 - c)
  {
    hide Pow2;
    Pow128();
    Pow2Add(63 - c, 64);
    Pow2Add(64 - c, 64);
  }

  // ---- Division ----

  function OrOne(x: U128): (r: U128)
    ensures x.Value() % 2 == 0 ==> r.Value() == x.Value() + 1
  {
    SetLowBit(x.low);
    U128(x.high, Or(x.low, 1))
  }

  lemma SetLowBit(low: uint64)
    ensures Or(low, 1) == low + 1 - low % 2
  {
    hide Or;
    var half := low / 2;
    assert Pow2(1) == 2;
    if low % 2 == 0 {
      OrDisjoint(1, half, 1);
      OrComm(low, 1);
    } else {
      OrOdd(low);
    }
  }

  lemma OrOdd(low: nat)
    requires low % 2 == 1
    ensures Or(low, 1) == low
  {
  }

  /** Subtracting the shifted divisor and setting the low bit keep the account. */
  ghost predicate Account(total: nat, divisor: nat, s: nat, d: U128, quot: U128, rem: U128) {
    && d.Value() == divisor * Pow2(s)
    && total == quot.Value() * d.Value() + rem.Value()
  }

  lemma ShiftFits(dividend: U128, divisor: U128, s: nat)
    requires divisor.Value() > 0 && dividend.Value() > 0 && Clz(divisor) == Clz(dividend) + s
    ensures divisor.Value() * Pow2(s) < TWO_128 && s < 128
    ensures dividend.Value() < 2 * (divisor.Value() * Pow2(s))
  {
    hide Pow2, Clz;
    var c := Clz(dividend);
    Pow128();
    PowDouble(127 - c);
    Pow2Add(128 - c - s, s);
    Pow2Add(127 - c - s, s);
    Scale(divisor.Value(), Pow2(127 - c - s), Pow2(128 - c - s), Pow2(s));
    PowMonotone(128 - c, 128);
  }

  lemma Scale(x: nat, lo: nat, hi: nat, p: nat)
    requires lo <= x < hi && p > 0
    ensures lo * p <= x * p < hi * p
  {
    MulNonNegative(x - lo, p);
    MulLower(hi - x, p);
    assert (x - lo) * p == x * p - lo * p;
    assert (hi - x) * p == hi * p - x * p;
  }

  method SubtractIfFits(ghost total: nat, ghost divisor: nat, ghost s: nat, d: U128, quot: U128, rem: U128)
    returns (quot': U128, rem': U128)
    requires Account(total, divisor, s, d, quot, rem) && quot.Value() % 2 == 0 && rem.Value() < 2 * d.Value()
    ensures Account(total, divisor, s, d, quot', rem') && rem'.Value() < d.Value()
  {
    hide U128.Value, Sub, Less, OrOne, Pow2;
    quot', rem' := quot, rem;
    if !Less(rem, d) {
      rem' := Sub(rem, d);
      quot' := OrOne(quot);
      assert (quot.Value() + 1) * d.Value() == quot.Value() * d.Value() + d.Value();
    }
  }

  lemma HalveNumbers(total: nat, divisor: nat, p: nat, d: nat, q: nat, r: nat)
    requires d == divisor * (2 * p) && total == q * d + r && r < d && total < TWO_128
    requires p > 0 && divisor > 0
    ensures d / 2 == divisor * p
    ensures 2 * q < TWO_128
    ensures total == (2 * q) * (divisor * p) + r && r < 2 * (divisor * p)
  {
    var d' := divisor * p;
    assert d == 2 * d';
    assert q * (2 * d') == (2 * q) * d';
    MulLower(divisor, p);
    MulNonNegative(2 * q, d' - 1);
    assert (2 * q) * d' == 2 * q + (2 * q) * (d' - 1);
  }

  lemma HalveAccount(total: nat, divisor: nat, s: nat, d: U128, quot: U128, rem: U128)
    requires Account(total, divisor, s, d, quot, rem) && s > 0 && divisor > 0 && total < TWO_128
    requires rem.Value() < d.Value()
    ensures Account(total, divisor, s - 1, ShiftRight(d, 1), ShiftLeft(quot, 1), rem)
    ensures ShiftLeft(quot, 1).Value() % 2 == 0 && rem.Value() < 2 * ShiftRight(d, 1).Value()
  {
    hide U128.Value, ShiftRight, ShiftLeft, Pow2;
    PowDouble(s - 1);
    ShiftsByOne(d, quot);
    HalveBoth(total, divisor, Pow2(s - 1), d.Value(), quot.Value(), rem.Value(),
              ShiftRight(d, 1).Value(), ShiftLeft(quot, 1).Value());
  }

  lemma HalveBoth(total: nat, divisor: nat, p: nat, d: nat, q: nat, r: nat, d': nat, q': nat)
    requires d == divisor * (2 * p) && total == q * d + r && r < d && total < TWO_128
    requires p > 0 && divisor > 0 && d' == d / 2 && q' == (q * 2) % TWO_128
    ensures d' == divisor * p && total == q' * d' + r
    ensures q' % 2 == 0 && r < 2 * d'
  {
    HalveNumbers(total, divisor, p, d, q, r);
    assert q' == 2 * q;
  }

  lemma ShiftsByOne(d: U128, quot: U128)
    ensures ShiftRight(d, 1).Value() == d.Value() / 2
    ensures ShiftLeft(quot, 1).Value() == (quot.Value() * 2) % TWO_128
  {
    hide U128.Value, ShiftRight, ShiftLeft, Pow2;
    PowDouble(0);
    PowZero();
    assert 1 % 128 == 1;
  }

  /** Exact division: for every non-zero divisor the quotient and remainder satisfy the
      division equation. */
  method SlowDiv(dividend: U128, divisor: U128) returns (rem: U128, quot: U128)
    requires divisor.Value() > 0
    ensures dividend.Value() == quot.Value() * divisor.Value() + rem.Value()
    ensures rem.Value() < divisor.Value()
  {
    hide Less, Clz, Pow2;
    rem, quot := dividend, U128(0, 0);
    if Less(dividend, divisor) {
      return;
    }
    if dividend.high == 0 {
      quot, rem := LowDiv(dividend, divisor);
      return;
    }
    var zend, zsor := Clz(dividend), Clz(divisor);
    if zend > zsor {
      FewerBits(dividend, divisor);
      return;
    }
    rem, quot := LongDiv(dividend, divisor, zsor - zend);
  }

  lemma FewerBits(a: U128, b: U128)
    requires a.Value() > 0 && b.Value() > 0 && Clz(a) > Clz(b)
    ensures a.Value() < b.Value()
  {
    hide Clz, Pow2;
    PowMonotone(128 - Clz(a), 127 - Clz(b));
  }

  method LowDiv(dividend: U128, divisor: U128) returns (quot: U128, rem: U128)
    requires dividend.high == 0 && divisor.high == 0 && divisor.low > 0
    ensures dividend.Value() == quot.Value() * divisor.Value() + rem.Value()
    ensures rem.Value() < divisor.Value()
  {
    QuotientBounds(dividend.low, divisor.low);
    DivModSplit(dividend.low, divisor.low);
    quot := U128(0, dividend.low / divisor.low);
    rem := U128(0, dividend.low % divisor.low);
  }

  method LongDiv(dividend: U128, divisor: U128, shift: nat) returns (rem: U128, quot: U128)
    requires divisor.Value() > 0 && dividend.Value() > 0 && Clz(divisor) == Clz(dividend) + shift
    ensures dividend.Value() == quot.Value() * divisor.Value() + rem.Value()
    ensures rem.Value() < divisor.Value()
  {
    hide ShiftRight, ShiftLeft, Pow2, Clz, Less, Sub, OrOne, Account;
    ghost var total := dividend.Value();
    rem, quot := dividend, U128(0, 0);
    ShiftFits(dividend, divisor, shift);
    var s, d := shift, ShiftLeft(divisor, shift);
    StartAccount(dividend, divisor, s, d);
    while true
      invariant s >= 0 && Account(total, divisor.Value(), s, d, quot, rem)
      invariant quot.Value() % 2 == 0 && rem.Value() < 2 * d.Value()
      decreases s
    {
      quot, rem := SubtractIfFits(total, divisor.Value(), s, d, quot, rem);
      if s == 0 {
        EndAccount(total, divisor, d, quot, rem);
        return;
      }
      HalveAccount(total, divisor.Value(), s, d, quot, rem);
      s := s - 1;
      d, quot := ShiftRight(d, 1), ShiftLeft(quot, 1);
    }
  }

  lemma StartAccount(dividend: U128, divisor: U128, s: nat, d: U128)
    requires s < 128 && divisor.Value() * Pow2(s) < TWO_128 && d == ShiftLeft(divisor, s)
    ensures Account(dividend.Value(), divisor.Value(), s, d, U128(0, 0), dividend)
    ensures d.Value() == divisor.Value() * Pow2(s)
  {
    hide ShiftLeft, Pow2;
    assert s % 128 == s;
    MulNonNegative(divisor.Value(), Pow2(s));
    DivModUnique(divisor.Value() * Pow2(s), TWO_128, 0, divisor.Value() * Pow2(s));
    assert 0 * d.Value() == 0;
  }

  lemma EndAccount(total: nat, divisor: U128, d: U128, quot: U128, rem: U128)
    requires Account(total, divisor.Value(), 0, d, quot, rem) && rem.Value() < d.Value()
    ensures total == quot.Value() * divisor.Value() + rem.Value() && rem.Value() < divisor.Value()
  {
  }

  datatype DivisionError = DivideByZero

  method Div(dividend: U128, divisor: U128) returns (r: Result<U128, DivisionError>)
    ensures r.Err? <==> divisor.Value() == 0
    ensures r.Ok? ==> r.value.Value() == dividend.Value() / divisor.Value()
  {
    if divisor.high == 0 && divisor.low == 0 {
      return Err(DivideByZero);
    }
    var rem, quot := SlowDiv(dividend, divisor);
    DivModUnique(dividend.Value(), divisor.Value(), quot.Value(), rem.Value());
    r := Ok(quot);
  }

  method Mod(dividend: U128, divisor: U128) returns (r: Result<U128, DivisionError>)
    ensures r.Err? <==> divisor.Value() == 0
    ensures r.Ok? ==> r.value.Value() == dividend.Value() % divisor.Value()
  {
    if divisor.high == 0 && divisor.low == 0 {
      return Err(DivideByZero);
    }
    var rem, quot := SlowDiv(dividend, divisor);
    DivModUnique(dividend.Value(), divisor.Value(), quot.Value(), rem.Value());
    r := Ok(rem);
  }

  /** The three digits of a value in a base; the highest keeps only 64 bits, so they spell
      the value exactly when its third digit fits a word. */
  method PartDiv(value: U128, base: uint64) returns (high: uint64, mid: uint64, low: uint64)
    requires base > 0
    ensures low == value.Value() % base && mid == (value.Value() / base) % base
    ensures high == Wrap((value.Value() / base) / base)
    ensures (high * base + mid) * base + low == value.Value() <==> (value.Value() / base) / base < TWO_64
  {
    hide U128.Value, Wrap;
    LowWord(U128(0, base));
    var rem, md := SlowDiv(value, U128(0, base));
    LowWord(rem);
    low := rem.low;
    var rem', hh := SlowDiv(md, U128(0, base));
    LowWord(rem');
    mid := rem'.low;
    high := hh.low;
    LowWord(hh);
    DivModUnique(value.Value(), base, md.Value(), low);
    DivModUnique(md.Value(), base, hh.Value(), mid);
    Spelled(value.Value(), base, hh.Value(), high, mid, low);
  }

  lemma LowWord(x: U128)
    ensures x.Value() < TWO_64 ==> x.Value() == x.low
    ensures x.high == 0 ==> x.Value() == x.low
    ensures x.low == Wrap(x.Value())
    ensures x.low == x.Value() <==> x.Value() < TWO_64
  {
  }

  lemma Spelled(value: nat, base: nat, top: nat, high: nat, mid: nat, low: nat)
    requires base > 0 && value == (top * base + mid) * base + low
    ensures (high * base + mid) * base + low == value <==> high == top
  {
    var d := top - high;
    assert (top * base + mid) * base - (high * base + mid) * base == (d * base) * base;
    assert (-d * base) * base == -((d * base) * base);
    if d > 0 {
      MulLower(d, base);
      MulLower(d * base, base);
    } else if d < 0 {
      MulLower(-d, base);
      MulLower(-d * base, base);
    }
  }

  /** Three digits spell every value exactly in the bases of 2^32 and more. */
  lemma DigitsSufficeIff(base: uint64)
    requires base > 0
    ensures (forall value: U128 :: (value.Value() / base) / base < TWO_64) <==> base >= TWO_32
  {
    if base >= TWO_32 {
      forall value: U128
        ensures (value.Value() / base) / base < TWO_64
      {
        LargeBase(value.Value(), base);
      }
    } else {
      SmallBase(base);
      assert (U128(base * base, 0).Value() / base) / base == TWO_64;
    }
  }

  lemma LargeBase(v: nat, base: nat)
    requires v < TWO_128 && base >= TWO_32
    ensures 0 <= (v / base) / base < TWO_64
  {
    ProductAtLeast(base);
    assert (TWO_64 * base) * base == TWO_64 * (base * base);
    QuotientBelow(v, base, TWO_64 * base);
    QuotientBelow(v / base, base, TWO_64);
  }

  lemma ProductAtLeast(base: nat)
    requires base >= TWO_32
    ensures base * base >= TWO_64
  {
    MulNonNegative(base - TWO_32, base);
    assert (base - TWO_32) * base == base * base - TWO_32 * base;
  }

  /** In a smaller base the value 2^64 * base^2 is read as zero. */
  lemma SmallBase(base: nat)
    requires 0 < base < TWO_32
    ensures 0 <= base * base < TWO_64
    ensures ((base * base) * TWO_64 / base) / base == TWO_64
  {
    MulNonNegative(base, base);
    MulNonNegative(TWO_32 - 1 - base, base);
    assert (TWO_32 - 1 - base) * base == (TWO_32 - 1) * base - base * base;
    assert (base * base) * TWO_64 == (base * TWO_64) * base;
    MultipleMod(base * TWO_64, base);
    MultipleMod(TWO_64, base);
    assert base * TWO_64 == TWO_64 * base;
  }

  /** In base 10^19 three digits always suffice. */
  lemma DecimalDigitsSuffice(value: U128)
    ensures (value.Value() / 10_000_000_000_000_000_000) / 10_000_000_000_000_000_000 < TWO_64
  {
  }
}
