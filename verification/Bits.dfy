/** Bitwise operations on unbounded naturals. */
module Bits {
  import opened DivMod

  const TWO_32: nat := 0x1_0000_0000
  const TWO_64: nat := 0x1_0000_0000_0000_0000

  type byte = x: nat | x < 256
  type uint64 = x: nat | x < TWO_64

  function Xor(a: nat, b: nat): nat
    decreases a + b
  {
    if a == 0 then b
    else if b == 0 then a
    else 2 * Xor(a / 2, b / 2) + (a + b) % 2
  }

  function And(a: nat, b: nat): nat {
    if a == 0 || b == 0 then 0
    else 2 * And(a / 2, b / 2) + (if a % 2 == 1 && b % 2 == 1 then 1 else 0)
  }

  function Pow2(n: nat): (r: nat)
    ensures r >= 1
  {
    if n == 0 then 1 else 2 * Pow2(n - 1)
  }

  lemma XorUnfold(a: nat, b: nat)
    requires a != 0 && b != 0
    ensures Xor(a, b) == 2 * Xor(a / 2, b / 2) + (a + b) % 2
  {
  }

  lemma XorStep(a: nat, b: nat)
    ensures Xor(a, b) == 2 * Xor(a / 2, b / 2) + (a + b) % 2
    ensures Xor(a, b) / 2 == Xor(a / 2, b / 2)
    ensures Xor(a, b) % 2 == (a + b) % 2
  {
    hide Xor;
    XorZero(a);
    XorZero(b);
    XorZero(a / 2);
    XorZero(b / 2);
    if a != 0 && b != 0 {
      XorUnfold(a, b);
    }
  }

  lemma {:induction false} XorComm(a: nat, b: nat)
    ensures Xor(a, b) == Xor(b, a)
    decreases a + b
  {
    if a == 0 || b == 0 {
    } else {
      XorComm(a / 2, b / 2);
    }
  }

  lemma {:induction false} XorAssoc(a: nat, b: nat, c: nat)
    ensures Xor(Xor(a, b), c) == Xor(a, Xor(b, c))
    decreases a + b + c
  {
    hide Xor;
    XorZero(a);
    XorZero(b);
    XorZero(c);
    if a == 0 || b == 0 || c == 0 {
      XorZero(Xor(b, c));
      XorZero(Xor(a, b));
    } else {
      XorStep(a, b);
      XorStep(b, c);
      XorStep(Xor(a, b), c);
      XorStep(a, Xor(b, c));
      XorAssoc(a / 2, b / 2, c / 2);
      Parity(Xor(a, b), a + b, c);
      Parity(Xor(b, c), b + c, a);
    }
  }

  lemma XorZero(a: nat)
    ensures Xor(a, 0) == a == Xor(0, a)
  {
  }

  lemma Parity(x: nat, y: nat, c: nat)
    requires x % 2 == y % 2
    ensures (x + c) % 2 == (y + c) % 2 == (c + x) % 2
  {
  }

  lemma {:induction false} XorSelf(a: nat)
    ensures Xor(a, a) == 0
  {
    if a == 0 {
    } else {
      XorSelf(a / 2);
    }
  }

  lemma XorCancel(a: nat, b: nat)
    ensures Xor(Xor(a, b), b) == a
    ensures Xor(a, 0) == a == Xor(0, a)
  {
    XorAssoc(a, b, b);
    XorSelf(b);
  }

  /** Two values whose exclusive or vanishes are equal. */
  lemma XorZeroMeansEqual(a: nat, b: nat)
    ensures Xor(a, b) == 0 <==> a == b
  {
    XorCancel(a, b);
    XorSelf(a);
  }

  /** Adding terms in either order gives the same. */
  lemma XorSwap(c: nat, a: nat, b: nat)
    ensures Xor(Xor(c, a), b) == Xor(Xor(c, b), a)
  {
    XorAssoc(c, a, b);
    XorAssoc(c, b, a);
    XorComm(a, b);
  }

  /** Bits at and above position n are not touched by a value below 2^n. */
  lemma {:induction false} XorKeepsHighBits(a: nat, x: nat, n: nat)
    requires x < Pow2(n)
    ensures Xor(a, x) / Pow2(n) == a / Pow2(n)
    decreases n
  {
    if n == 0 {
      XorCancel(a, 0);
    } else {
      XorStep(a, x);
      XorKeepsHighBits(a / 2, x / 2, n - 1);
      DivTwice(a, Pow2(n - 1));
      DivTwice(Xor(a, x), Pow2(n - 1));
    }
  }

  lemma DivTwice(a: nat, m: nat)
    requires m > 0
    ensures a / (2 * m) == (a / 2) / m
  {
    var q, r := (a / 2) / m, (a / 2) % m;
    DivModSplit(a / 2, m);
    assert a == q * (2 * m) + (2 * r + a % 2) by {
      assert q * (2 * m) == 2 * (q * m);
    }
    DivModUnique(a, 2 * m, q, 2 * r + a % 2);
  }

  lemma {:induction false} XorBound(a: nat, b: nat, n: nat)
    requires a < Pow2(n) && b < Pow2(n)
    ensures Xor(a, b) < Pow2(n)
    decreases n
  {
    if n == 0 {
    } else {
      XorStep(a, b);
      XorBound(a / 2, b / 2, n - 1);
    }
  }

  lemma {:induction false} Pow2Add(a: nat, b: nat)
    ensures Pow2(a + b) == Pow2(a) * Pow2(b)
  {
    if a == 0 {
    } else {
      Pow2Add(a - 1, b);
      assert 2 * (Pow2(a - 1) * Pow2(b)) == (2 * Pow2(a - 1)) * Pow2(b);
    }
  }

  function Or(a: nat, b: nat): nat
    decreases a + b
  {
    if a == 0 then b
    else if b == 0 then a
    else 2 * Or(a / 2, b / 2) + (if a % 2 == 1 || b % 2 == 1 then 1 else 0)
  }

  /** Values with no bit in common: the disjunction is the sum. */
  lemma {:induction false} OrDisjoint(a: nat, b: nat, n: nat)
    requires a < Pow2(n)
    ensures Or(a, b * Pow2(n)) == a + b * Pow2(n)
    decreases n
  {
    hide Or, Pow2;
    MulNonNegative(b, Pow2(n));
    if n == 0 {
      PowZero();
      OrZero(b * Pow2(n));
    } else {
      var c := b * Pow2(n - 1);
      MulNonNegative(b, Pow2(n - 1));
      PowDouble(n - 1);
      OrDisjoint(a / 2, b, n - 1);
      OrDouble(a, c);
      assert b * (2 * Pow2(n - 1)) == 2 * c;
    }
  }

  lemma OrZero(c: nat)
    ensures Or(0, c) == c
  {
  }

  lemma OrDouble(a: nat, c: nat)
    requires Or(a / 2, c) == a / 2 + c
    ensures Or(a, 2 * c) == a + 2 * c
  {
  }

  lemma {:induction false} OrComm(a: nat, b: nat)
    ensures Or(a, b) == Or(b, a)
    decreases a + b
  {
    if a == 0 || b == 0 {
    } else {
      OrComm(a / 2, b / 2);
    }
  }

  // ---- Powers of two ----

  lemma PowZero()
    ensures Pow2(0) == 1
  {
  }

  lemma PowDouble(n: nat)
    ensures Pow2(n + 1) == 2 * Pow2(n)
  {
  }

  lemma Pow8()
    ensures Pow2(8) == 256
  {
  }

  lemma Pow64()
    ensures Pow2(16) == 0x1_0000 && Pow2(32) == TWO_32 && Pow2(64) == TWO_64
  {
    hide Pow2;
    Pow8();
    Pow2Add(8, 8);
    Pow2Add(16, 16);
    Pow2Add(32, 32);
  }

  lemma {:induction false} PowMonotone(a: nat, b: nat)
    requires a <= b
    ensures Pow2(a) <= Pow2(b)
    decreases b
  {
    if a == b {
    } else {
      PowMonotone(a, b - 1);
    }
  }

  // ---- Masks ----

  lemma {:induction false} AndAll(a: nat, n: nat)
    requires a < Pow2(n)
    ensures And(a, Pow2(n) - 1) == a
    decreases n
  {
    if n == 0 || a == 0 {
    } else {
      assert (Pow2(n) - 1) / 2 == Pow2(n - 1) - 1;
      AndAll(a / 2, n - 1);
    }
  }

  lemma ModTwice(w: nat, m: nat)
    requires m > 0
    ensures w % (2 * m) == 2 * ((w / 2) % m) + w % 2
    ensures 0 <= w % (2 * m) < 2 * m
  {
    var q, r := (w / 2) / m, (w / 2) % m;
    DivModSplit(w / 2, m);
    assert w == q * (2 * m) + (2 * r + w % 2) by {
      assert q * (2 * m) == 2 * (q * m);
    }
    DivModUnique(w, 2 * m, q, 2 * r + w % 2);
  }

  /** The lowest n bits. */
  function Low(v: nat, n: nat): (r: nat)
    ensures r <= v
    decreases n
  {
    if n == 0 then 0 else 2 * Low(v / 2, n - 1) + v % 2
  }

  lemma {:induction false} LowIsMod(v: nat, n: nat)
    ensures Low(v, n) == v % Pow2(n)
    decreases n
  {
    hide Pow2;
    if n == 0 {
      PowZero();
    } else {
      LowIsMod(v / 2, n - 1);
      PowDouble(n - 1);
      ModTwice(v, Pow2(n - 1));
    }
  }

  lemma {:induction false} LowXor(a: nat, b: nat, n: nat)
    ensures Low(Xor(a, b), n) == Xor(Low(a, n), Low(b, n))
    decreases n
  {
    hide Xor, Low;
    if n == 0 {
      XorZero(0);
      NoLowBits(a);
      NoLowBits(b);
      NoLowBits(Xor(a, b));
    } else {
      LowXor(a / 2, b / 2, n - 1);
      XorHalves(a, b);
      XorHalves(Low(a, n), Low(b, n));
      LowHalves(a, n);
      LowHalves(b, n);
      LowHalves(Xor(a, b), n);
      SameHalves(Low(Xor(a, b), n), Xor(Low(a, n), Low(b, n)), a, b, Low(a, n), Low(b, n));
    }
  }

  lemma NoLowBits(v: nat)
    ensures Low(v, 0) == 0
  {
  }

  lemma LowHalves(v: nat, n: nat)
    requires n > 0
    ensures Low(v, n) / 2 == Low(v / 2, n - 1) && Low(v, n) % 2 == v % 2
  {
  }

  lemma XorHalves(a: nat, b: nat)
    ensures Xor(a, b) / 2 == Xor(a / 2, b / 2) && Xor(a, b) % 2 == (a + b) % 2
  {
    hide Xor;
    XorStep(a, b);
  }

  lemma SameHalves(x: nat, y: nat, a: nat, b: nat, la: nat, lb: nat)
    requires x / 2 == y / 2 && x % 2 == (a + b) % 2 && y % 2 == (la + lb) % 2
    requires la % 2 == a % 2 && lb % 2 == b % 2
    ensures x == y
  {
  }

  /** The low bits of an exclusive or are those of its operands combined. */
  lemma XorMod(a: nat, b: nat, n: nat)
    ensures Xor(a, b) % Pow2(n) == Xor(a % Pow2(n), b % Pow2(n))
  {
    hide Xor, Pow2, Low;
    LowXor(a, b, n);
    LowIsMod(a, n);
    LowIsMod(b, n);
    LowIsMod(Xor(a, b), n);
  }

  lemma {:induction false} AndMaskLow(v: nat, n: nat, w: nat)
    requires v < Pow2(w) && n <= w
    ensures Pow2(w) >= Pow2(n)
    ensures And(v, Pow2(w) - Pow2(n)) == v - Low(v, n)
    decreases n
  {
    hide Pow2, And;
    PowMonotone(n, w);
    if n == 0 {
      PowZero();
      AndAll(v, w);
    } else {
      PowDouble(n - 1);
      PowDouble(w - 1);
      AndMaskLow(v / 2, n - 1, w - 1);
      AndUnfold(v, Pow2(w) - Pow2(n));
    }
  }

  /** Masking off the lowest n bits rounds down to a multiple of 2^n. */
  lemma AndMask(v: nat, n: nat, w: nat)
    requires v < Pow2(w) && n <= w
    ensures Pow2(w) >= Pow2(n)
    ensures And(v, Pow2(w) - Pow2(n)) == v - v % Pow2(n)
  {
    hide Pow2, And, Low;
    AndMaskLow(v, n, w);
    LowIsMod(v, n);
  }

  /** Keeping the lowest n bits takes the remainder. */
  lemma LowMask(a: nat, n: nat)
    ensures And(a, Pow2(n) - 1) == a % Pow2(n)
  {
    hide Pow2, And, Low;
    AndLow(a, n);
    LowIsMod(a, n);
  }

  lemma {:induction false} AndLow(a: nat, n: nat)
    ensures And(a, Pow2(n) - 1) == Low(a, n)
    decreases n
  {
    hide Pow2, And;
    if n == 0 {
      PowZero();
      AndNothing(a);
    } else {
      PowDouble(n - 1);
      AndLow(a / 2, n - 1);
      AndUnfold(a, Pow2(n) - 1);
    }
  }

  lemma AndNothing(a: nat)
    ensures And(a, 0) == 0
  {
  }

  lemma AndUnfold(a: nat, b: nat)
    ensures And(a, b) == 2 * And(a / 2, b / 2) + (if a % 2 == 1 && b % 2 == 1 then 1 else 0)
  {
  }
}
