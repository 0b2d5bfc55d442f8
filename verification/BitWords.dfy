/** 64-bit words as sets of bit positions. */
module BitWords {
  import opened DivMod
  import opened Bits

  /** Bit i of w. */
  predicate Bit(w: nat, i: nat) {
    if i == 0 then w % 2 == 1 else Bit(w / 2, i - 1)
  }

  lemma {:induction false} ZeroHasNoBits(i: nat)
    ensures !Bit(0, i)
  {
    if i == 0 {
    } else {
      ZeroHasNoBits(i - 1);
    }
  }

  /** A word below 2^n has no bit at or above n. */
  lemma {:induction false} NoHighBits(w: nat, n: nat, i: nat)
    requires w < Pow2(n) <= Pow2(i)
    requires n <= i
    ensures !Bit(w, i)
    decreases i
  {
    if n == 0 {
      ZeroHasNoBits(i);
    } else {
      NoHighBits(w / 2, n - 1, i - 1);
    }
  }

  // ---- Combining words ----

  lemma {:induction false} OrBit(a: nat, b: nat, i: nat)
    ensures Bit(Or(a, b), i) <==> Bit(a, i) || Bit(b, i)
    decreases i
  {
    if a == 0 || b == 0 {
      ZeroHasNoBits(i);
    } else if i > 0 {
      OrBit(a / 2, b / 2, i - 1);
    }
  }

  lemma {:induction false} AndBit(a: nat, b: nat, i: nat)
    ensures Bit(And(a, b), i) <==> Bit(a, i) && Bit(b, i)
    decreases i
  {
    if a == 0 || b == 0 {
      ZeroHasNoBits(i);
    } else if i > 0 {
      AndBit(a / 2, b / 2, i - 1);
    }
  }

  lemma {:induction false} XorBit(a: nat, b: nat, i: nat)
    ensures Bit(Xor(a, b), i) <==> (Bit(a, i) != Bit(b, i))
    decreases i
  {
    hide Xor;
    XorStep(a, b);
    if i == 0 {
    } else {
      XorBit(a / 2, b / 2, i - 1);
    }
  }

  /** The complement within n bits. */
  lemma {:induction false} NotBit(w: nat, n: nat, i: nat)
    requires w < Pow2(n) && i < n
    ensures Bit(Pow2(n) - 1 - w, i) <==> !Bit(w, i)
    decreases n
  {
    var c := Pow2(n) - 1 - w;
    assert c / 2 == Pow2(n - 1) - 1 - w / 2;
    if i == 0 {
    } else {
      NotBit(w / 2, n - 1, i - 1);
    }
  }

  lemma {:induction false} OrBound(a: nat, b: nat, n: nat)
    requires a < Pow2(n) && b < Pow2(n)
    ensures Or(a, b) < Pow2(n)
    decreases n
  {
    if n == 0 || a == 0 || b == 0 {
    } else {
      OrBound(a / 2, b / 2, n - 1);
    }
  }

  lemma {:induction false} AndBound(a: nat, b: nat)
    ensures And(a, b) <= a
    decreases a
  {
    if a == 0 || b == 0 {
    } else {
      AndBound(a / 2, b / 2);
    }
  }

  function OrWord(a: uint64, b: uint64): uint64 {
    Pow64();
    OrBound(a, b, 64);
    Or(a, b)
  }

  function AndWord(a: uint64, b: uint64): uint64 {
    AndBound(a, b);
    And(a, b)
  }

  function XorWord(a: uint64, b: uint64): uint64 {
    Pow64();
    XorBound(a, b, 64);
    Xor(a, b)
  }

  function NotWord(a: uint64): uint64 {
    TWO_64 - 1 - a
  }

  lemma NotWordBit(a: uint64, i: nat)
    requires i < 64
    ensures Bit(NotWord(a), i) <==> !Bit(a, i)
  {
    hide Pow2;
    Pow64();
    NotBit(a, 64, i);
  }

  // ---- Shifts ----

  lemma {:induction false} DivBit(w: nat, k: nat, i: nat)
    ensures w / Pow2(k) >= 0
    ensures Bit(w / Pow2(k), i) <==> Bit(w, i + k)
    decreases k
  {
    if k == 0 {
    } else {
      DivBit(w / 2, k - 1, i);
      DivTwice(w, Pow2(k - 1));
    }
  }

  lemma {:induction false} MulBit(w: nat, k: nat, i: nat)
    ensures w * Pow2(k) >= 0
    ensures Bit(w * Pow2(k), i) <==> i >= k && Bit(w, i - k)
    decreases k
  {
    MulNonNegative(w, Pow2(k));
    if k == 0 {
    } else {
      var x := w * Pow2(k - 1);
      assert w * Pow2(k) == 2 * x;
      if i > 0 {
        MulBit(w, k - 1, i - 1);
      }
    }
  }

  /** Dropping the bits at and above n. */
  lemma {:induction false} ModBit(w: nat, n: nat, i: nat)
    ensures Bit(w % Pow2(n), i) <==> i < n && Bit(w, i)
    decreases n
  {
    if n == 0 {
      ZeroHasNoBits(i);
    } else {
      ModTwice(w, Pow2(n - 1));
      var x := w % Pow2(n);
      assert x / 2 == (w / 2) % Pow2(n - 1) && x % 2 == w % 2;
      if i > 0 {
        ModBit(w / 2, n - 1, i - 1);
      }
    }
  }

  function ShlWord(w: uint64, k: nat): uint64 {
    (w * Pow2(k)) % TWO_64
  }

  function ShrWord(w: uint64, k: nat): uint64 {
    QuotientBounds(w, Pow2(k));
    w / Pow2(k)
  }

  lemma ShlBit(w: uint64, k: nat, i: nat)
    requires i < 64
    ensures Bit(ShlWord(w, k), i) <==> i >= k && Bit(w, i - k)
  {
    hide Pow2;
    Pow64();
    MulBit(w, k, i);
    ModBit(w * Pow2(k), 64, i);
  }

  lemma ShrBit(w: uint64, k: nat, i: nat)
    ensures Bit(ShrWord(w, k), i) <==> i + k < 64 && Bit(w, i + k)
  {
    hide Pow2;
    DivBit(w, k, i);
    if i + k >= 64 {
      Pow64();
      PowMonotone(64, i + k);
      NoHighBits(w, 64, i + k);
    }
  }

  // ---- Counting and finding bits ----

  function Popcount(w: nat): nat {
    if w == 0 then 0 else w % 2 + Popcount(w / 2)
  }

  /** The lowest bit set. */
  function Ctz(w: nat): (r: nat)
    requires w > 0
    ensures Bit(w, r) && forall i :: 0 <= i < r ==> !Bit(w, i)
  {
    if w % 2 == 1 then 0
    else
      var r := Ctz(w / 2);
      assert forall i :: 0 < i < r + 1 ==> (Bit(w, i) <==> Bit(w / 2, i - 1));
      r + 1
  }

  lemma CtzBelow64(w: uint64)
    requires w > 0
    ensures Ctz(w) < 64
  {
    hide Pow2;
    if Ctz(w) >= 64 {
      Pow64();
      PowMonotone(64, Ctz(w));
      NoHighBits(w, 64, Ctz(w));
      assert false;
    }
  }

  /** The bits set below n, moved up by base. */
  ghost function Ones(w: nat, base: nat, n: nat): set<nat> {
    set i | 0 <= i < n && Bit(w, i) :: base + i
  }

  lemma {:induction false} OnesCount(w: nat, base: nat, n: nat)
    requires w < Pow2(n)
    ensures |Ones(w, base, n)| == Popcount(w)
    decreases n
  {
    if n == 0 {
      assert Ones(w, base, n) == {};
    } else {
      OnesCount(w / 2, base + 1, n - 1);
      var rest := Ones(w / 2, base + 1, n - 1);
      forall x
        ensures x in Ones(w, base, n) <==> x in rest || (w % 2 == 1 && x == base)
      {
        if x in rest {
          var i :| 0 <= i < n - 1 && Bit(w / 2, i) && x == base + 1 + i;
          assert Bit(w, i + 1) && x == base + (i + 1);
        }
        if x in Ones(w, base, n) {
          var i :| 0 <= i < n && Bit(w, i) && x == base + i;
          if i > 0 {
            assert Bit(w / 2, i - 1) && x == base + 1 + (i - 1);
          }
        }
        if w % 2 == 1 && x == base {
          assert Bit(w, 0) && x == base + 0;
        }
      }
      if w % 2 == 1 {
        assert Ones(w, base, n) == rest + {base};
        assert base !in rest;
      } else {
        assert Ones(w, base, n) == rest;
      }
      assert Popcount(w) == w % 2 + Popcount(w / 2);
    }
  }
}
