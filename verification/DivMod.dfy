/** Facts about Euclidean division by a variable divisor that the schedule, the
    block rotation and the wide arithmetic share. */
module DivMod {

  lemma DivModUnique(x: int, m: int, q: int, r: int)
    requires m > 0
    requires 0 <= r < m
    requires x == q * m + r
    ensures x / m == q
    ensures x % m == r
  {
    var q', r' := x / m, x % m;
    assert x == q' * m + r' by { assert x == m * q' + r'; }
    assert (q - q') * m == r' - r;
    assert (q' - q) * m == r - r';
    if q > q' {
      MulLower(q - q', m);
    } else if q < q' {
      MulLower(q' - q, m);
    }
  }

  lemma MulLower(a: int, m: int)
    requires a >= 1 && m > 0
    ensures a * m >= m
  {
    assert a * m == (a - 1) * m + m;
    MulNonNegative(a - 1, m);
  }

  lemma MulNonNegative(a: int, m: int)
    requires a >= 0 && m >= 0
    ensures a * m >= 0
  {
  }

  lemma DivModSplit(x: int, m: int)
    requires m > 0
    ensures x == (x / m) * m + x % m
    ensures 0 <= x % m < m
  {
  }

  /** Divisibility is transitive through a factor of the divisor. */
  lemma ModOfFactor(x: int, a: int, b: int)
    requires a > 0 && b > 0
    ensures a * b > 0
    ensures x % (a * b) == 0 ==> x % a == 0
  {
    MulLower(b, a);
    assert a * b == b * a;
    if x % (a * b) == 0 {
      var q := x / (a * b);
      assert x == q * (a * b) + 0 by { DivModSplit(x, a * b); }
      assert x == (q * b) * a by { assert q * (a * b) == (q * b) * a; }
      DivModUnique(x, a, q * b, 0);
    }
  }

  lemma MultipleMod(q: int, m: int)
    requires m > 0
    ensures (q * m) % m == 0
    ensures (q * m) / m == q
  {
    DivModUnique(q * m, m, q, 0);
  }

  lemma QuotientBounds(x: nat, m: nat)
    requires m > 0
    ensures 0 <= x / m <= x
  {
    DivModSplit(x, m);
    var d := x / m;
    assert (-d - 1) * m == -(d * m) - m;
    if d < 0 {
      MulNonNegative(-d - 1, m);
      assert false;
    }
    assert d * m == d + d * (m - 1);
    MulNonNegative(d, m - 1);
  }

  lemma QuotientBelow(x: nat, p: nat, f: nat)
    requires p > 0 && x < f * p
    ensures 0 <= x / p < f
    ensures 0 <= (x / p) * p <= x
    ensures x == (x / p) * p + x % p
  {
    DivModSplit(x, p);
    var q := x / p;
    assert (q - f) * p == q * p - f * p;
    assert (-q - 1) * p == -(q * p) - p;
    if q >= f {
      MulNonNegative(q - f, p);
      assert false;
    }
    if q < 0 {
      MulNonNegative(-q - 1, p);
      assert false;
    }
    MulNonNegative(q, p);
  }

  lemma NextInCycle(n: nat, m: nat)
    requires m > 0
    ensures 0 <= n % m < m && (n + 1) % m == if n % m == m - 1 then 0 else n % m + 1
  {
    DivModSplit(n, m);
    var q, r := n / m, n % m;
    if r == m - 1 {
      assert (q + 1) * m == q * m + m;
      DivModUnique(n + 1, m, q + 1, 0);
    } else {
      DivModUnique(n + 1, m, q, r + 1);
    }
  }
}
