/** Exchanging two neighbouring blocks of an argument array in place, by following the
    cycles of the rotation. */
module PermuteArgs {
  import opened DivMod

  predicate Divides(d: int, x: int)
    requires d > 0
  {
    x % d == 0
  }

  lemma ModShift(x: int, q: int, m: int)
    requires m > 0
    ensures (x + q * m) % m == x % m
  {
    DivModSplit(x, m);
    assert x + q * m == (x / m + q) * m + x % m by {
      assert (x / m + q) * m == (x / m) * m + q * m;
    }
    DivModUnique(x + q * m, m, x / m + q, x % m);
  }

  // ---- The greatest common divisor ----

  lemma RemainderDivisors(a: nat, b: nat, d: nat)
    requires b > 0 && d > 0
    ensures Divides(d, a) && Divides(d, b) <==> Divides(d, b) && Divides(d, a % b)
  {
    if Divides(d, b) {
      DivModSplit(b, d);
      DivModSplit(a, b);
      var q := a / b;
      assert q * b == (q * (b / d)) * d;
      ModShift(a % b, q * (b / d), d);
    }
  }

  /** The greatest common divisor, as a combination of the two numbers. */
  method Gcd(a0: nat, b0: nat) returns (g: nat, ghost u: int, ghost v: int)
    requires b0 > 0
    ensures 0 < g <= b0
    ensures Divides(g, a0) && Divides(g, b0)
    ensures g == u * a0 + v * b0
    ensures forall d: nat :: d > 0 && Divides(d, a0) && Divides(d, b0) ==> Divides(d, g)
  {
    var a, b := a0, b0;
    var c := a % b;
    ghost var ua, va := 1, 0;
    u, v := 0, 1;
    while c != 0
      invariant 0 < b <= b0 && 0 <= a && c == a % b
      invariant a == ua * a0 + va * b0 && b == u * a0 + v * b0
      invariant forall d: nat :: d > 0 ==> (Divides(d, a) && Divides(d, b) <==> Divides(d, a0) && Divides(d, b0))
      decreases b
    {
      ghost var q := a / b;
      forall d: nat | d > 0
        ensures Divides(d, b) && Divides(d, c) <==> Divides(d, a0) && Divides(d, b0)
      {
        RemainderDivisors(a, b, d);
      }
      Combine(a, b, q, c, ua, va, u, v, a0, b0);
      ua, va, u, v := u, v, ua - q * u, va - q * v;
      a := b;
      b := c;
      c := a % b;
    }
    g := b;
    assert Divides(g, a) && Divides(g, b) by { MultipleMod(1, b); }
  }

  lemma Combine(a: int, b: int, q: int, c: int, ua: int, va: int, u: int, v: int, a0: int, b0: int)
    requires b > 0 && q == a / b && c == a % b
    requires a == ua * a0 + va * b0 && b == u * a0 + v * b0
    ensures c == (ua - q * u) * a0 + (va - q * v) * b0
  {
    DivModSplit(a, b);
    assert q * b == q * (u * a0) + q * (v * b0);
    assert (ua - q * u) * a0 == ua * a0 - q * (u * a0);
    assert (va - q * v) * b0 == va * b0 - q * (v * b0);
  }

  // ---- Cycles ----

  /** Blocks of lengths g*a and g*b, where w is an inverse of b modulo a + b. */
  datatype Blocks = Blocks(g: nat, a: nat, b: nat, w: int, m: int) {
    ghost predicate Valid() {
      g > 0 && b > 0 && w * b == 1 + m * (a + b)
    }

    function First(): nat {
      g * a
    }

    function Second(): nat {
      g * b
    }

    function Length(): nat {
      a + b
    }

    ghost predicate Inside(x: int) {
      0 <= x < First() + Second()
    }

    /** The number of steps from the start of its cycle to a position. */
    ghost function Steps(x: int): int
      requires Valid()
    {
      ((x / g - a) * w) % Length()
    }
  }

  function Move(t: Blocks, x: int): int {
    if x >= t.First() then x - t.First() else x + t.Second()
  }

  /** Where the argument that ends up at a position came from. */
  function Source(t: Blocks, x: int): (r: int)
    ensures t.Inside(x) ==> t.Inside(r)
  {
    if x >= t.Second() then x - t.Second() else x + t.First()
  }

  lemma InsideUnits(t: Blocks, x: int)
    requires t.Valid() && t.Inside(x)
    ensures 0 <= x / t.g < t.Length() && 0 <= x % t.g < t.g
    ensures x == (x / t.g) * t.g + x % t.g
  {
    DivModSplit(x, t.g);
    var q := x / t.g;
    assert (t.Length() - q) * t.g == t.First() + t.Second() - q * t.g;
    assert (q - t.Length()) * t.g == q * t.g - t.First() - t.Second();
    if q >= t.Length() {
      MulNonNegative(q - t.Length(), t.g);
      assert false;
    }
  }

  lemma MoveUnits(t: Blocks, x: int)
    requires t.Valid() && t.Inside(x)
    ensures t.Inside(Move(t, x)) && Source(t, Move(t, x)) == x
    ensures Move(t, x) % t.g == x % t.g
    ensures Move(t, x) / t.g == x / t.g + (if x >= t.First() then 0 - t.a else t.b)
  {
    InsideUnits(t, x);
    MulNonNegative(t.g, t.a);
    MulLower(t.b, t.g);
    var q, r := x / t.g, x % t.g;
    var q' := if x >= t.First() then q - t.a else q + t.b;
    assert (q - t.a) * t.g == q * t.g - t.First();
    assert (q + t.b) * t.g == q * t.g + t.Second();
    DivModUnique(Move(t, x), t.g, q', r);
  }

  /** Going back one block or forward by the other is one step. */
  lemma OneStep(k: int, a: nat, b: nat, w: int, m: int)
    requires b > 0 && w * b == 1 + m * (a + b)
    ensures ((k - a) * w) % (a + b) == ((k * w) % (a + b) + 1) % (a + b)
    ensures ((k + b) * w) % (a + b) == ((k * w) % (a + b) + 1) % (a + b)
  {
    var L := a + b;
    StepShift(k * w, m, L);
    assert (k + b) * w == k * w + (1 + m * L) by {
      assert (k + b) * w == k * w + w * b;
    }
    assert (k - a) * w == (k + b) * w + (-w) * L by {
      assert (k + b) * w - (k - a) * w == w * L;
      assert (-w) * L == -(w * L);
    }
    ModShift((k + b) * w, -w, L);
  }

  /** Moving stays on the cycle and takes one step. */
  lemma MoveSteps(t: Blocks, x: int)
    requires t.Valid() && t.Inside(x)
    ensures t.Inside(Move(t, x)) && Source(t, Move(t, x)) == x
    ensures Move(t, x) % t.g == x % t.g
    ensures t.Steps(Move(t, x)) == (t.Steps(x) + 1) % t.Length()
  {
    hide Move, Source;
    MoveUnits(t, x);
    OneStep(x / t.g - t.a, t.a, t.b, t.w, t.m);
  }

  lemma StepShift(z: int, m: int, L: int)
    requires L > 0
    ensures (z + 1 + m * L) % L == (z % L + 1) % L
  {
    ModShift(z + 1, m, L);
    DivModSplit(z, L);
    ModShift(z % L + 1, z / L, L);
  }

  lemma StartOfCycle(t: Blocks, i: int)
    requires t.Valid() && 0 <= i < t.g
    ensures t.Inside(t.First() + i)
    ensures (t.First() + i) % t.g == i && t.Steps(t.First() + i) == 0
  {
    MulLower(t.b, t.g);
    MulNonNegative(t.g, t.a);
    assert t.First() + i == t.a * t.g + i;
    DivModUnique(t.First() + i, t.g, t.a, i);
    DivModUnique(0, t.Length(), 0, 0);
    assert 0 * t.w == 0;
  }

  /** Equal remainders of multiples are a whole number of lengths apart. */
  lemma SameRemainder(k: int, l: int, w: int, L: int) returns (q: int)
    requires L > 0 && (k * w) % L == (l * w) % L
    ensures (k - l) * w == q * L
  {
    var x, y := k * w, l * w;
    DivModSplit(x, L);
    DivModSplit(y, L);
    q := x / L - y / L;
    assert q * L == (x / L) * L - (y / L) * L;
    assert (k - l) * w == x - y;
  }

  /** Multiplying by a number that has an inverse loses nothing below the length. */
  lemma SmallMultiple(d: int, w: int, b: int, m: int, L: int, q: int)
    requires L > 0 && w * b == 1 + m * L && d * w == q * L && 0 - L < d < L
    ensures d == 0
  {
    var p := q * b - d * m;
    assert d == p * L by {
      InverseMultiple(d, w, b, m, L, q);
    }
    if p > 0 {
      MulLower(p, L);
    } else if p < 0 {
      assert (-p) * L == -(p * L);
      MulLower(-p, L);
    }
  }

  lemma InverseMultiple(d: int, w: int, b: int, m: int, L: int, q: int)
    requires w * b == 1 + m * L && d * w == q * L
    ensures d == (q * b - d * m) * L
  {
    assert d * (w * b) == (d * w) * b;
    assert (q * L) * b == (q * b) * L;
    assert d * (1 + m * L) == d + (d * m) * L;
    assert (q * b - d * m) * L == (q * b) * L - (d * m) * L;
  }

  /** A cycle visits each of its positions once. */
  lemma StepsInjective(t: Blocks, x: int, y: int)
    requires t.Valid() && t.Inside(x) && t.Inside(y)
    requires x % t.g == y % t.g && t.Steps(x) == t.Steps(y)
    ensures x == y
  {
    hide Blocks.Inside;
    InsideUnits(t, x);
    InsideUnits(t, y);
    var k, l := x / t.g - t.a, y / t.g - t.a;
    var q := SameRemainder(k, l, t.w, t.a + t.b);
    SmallMultiple(k - l, t.w, t.b, t.m, t.a + t.b, q);
  }

  // ---- The rotation ----

  /** The first i cycles have been rotated. */
  ghost predicate Rotated<T>(cur: seq<T>, was: seq<T>, t: Blocks, i: int) {
    && t.Valid() && |cur| == |was| == t.First() + t.Second()
    && forall y :: 0 <= y < |was| ==> cur[y] == if y % t.g < i then was[Source(t, y)] else was[y]
  }

  /** On cycle i, the j positions up to p have been given their arguments, and the start
      of the cycle holds the one displaced last. */
  ghost predicate Rotating<T>(cur: seq<T>, was: seq<T>, t: Blocks, i: int, j: int, p: int) {
    && t.Valid() && |cur| == |was| == t.First() + t.Second()
    && 0 <= i < t.g && 0 <= j <= t.Length()
    && 0 <= p < |was| && p % t.g == i && t.Steps(p) == j % t.Length()
    && forall y :: 0 <= y < |was| ==>
         cur[y] == (if y % t.g < i || (y % t.g == i && 1 <= t.Steps(y) <= j) then was[Source(t, y)]
                    else if y == t.First() + i then (if j < t.Length() then was[p] else was[Source(t, y)])
                    else was[y])
  }

  lemma RotatingStarts<T>(cur: seq<T>, was: seq<T>, t: Blocks, i: int)
    requires Rotated(cur, was, t, i) && 0 <= i < t.g
    ensures Rotating(cur, was, t, i, 0, t.First() + i)
  {
    hide Move, Source, Blocks.Steps;
    StartOfCycle(t, i);
    DivModUnique(0, t.Length(), 0, 0);
  }

  lemma RotatingEnds<T>(cur: seq<T>, was: seq<T>, t: Blocks, i: int, p: int)
    requires Rotating(cur, was, t, i, t.Length(), p)
    ensures Rotated(cur, was, t, i + 1)
  {
    hide Move, Source, Blocks.Steps, Blocks.First, Blocks.Second, Blocks.Length;
    StartOfCycle(t, i);
    forall y | 0 <= y < |was|
      ensures cur[y] == if y % t.g < i + 1 then was[Source(t, y)] else was[y]
    {
      StepsRange(t, y);
      if y % t.g == i && t.Steps(y) == 0 {
        StepsInjective(t, y, t.First() + i);
      }
    }
  }

  lemma StepsRange(t: Blocks, y: int)
    requires t.Valid()
    ensures 0 <= t.Steps(y) < t.Length()
  {
  }

  lemma StepCount(j: int, L: int)
    requires 0 <= j < L
    ensures j % L == j && (j + 1) % L == if j + 1 == L then 0 else j + 1
  {
    DivModUnique(j, L, 0, j);
    NextInCycle(j, L);
  }

  lemma RotatingStep<T>(cur: seq<T>, was: seq<T>, t: Blocks, i: int, j: int, p: int)
    requires Rotating(cur, was, t, i, j, p) && j < t.Length()
    ensures t.Inside(Move(t, p)) && t.Inside(t.First() + i)
    ensures var p', c := Move(t, p), t.First() + i;
            Rotating(cur[p' := cur[c]][c := cur[p']], was, t, i, j + 1, p')
  {
    hide Move, Source, Blocks.Steps, Blocks.First, Blocks.Second, Blocks.Length;
    var p', c := Move(t, p), t.First() + i;
    StartOfCycle(t, i);
    MoveSteps(t, p);
    StepCount(j, t.Length());
    var next := cur[p' := cur[c]][c := cur[p']];
    if j + 1 == t.Length() {
      StepsInjective(t, p', c);
    }
    assert cur[c] == was[p];
    forall y | 0 <= y < |was| && y % t.g == i && y != p'
      ensures t.Steps(y) != t.Steps(p')
    {
      if t.Steps(y) == t.Steps(p') {
        StepsInjective(t, y, p');
        assert false;
      }
    }
    forall y | 0 <= y < |was|
      ensures 0 <= t.Steps(y) < t.Length()
    {
      StepsRange(t, y);
    }
  }

  lemma RotationDone<T>(cur: seq<T>, was: seq<T>, t: Blocks)
    requires Rotated(cur, was, t, t.g)
    ensures cur == was[t.First()..] + was[..t.First()]
  {
    forall y | 0 <= y < |was|
      ensures cur[y] == (was[t.First()..] + was[..t.First()])[y]
    {
      InsideUnits(t, y);
    }
  }

  lemma RotationStarts<T>(was: seq<T>, t: Blocks)
    requires t.Valid() && |was| == t.First() + t.Second()
    ensures Rotated(was, was, t, 0)
  {
    forall y | 0 <= y < |was|
      ensures y % t.g >= 0
    {
      InsideUnits(t, y);
    }
  }

  /** The lengths of the blocks in units of their greatest common divisor. */
  lemma UnitsOf(first: nat, second: nat, g: nat, u: int, v: int) returns (t: Blocks)
    requires g > 0 && second > 0 && Divides(g, first) && Divides(g, second) && g == u * first + v * second
    ensures t.Valid() && t.g == g && t.First() == first && t.Second() == second
    ensures (first + second) / g == t.Length()
  {
    var a, b := first / g, second / g;
    DivModSplit(first, g);
    DivModSplit(second, g);
    var w, m := v - u, -u;
    assert g == (u * a + v * b) * g by {
      assert u * (a * g) == (u * a) * g;
      assert v * (b * g) == (v * b) * g;
    }
    UnitFactor(u * a + v * b, g);
    assert w * b == 1 + m * (a + b) by {
      assert (v - u) * b == v * b - u * b;
      assert (-u) * (a + b) == -(u * a) - u * b;
    }
    t := Blocks(g, a, b, w, m);
    assert (a + b) * g == first + second;
    DivModUnique(first + second, g, a + b, 0);
  }

  lemma UnitFactor(x: int, g: nat)
    requires g > 0 && g == x * g
    ensures x == 1
  {
    assert (x - 1) * g == 0;
    assert (1 - x) * g == 0;
    if x > 1 {
      MulLower(x - 1, g);
    } else if x < 1 {
      MulLower(1 - x, g);
    }
  }

  /** The two blocks change places; the order inside each is kept, and nothing else moves. */
  method Permute<T>(nargv: array<T>, nonoptStart: nat, nonoptEnd: nat, optEnd: nat)
    requires nonoptStart <= nonoptEnd < optEnd <= nargv.Length
    modifies nargv
    ensures nargv[..] == old(nargv[..nonoptStart] + nargv[nonoptEnd..optEnd]
                             + nargv[nonoptStart..nonoptEnd] + nargv[optEnd..])
  {
    hide Rotated, Divides, Blocks.Valid, Blocks.First, Blocks.Second, Blocks.Length;
    var nnonopts, nopts := nonoptEnd - nonoptStart, optEnd - nonoptEnd;
    var ncycle, u, v := Gcd(nnonopts, nopts);
    var cyclelen := (optEnd - nonoptStart) / ncycle;
    ghost var t := UnitsOf(nnonopts, nopts, ncycle, u, v);
    ghost var was := nargv[nonoptStart..optEnd];
    RotationStarts(was, t);
    var i := 0;
    while i < ncycle
      invariant 0 <= i <= ncycle
      invariant Rotated(nargv[nonoptStart..optEnd], was, t, i)
      invariant forall x :: 0 <= x < nonoptStart || optEnd <= x < nargv.Length ==> nargv[x] == old(nargv[x])
    {
      PermuteCycle(nargv, nonoptStart, nonoptEnd, optEnd, cyclelen, i, t, was);
      i := i + 1;
    }
    RotationDone(nargv[nonoptStart..optEnd], was, t);
    Reassemble(nargv[..], old(nargv[..]), nonoptStart, nonoptEnd, optEnd);
  }

  /** Carry the arguments of one cycle to their places. */
  method PermuteCycle<T>(nargv: array<T>, nonoptStart: nat, nonoptEnd: nat, optEnd: nat, cyclelen: nat, i: nat,
                         ghost t: Blocks, ghost was: seq<T>)
    requires nonoptStart <= nonoptEnd < optEnd <= nargv.Length && i < t.g
    requires t.First() == nonoptEnd - nonoptStart && t.Second() == optEnd - nonoptEnd && t.Length() == cyclelen
    requires Rotated(nargv[nonoptStart..optEnd], was, t, i)
    modifies nargv
    ensures Rotated(nargv[nonoptStart..optEnd], was, t, i + 1)
    ensures forall x :: 0 <= x < nonoptStart || optEnd <= x < nargv.Length ==> nargv[x] == old(nargv[x])
  {
    hide Rotated, Rotating, Blocks.First, Blocks.Second, Blocks.Length, Blocks.Steps;
    var cstart := nonoptEnd + i;
    var pos := cstart;
    ghost var w := nargv[nonoptStart..optEnd];
    RotatingStarts(w, was, t, i);
    var j := 0;
    while j < cyclelen
      invariant 0 <= j <= cyclelen
      invariant nonoptStart <= pos
      invariant Rotating(nargv[nonoptStart..optEnd], was, t, i, j, pos - nonoptStart)
      invariant forall x :: 0 <= x < nonoptStart || optEnd <= x < nargv.Length ==> nargv[x] == old(nargv[x])
    {
      ghost var cur := nargv[nonoptStart..optEnd];
      RotatingStep(cur, was, t, i, j, pos - nonoptStart);
      pos := if pos >= nonoptEnd then pos - (nonoptEnd - nonoptStart) else pos + (optEnd - nonoptEnd);
      var swap := nargv[pos];
      nargv[pos] := nargv[cstart];
      nargv[cstart] := swap;
      ghost var p', c := pos - nonoptStart, cstart - nonoptStart;
      assert nargv[nonoptStart..optEnd] == cur[p' := cur[c]][c := cur[p']];
      j := j + 1;
    }
    RotatingEnds(nargv[nonoptStart..optEnd], was, t, i, pos - nonoptStart);
  }

  lemma Reassemble<T>(cur: seq<T>, was: seq<T>, a: nat, b: nat, c: nat)
    requires a <= b <= c <= |was| == |cur|
    requires cur[a..c] == was[a..c][b - a..] + was[a..c][..b - a]
    requires forall x :: 0 <= x < a || c <= x < |was| ==> cur[x] == was[x]
    ensures cur == was[..a] + was[b..c] + was[a..b] + was[c..]
  {
    assert cur == cur[..a] + cur[a..c] + cur[c..];
    assert cur[..a] == was[..a] && cur[c..] == was[c..];
    assert was[a..c][b - a..] == was[b..c] && was[a..c][..b - a] == was[a..b];
  }
}
