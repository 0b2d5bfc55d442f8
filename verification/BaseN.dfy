/** The base 16, 32 and 64 codecs: bytes regrouped into digits of 4, 5 or 6 bits. */
module BaseN {
  import opened DivMod
  import opened Bits

  /** Consecutive characters. */
  function Run(first: char, n: nat): (r: string)
    requires first as nat + n < 256
    ensures |r| == n
  {
    seq(n, i requires 0 <= i < n => (first as nat + i) as char)
  }

  datatype Base = B16 | B32 | B64 {
    function GroupLength(): (r: nat)
      ensures 4 <= r <= 6
    {
      match this
      case B16 => 4
      case B32 => 5
      case B64 => 6
    }

    function Dictionary(): (r: string)
      ensures |r| == Pow2(GroupLength())
    {
      match this
      case B16 => Run('0', 10) + Run('A', 6)
      case B32 => Run('A', 26) + Run('2', 6)
      case B64 => Run('A', 26) + Run('a', 26) + Run('0', 10) + "+/"
    }

    function Encode(index: nat): char
      requires index < Pow2(GroupLength())
    {
      Dictionary()[index]
    }

    /** The value of a character, or 255 for a character outside the alphabet. */
    function Decode(c: char): (r: nat)
      ensures r == ERROR || r < Pow2(GroupLength())
    {
      match this
      case B16 =>
        if '0' <= c <= '9' then c as nat - '0' as nat
        else if 'A' <= c <= 'F' then c as nat - 'A' as nat + 10
        else ERROR
      case B32 =>
        if 'A' <= c <= 'Z' then c as nat - 'A' as nat
        else if '2' <= c <= '7' then c as nat - '2' as nat + 26
        else ERROR
      case B64 =>
        if 'A' <= c <= 'Z' then c as nat - 'A' as nat
        else if 'a' <= c <= 'z' then c as nat - 'a' as nat + 26
        else if '0' <= c <= '9' then c as nat - '0' as nat + 52
        else if c == '+' then 62
        else if c == '/' then 63
        else ERROR
    }
  }

  const ERROR: nat := 255

  predicate IsSpace(c: char) {
    c == ' ' || (9 <= c as nat <= 13)
  }

  /** Every digit is written as a character of its own, which is read back as that digit
      and is not taken for white space. */
  lemma AlphabetRoundTrip(t: Base, index: nat)
    requires index < Pow2(t.GroupLength())
    ensures t.Decode(t.Encode(index)) == index != ERROR && !IsSpace(t.Encode(index))
  {
    match t
    case B16 =>
      assert Pow2(4) == 16;
    case B32 =>
      assert Pow2(5) == 32;
    case B64 =>
      assert Pow2(6) == 64;
  }

  /** The alphabets of sections 4, 6 and 8 of RFC 4648. */
  function Alphabet(t: Base): string {
    match t
    case B16 => "0123456789" + "ABCDEF"
    case B32 => "ABCDEFGHIJKLMNOPQRSTUVWXYZ" + "234567"
    case B64 => "ABCDEFGHIJKLMNOPQRSTUVWXYZ" + "abcdefghijklmnopqrstuvwxyz" + "0123456789" + "+/"
  }

  lemma CapitalsAre()
    ensures Run('A', 26) == "ABCDEFGHIJKLMNOPQRSTUVWXYZ"
  {
  }

  lemma SmallLettersAre()
    ensures Run('a', 26) == "abcdefghijklmnopqrstuvwxyz"
  {
  }

  lemma FiguresAre()
    ensures Run('0', 10) == "0123456789" && Run('2', 6) == "234567" && Run('A', 6) == "ABCDEF"
  {
  }

  lemma DictionaryIs(t: Base)
    ensures t.Dictionary() == Alphabet(t)
  {
    hide Run;
    FiguresAre();
    CapitalsAre();
    SmallLettersAre();
  }

  /** A digit is written as the character of the alphabet at its place. */
  lemma EncodesAlphabet(t: Base, index: nat)
    requires index < Pow2(t.GroupLength())
    ensures |Alphabet(t)| == Pow2(t.GroupLength()) && t.Encode(index) == Alphabet(t)[index]
  {
    hide Alphabet, Base.Dictionary, Pow2;
    DictionaryIs(t);
  }

  /** A character is read as a digit exactly when it is in the alphabet, and then as its
      place there. */
  lemma DecodesAlphabet(t: Base, c: char)
    ensures t.Decode(c) == ERROR <==> c !in Alphabet(t)
    ensures t.Decode(c) != ERROR ==> t.Decode(c) < |Alphabet(t)| && Alphabet(t)[t.Decode(c)] == c
  {
    hide Base.Decode, Base.Encode, Alphabet;
    AlphabetLength(t);
    if c in Alphabet(t) {
      var i :| 0 <= i < |Alphabet(t)| && Alphabet(t)[i] == c;
      EncodesAlphabet(t, i);
      AlphabetRoundTrip(t, i);
    } else if t.Decode(c) != ERROR {
      DecodeThenEncode(t, c);
      EncodesAlphabet(t, t.Decode(c));
      assert false;
    }
  }

  lemma AlphabetLength(t: Base)
    ensures |Alphabet(t)| == Pow2(t.GroupLength()) <= 64
  {
    assert Pow2(4) == 16 && Pow2(5) == 32 && Pow2(6) == 64;
  }

  lemma DecodeThenEncode(t: Base, c: char)
    requires t.Decode(c) != ERROR
    ensures t.Encode(t.Decode(c)) == c
  {
    assert Pow2(4) == 16 && Pow2(5) == 32 && Pow2(6) == 64;
  }

  // ---- Digits as numbers ----

  /** The number that big-endian digits spell. */
  function Spell(base: nat, digits: seq<nat>): nat {
    if digits == [] then 0 else Spell(base, digits[..|digits| - 1]) * base + digits[|digits| - 1]
  }

  lemma SpellPush(base: nat, digits: seq<nat>, d: nat)
    ensures Spell(base, digits + [d]) == Spell(base, digits) * base + d
  {
    assert (digits + [d])[..|digits|] == digits;
  }

  /** Equally many digits that spell the same number are the same. */
  lemma {:induction false} SpellUnique(base: nat, a: seq<nat>, b: seq<nat>)
    requires |a| == |b| && Spell(base, a) == Spell(base, b)
    requires forall i :: 0 <= i < |a| ==> a[i] < base && b[i] < base
    ensures a == b
    decreases |a|
  {
    if a == [] {
    } else {
      var n := |a| - 1;
      DivModUnique(Spell(base, a), base, Spell(base, a[..n]), a[n]);
      DivModUnique(Spell(base, b), base, Spell(base, b[..n]), b[n]);
      SpellUnique(base, a[..n], b[..n]);
      assert a == a[..n] + [a[n]] && b == b[..n] + [b[n]];
    }
  }

  // ---- Bit extraction ----

  lemma DivDiv(x: nat, m: nat, n: nat)
    requires m > 0 && n > 0
    ensures m * n > 0 && (x / m) / n == x / (m * n)
  {
    MulLower(n, m);
    assert m * n == n * m;
    DivModSplit(x, m);
    var y := x / m;
    DivModSplit(y, n);
    var q, r := y / n, y % n;
    assert x == q * (m * n) + (r * m + x % m) by {
      assert (q * n) * m == q * (m * n);
      assert y * m == (q * n) * m + r * m;
    }
    MulNonNegative(r, m);
    MulLower(n - r, m);
    assert (n - r) * m == n * m - r * m;
    DivModUnique(x, m * n, q, r * m + x % m);
  }

  /** x >> k */
  function Shr(x: nat, k: nat): (r: nat)
    ensures r == x / Pow2(k) <= x
  {
    QuotientBounds(x, Pow2(k));
    x / Pow2(k)
  }

  /** The lowest k bits of x. */
  function Mask(x: nat, k: nat): (r: nat)
    ensures r < Pow2(k)
  {
    x % Pow2(k)
  }

  /** Bits start .. start + count of a byte, counted from the left. */
  function PartialBits(value: byte, start: nat, count: nat): nat
    requires start + count < 8
  {
    Mask(Shr(value, 8 - count - start), count)
  }

  lemma TopBits(value: nat, a: nat, b: nat)
    ensures Shr(value, a + b) * Pow2(b) + Mask(Shr(value, a), b) == Shr(value, a)
  {
    hide Pow2;
    Pow2Add(a, b);
    DivDiv(value, Pow2(a), Pow2(b));
    DivModSplit(Shr(value, a), Pow2(b));
  }

  /** Bits from a byte and on into the next. */
  function OverlappingBits(previous: byte, next: byte, start: nat, count: nat): nat
    requires start < 8 <= start + count < 16
  {
    var inNext := count - (8 - start);
    var t1 := (previous * Pow2(inNext)) % 256;
    var t2 := Mask(Shr(next, 8 - inNext), inNext);
    Mask(Or(t1, t2), count)
  }

  lemma ByteParts(i: nat)
    requires i <= 8
    ensures Pow2(8 - i) * Pow2(i) == 256
  {
    hide Pow2;
    Pow2Add(8 - i, i);
    Pow8();
  }

  lemma NextPart(next: byte, i: nat)
    requires i <= 8
    ensures Shr(next, 8 - i) < Pow2(i) && Mask(Shr(next, 8 - i), i) == Shr(next, 8 - i)
  {
    hide Pow2;
    ByteParts(i);
    var q := Shr(next, 8 - i);
    DivModSplit(next, Pow2(8 - i));
    assert (q - Pow2(i)) * Pow2(8 - i) == q * Pow2(8 - i) - Pow2(i) * Pow2(8 - i);
    assert Pow2(i) * Pow2(8 - i) == Pow2(8 - i) * Pow2(i);
    if q >= Pow2(i) {
      MulNonNegative(q - Pow2(i), Pow2(8 - i));
      assert false;
    }
    DivModUnique(q, Pow2(i), 0, q);
  }

  /** A byte shifted left loses its top bits. */
  lemma ShiftedByte(x: nat, i: nat)
    requires i <= 8
    ensures (x * Pow2(i)) % 256 == (x % Pow2(8 - i)) * Pow2(i)
  {
    hide Pow2;
    var p, q := Pow2(i), Pow2(8 - i);
    ByteParts(i);
    DivModSplit(x, q);
    assert x * p == (x / q) * 256 + (x % q) * p by {
      assert ((x / q) * q) * p == (x / q) * (q * p);
      assert x * p == ((x / q) * q) * p + (x % q) * p;
    }
    MulNonNegative(x % q, p);
    MulLower(q - x % q, p);
    assert (q - x % q) * p == 256 - (x % q) * p;
    DivModUnique(x * p, 256, x / q, (x % q) * p);
  }

  lemma MaskOfByte(x: nat, y: nat, count: nat)
    requires count <= 8 && x % 256 == y % 256
    ensures Mask(x, count) == Mask(y, count)
  {
    hide Pow2;
    ByteParts(count);
    FactorMod(x, y, Pow2(count), Pow2(8 - count));
  }

  lemma FactorMod(x: nat, y: nat, m: nat, f: nat)
    requires m > 0 && f > 0 && f * m == 256 && x % 256 == y % 256
    ensures x % m == y % m
  {
    DivModSplit(x, 256);
    DivModSplit(y, 256);
    DivModSplit(y, m);
    var k := x / 256 - y / 256;
    assert k * 256 == (k * f) * m;
    assert x == y + (k * f) * m;
    assert (y / m + k * f) * m == (y / m) * m + (k * f) * m;
    DivModUnique(x, m, y / m + k * f, y % m);
  }

  lemma OverlapMask(previous: byte, next: byte, start: nat, count: nat)
    requires start < 8 <= start + count && count <= 8
    ensures OverlappingBits(previous, next, start, count)
         == Mask(previous * Pow2(count - (8 - start)) + Shr(next, 8 - (count - (8 - start))), count)
  {
    hide Pow2, Or, Shr, Mask;
    var i := count - (8 - start);
    var nx := Shr(next, 8 - i);
    var moved := previous * Pow2(i);
    assert OverlappingBits(previous, next, start, count) == Mask(Or(moved % 256, nx), count) by {
      NextPart(next, i);
    }
    assert Or(moved % 256, nx) == moved % 256 + nx by {
      NextPart(next, i);
      ShiftedByte(previous, i);
      OrDisjoint(nx, previous % Pow2(8 - i), i);
      OrComm(nx, moved % 256);
    }
    SumMod(moved, nx);
    MaskOfByte(moved % 256 + nx, moved + nx, count);
  }

  lemma SumMod(a: nat, b: nat)
    ensures (a % 256 + b) % 256 == (a + b) % 256
  {
  }

  lemma Overlap(previous: byte, next: byte, start: nat, count: nat)
    requires start < 8 <= start + count && count <= 8
    ensures var i := count - (8 - start);
            Shr(previous, 8 - start) * Pow2(count) + OverlappingBits(previous, next, start, count)
              == previous * Pow2(i) + Shr(next, 8 - i)
  {
    hide Pow2, OverlappingBits;
    var i := count - (8 - start);
    OverlapMask(previous, next, start, count);
    NextPart(next, i);
    Pow2Add(i, 8 - start);
    JoinParts(previous, Shr(next, 8 - i), Pow2(i), Pow2(8 - start));
  }

  lemma JoinParts(previous: nat, nx: nat, p: nat, q: nat)
    requires nx < p && q > 0
    ensures p * q > 0
    ensures (previous / q) * (p * q) + (previous * p + nx) % (p * q) == previous * p + nx
  {
    var y := previous * p + nx;
    DivModUnique(y, p, previous, nx);
    DivDiv(y, p, q);
    DivModSplit(y, p * q);
  }

  // ---- Encoding ----

  function At(x: seq<byte>, i: nat): byte {
    if i < |x| then x[i] else 0
  }

  ghost predicate Digits(t: Base, digits: seq<nat>) {
    forall i :: 0 <= i < |digits| ==> digits[i] < Pow2(t.GroupLength())
  }

  /** The digits spell the first c bytes and the first `start` bits of the next one, which
      counts as zero past the end. */
  ghost predicate Covers(t: Base, x: seq<byte>, c: nat, start: nat, digits: seq<nat>) {
    && c <= |x| && start < 8
    && t.GroupLength() * |digits| == 8 * c + start
    && Digits(t, digits)
    && Spell(Pow2(t.GroupLength()), digits) == Spell(256, x[..c]) * Pow2(start) + Shr(At(x, c), 8 - start)
  }

  lemma CoversNothing(t: Base, x: seq<byte>)
    ensures Covers(t, x, 0, 0, [])
  {
    assert x[..0] == [];
    assert Pow2(8) == 256;
    DivModUnique(At(x, 0), 256, 0, At(x, 0));
  }

  lemma PartialStep(t: Base, x: seq<byte>, c: nat, start: nat, digits: seq<nat>)
    requires Covers(t, x, c, start, digits) && c < |x| && start + t.GroupLength() < 8
    ensures Covers(t, x, c, start + t.GroupLength(), digits + [PartialBits(x[c], start, t.GroupLength())])
  {
    hide Pow2, Spell, Shr, Mask;
    var len := t.GroupLength();
    var v := PartialBits(x[c], start, len);
    SpellPush(Pow2(len), digits, v);
    TopBits(x[c], 8 - len - start, len);
    Pow2Add(start, len);
    ShiftSum(Spell(256, x[..c]), Pow2(start), Pow2(len), Shr(x[c], 8 - start));
  }

  lemma ShiftSum(n: nat, p: nat, q: nat, top: nat)
    ensures (n * p + top) * q == n * (p * q) + top * q
  {
    assert (n * p) * q == n * (p * q);
  }

  lemma OverlapStep(t: Base, x: seq<byte>, c: nat, start: nat, digits: seq<nat>)
    requires Covers(t, x, c, start, digits) && c < |x| && start + t.GroupLength() >= 8
    ensures Covers(t, x, c + 1, (start + t.GroupLength()) % 8,
                   digits + [OverlappingBits(x[c], At(x, c + 1), start, t.GroupLength())])
  {
    hide Pow2, Spell, Shr, Mask, OverlappingBits, Base.GroupLength;
    var len := t.GroupLength();
    var v := OverlappingBits(x[c], At(x, c + 1), start, len);
    var i := start + len - 8;
    assert (start + len) % 8 == i;
    assert v < Pow2(len) by {
      OverlapMask(x[c], At(x, c + 1), start, len);
    }
    assert x[..c + 1] == x[..c] + [x[c]];
    assert Spell(Pow2(len), digits + [v]) == Spell(256, x[..c + 1]) * Pow2(i) + Shr(At(x, c + 1), 8 - i) by {
      Overlap(x[c], At(x, c + 1), start, len);
      SpellPush(Pow2(len), digits, v);
      SpellPush(256, x[..c], x[c]);
      Pow8();
      Pow2Add(start, len);
      Pow2Add(8, i);
      OverlapNumbers(Spell(256, x[..c]), x[c], Shr(x[c], 8 - start), Pow2(start), Pow2(len), Pow2(i),
                     Shr(At(x, c + 1), 8 - i), v);
    }
    assert len * |digits + [v]| == len * |digits| + len;
  }

  lemma OverlapNumbers(n: nat, b: nat, top: nat, p: nat, q: nat, s: nat, nx: nat, v: nat)
    requires p * q == 256 * s && top * q + v == b * s + nx
    ensures (n * p + top) * q + v == (n * 256 + b) * s + nx
  {
    ShiftSum(n, p, q, top);
    ShiftSum(n, 256, s, b);
  }

  function Text(t: Base, digits: seq<nat>): (r: string)
    requires Digits(t, digits)
    ensures |r| == |digits|
  {
    seq(|digits|, i requires 0 <= i < |digits| => t.Encode(digits[i]))
  }

  lemma TextPush(t: Base, digits: seq<nat>, d: nat)
    requires Digits(t, digits + [d])
    ensures Digits(t, digits) && d < Pow2(t.GroupLength())
    ensures Text(t, digits + [d]) == Text(t, digits) + [t.Encode(d)]
  {
    assert (digits + [d])[|digits|] == d;
    assert forall i :: 0 <= i < |digits| ==> digits[i] == (digits + [d])[i];
  }

  /** The digits are the bits of the bytes in groups, the last group filled up with zero
      bits; fewer than a group of them. */
  ghost predicate Encodes(t: Base, x: seq<byte>, digits: seq<nat>) {
    var fill := t.GroupLength() * |digits| - 8 * |x|;
    && 0 <= fill < t.GroupLength()
    && Digits(t, digits)
    && Spell(Pow2(t.GroupLength()), digits) == Spell(256, x) * Pow2(fill)
  }

  method EncodeDigits(t: Base, x: seq<byte>) returns (out: string, start: nat, ghost digits: seq<nat>)
    ensures Encodes(t, x, digits) && out == Text(t, digits)
    ensures Encodes(t, x, Values(t, out))
    ensures start == (t.GroupLength() * |digits|) % 8
  {
    hide Covers, Text, PartialBits, OverlappingBits, Pow2, Base.Encode, Base.GroupLength, Digits;
    var len := t.GroupLength();
    out, start, digits := [], 0, [];
    var iter, hasBacklog: bool, backlog: byte := 0, false, 0;
    ghost var c := 0;
    CoversNothing(t, x);
    TextOfNothing(t);
    while hasBacklog || iter < |x|
      invariant 0 <= iter <= |x| && c == (if hasBacklog then iter - 1 else iter) && 0 <= c
      invariant Covers(t, x, c, start, digits) && start < 8
      invariant hasBacklog ==> c < |x| && backlog == x[c] && start + len >= 8
      invariant !hasBacklog && iter == |x| ==> start < len
      invariant Digits(t, digits) && out == Text(t, digits)
      decreases |x| - c, 8 - start, if hasBacklog then 0 else 1
    {
      if !hasBacklog {
        if start + len < 8 {
          var v := PartialBits(x[iter], start, len);
          PartialStep(t, x, c, start, digits);
          CoversDigits(t, x, c, start + len, digits + [v]);
          TextPush(t, digits, v);
          out := out + [t.Encode(v)];
          digits := digits + [v];
          start := start + len;
        } else {
          backlog := x[iter];
          iter := iter + 1;
          hasBacklog := true;
        }
      } else {
        var v;
        if iter == |x| {
          v := OverlappingBits(backlog, 0, start, len);
        } else {
          v := OverlappingBits(backlog, x[iter], start, len);
        }
        OverlapStep(t, x, c, start, digits);
        CoversDigits(t, x, c + 1, (start + len) % 8, digits + [v]);
        TextPush(t, digits, v);
        out := out + [t.Encode(v)];
        digits := digits + [v];
        hasBacklog := false;
        start := (start + len) % 8;
        c := c + 1;
      }
    }
    CoversAll(t, x, start, digits);
    ValuesOfText(t, digits);
  }

  lemma TextOfNothing(t: Base)
    ensures Digits(t, []) && Text(t, []) == []
  {
  }

  lemma CoversDigits(t: Base, x: seq<byte>, c: nat, start: nat, digits: seq<nat>)
    requires Covers(t, x, c, start, digits)
    ensures Digits(t, digits) && start < 8
  {
  }

  lemma CoversAll(t: Base, x: seq<byte>, start: nat, digits: seq<nat>)
    requires Covers(t, x, |x|, start, digits) && start < t.GroupLength()
    ensures Encodes(t, x, digits) && start == (t.GroupLength() * |digits|) % 8
  {
    hide Pow2, Base.GroupLength, Spell;
    assert x[..|x|] == x;
    DivModUnique(0, Pow2(8 - start), 0, 0);
  }

  /** The number of characters that stand for a whole number of bytes. */
  function GroupChars(t: Base): nat {
    match t
    case B16 => 2
    case B32 => 8
    case B64 => 4
  }

  /** The number of characters needed to complete a group. */
  function Missing(t: Base, n: nat): nat {
    if n % GroupChars(t) == 0 then 0 else GroupChars(t) - n % GroupChars(t)
  }

  function Padding(n: nat): (r: string)
    ensures |r| == n
  {
    seq(n, _ => '=')
  }

  lemma PadStep(t: Base, n: nat, start: nat)
    requires start == (t.GroupLength() * n) % 8
    ensures (start + t.GroupLength()) % 8 == (t.GroupLength() * (n + 1)) % 8
    ensures start == 0 <==> Missing(t, n) == 0
    ensures start != 0 ==> Missing(t, n + 1) == Missing(t, n) - 1
    ensures Missing(t, n) == 0 <==> n % GroupChars(t) == 0
    ensures Missing(t, n) < GroupChars(t)
  {
    hide GroupChars, Base.GroupLength;
    GroupFillsBytes(t);
    var m, len := GroupChars(t), t.GroupLength();
    PadCycle(len, n, m, len * m / 8);
    NextInCycle(n, m);
    GroupBoundary(t, n % m);
    assert len * (n + 1) == len * n + len;
    NextStart(len * n, len);
  }

  lemma NextStart(x: nat, len: nat)
    ensures (x % 8 + len) % 8 == (x + len) % 8
  {
  }

  lemma GroupFillsBytes(t: Base)
    ensures t.GroupLength() * GroupChars(t) % 8 == 0 && GroupChars(t) > 1
  {
  }

  lemma GroupBoundary(t: Base, r: nat)
    requires r < GroupChars(t)
    ensures (t.GroupLength() * r) % 8 == 0 <==> r == 0
  {
  }

  /** The bits past a byte boundary depend only on the position within a group. */
  lemma PadCycle(len: nat, n: nat, m: nat, k: nat)
    requires m > 0 && len * m == 8 * k
    ensures 0 <= n % m < m && (len * n) % 8 == (len * (n % m)) % 8
  {
    DivModSplit(n, m);
    var q, r := n / m, n % m;
    assert len * n == 8 * (k * q) + len * r by {
      assert len * (q * m) == (len * m) * q;
      assert (8 * k) * q == 8 * (k * q);
    }
    DivModSplit(len * r, 8);
    DivModUnique(len * n, 8, k * q + (len * r) / 8, (len * r) % 8);
  }

  /** Digits, then as few padding characters as complete a group. */
  method Encode(t: Base, x: seq<byte>) returns (out: string, ghost digits: seq<nat>, ghost pads: nat)
    ensures Encodes(t, x, digits)
    ensures out == Text(t, digits) + Padding(pads)
    ensures Encodes(t, x, Values(t, out))
    ensures |out| % GroupChars(t) == 0 && pads < GroupChars(t)
  {
    hide Text, Encodes, Missing, GroupChars, Base.GroupLength;
    var start: nat;
    out, start, digits := EncodeDigits(t, x);
    EncodesDigits(t, x, digits);
    pads := 0;
    ghost var needed := Missing(t, |out|);
    PadStep(t, |out|, start);
    while start != 0
      invariant start == (t.GroupLength() * |out|) % 8
      invariant out == Text(t, digits) + Padding(pads)
      invariant pads + Missing(t, |out|) == needed
      decreases Missing(t, |out|)
    {
      PadStep(t, |out|, start);
      assert Padding(pads + 1) == Padding(pads) + "=";
      out := out + "=";
      start := (start + t.GroupLength()) % 8;
      pads := pads + 1;
    }
    PadStep(t, |out|, start);
    ValuesOfText(t, digits);
    PaddingIgnored(t, Text(t, digits), pads);
  }

  /** The digits of a byte string are determined. */
  lemma EncodesUnique(t: Base, x: seq<byte>, a: seq<nat>, b: seq<nat>)
    requires Encodes(t, x, a) && Encodes(t, x, b)
    ensures a == b
  {
    hide Pow2, Spell;
    assert t.GroupLength() in {4, 5, 6};
    assert |a| == |b|;
    SpellUnique(Pow2(t.GroupLength()), a, b);
  }

  lemma ExampleNumbers()
    ensures Spell(256, [0xfb, 0xff]) == 0xfbff
    ensures Spell(16, [15, 11, 15, 15]) == 0xfbff
    ensures Spell(32, [31, 15, 31, 16]) == 0xfbff * 16
    ensures Spell(64, [62, 63, 60]) == 0xfbff * 4
  {
    hide Spell;
    SpellFour(256, 0xfb, 0xff, 0, 0);
    SpellFour(16, 15, 11, 15, 15);
    SpellFour(32, 31, 15, 31, 16);
    SpellFour(64, 62, 63, 60, 0);
  }

  /** Each digit moves what is before it up by the base. */
  lemma SpellFour(base: nat, a: nat, b: nat, c: nat, d: nat)
    ensures Spell(base, [a]) == a && Spell(base, [a, b]) == Spell(base, [a]) * base + b
    ensures Spell(base, [a, b, c]) == Spell(base, [a, b]) * base + c
    ensures Spell(base, [a, b, c, d]) == Spell(base, [a, b, c]) * base + d
  {
    hide Spell;
    var none: seq<nat> := [];
    assert [a] == none + [a] && [a, b] == [a] + [b] && [a, b, c] == [a, b] + [c] && [a, b, c, d] == [a, b, c] + [d];
    SpellNothing(base);
    SpellPush(base, none, a);
    SpellPush(base, [a], b);
    SpellPush(base, [a, b], c);
    SpellPush(base, [a, b, c], d);
  }

  lemma SpellNothing(base: nat)
    ensures Spell(base, []) == 0 && Spell(base, []) * base == 0
  {
  }

  lemma ExampleDigits()
    ensures Encodes(B16, [0xfb, 0xff], [15, 11, 15, 15])
    ensures Encodes(B32, [0xfb, 0xff], [31, 15, 31, 16])
    ensures Encodes(B64, [0xfb, 0xff], [62, 63, 60])
  {
    hide Spell;
    assert Pow2(0) == 1 && Pow2(2) == 4 && Pow2(4) == 16 && Pow2(5) == 32 && Pow2(6) == 64;
    ExampleNumbers();
  }

  /** What the digits look like on paper. */
  lemma ExampleTexts()
    ensures Text(B16, [15, 11, 15, 15]) == "FBFF"
    ensures Text(B32, [31, 15, 31, 16]) == "7P7Q"
    ensures Text(B64, [62, 63, 60]) == "+/8"
  {
    assert Pow2(4) == 16 && Pow2(5) == 32 && Pow2(6) == 64;
  }

  lemma PaddingIs(t: Base, n: nat, pads: nat)
    requires (n + pads) % GroupChars(t) == 0 && pads < GroupChars(t)
    ensures t == B16 && n == 4 ==> Padding(pads) == ""
    ensures t == B32 && n == 4 ==> Padding(pads) == "===="
    ensures t == B64 && n == 3 ==> Padding(pads) == "="
  {
  }

  /** The bytes fb and ff in the three bases. */
  method EncodeExamples() returns (b16: string, b32: string, b64: string)
    ensures b16 == "FBFF" && b32 == "7P7Q====" && b64 == "+/8="
  {
    hide *;
    ghost var digits, pads;
    var x: seq<byte> := [0xfb, 0xff];
    ExampleDigits();
    ExampleTexts();
    b16, digits, pads := Encode(B16, x);
    EncodesUnique(B16, x, digits, [15, 11, 15, 15]);
    PaddingIs(B16, 4, pads);
    b32, digits, pads := Encode(B32, x);
    EncodesUnique(B32, x, digits, [31, 15, 31, 16]);
    PaddingIs(B32, 4, pads);
    b64, digits, pads := Encode(B64, x);
    EncodesUnique(B64, x, digits, [62, 63, 60]);
    PaddingIs(B64, 3, pads);
  }

  lemma EncodesDigits(t: Base, x: seq<byte>, digits: seq<nat>)
    requires Encodes(t, x, digits)
    ensures Digits(t, digits)
  {
  }

  // ---- Decoding ----

  /** The digits a text stands for; white space and other characters are skipped. */
  function Values(t: Base, text: string): seq<nat> {
    if text == [] then []
    else
      var c := text[|text| - 1];
      Values(t, text[..|text| - 1]) + (if IsSpace(c) || t.Decode(c) == ERROR then [] else [t.Decode(c)])
  }

  lemma ValuesPush(t: Base, text: string, c: char)
    ensures IsSpace(c) || t.Decode(c) == ERROR ==> Values(t, text + [c]) == Values(t, text)
    ensures !IsSpace(c) && t.Decode(c) != ERROR ==> Values(t, text + [c]) == Values(t, text) + [t.Decode(c)]
  {
    hide Base.Decode, IsSpace;
    assert (text + [c])[..|text|] == text;
  }

  /** Whole bytes, and `cur` further bits held back, spell the digits read so far. */
  ghost predicate Holding(t: Base, values: seq<nat>, out: seq<byte>, cur: nat, held: nat) {
    && cur < 8 && held < Pow2(cur)
    && 8 * |out| + cur == t.GroupLength() * |values|
    && Spell(256, out) * Pow2(cur) + held == Spell(Pow2(t.GroupLength()), values)
  }

  lemma JoinBelow(h: nat, v: nat, a: nat, b: nat)
    requires h < Pow2(a) && v < Pow2(b)
    ensures h * Pow2(b) + v < Pow2(a + b)
  {
    hide Pow2;
    Pow2Add(a, b);
    MulNonNegative(Pow2(a) - 1 - h, Pow2(b));
    assert (Pow2(a) - 1 - h) * Pow2(b) == Pow2(a) * Pow2(b) - Pow2(b) - h * Pow2(b);
  }

  lemma FitStep(t: Base, values: seq<nat>, out: seq<byte>, cur: nat, held: nat, v: nat)
    requires Holding(t, values, out, cur, held) && v < Pow2(t.GroupLength()) && cur + t.GroupLength() < 8
    ensures Holding(t, values + [v], out, cur + t.GroupLength(), held * Pow2(t.GroupLength()) + v)
  {
    hide Pow2, Spell, Base.GroupLength;
    var len := t.GroupLength();
    SpellPush(Pow2(len), values, v);
    JoinBelow(held, v, cur, len);
    Pow2Add(cur, len);
    ShiftSum(Spell(256, out), Pow2(cur), Pow2(len), held);
  }

  lemma FillStep(t: Base, values: seq<nat>, out: seq<byte>, cur: nat, held: nat, v: nat)
    requires Holding(t, values, out, cur, held) && v < Pow2(t.GroupLength()) && cur + t.GroupLength() == 8
    ensures held * Pow2(t.GroupLength()) + v < 256
    ensures Holding(t, values + [v], out + [held * Pow2(t.GroupLength()) + v], 0, 0)
  {
    hide Pow2, Spell, Base.GroupLength;
    var len := t.GroupLength();
    assert 0 <= held * Pow2(len) + v < 256 by {
      JoinBelow(held, v, cur, len);
      MulNonNegative(held, Pow2(len));
      Pow8();
    }
    FillSpelled(values, out, cur, len, held, v, held * Pow2(len) + v);
    assert len * |values + [v]| == len * |values| + len;
    PowZero();
  }

  lemma FillSpelled(values: seq<nat>, out: seq<byte>, cur: nat, len: nat, held: nat, v: nat, b: byte)
    requires cur + len == 8 && b == held * Pow2(len) + v
    requires Spell(256, out) * Pow2(cur) + held == Spell(Pow2(len), values)
    ensures Spell(256, out + [b]) * Pow2(0) + 0 == Spell(Pow2(len), values + [v])
  {
    hide Pow2, Spell;
    SpellPush(Pow2(len), values, v);
    SpellPush(256, out, b);
    Pow2Add(cur, len);
    Pow8();
    PowZero();
    FillNumbers(Spell(256, out), Pow2(cur), Pow2(len), held, v);
  }

  lemma FillNumbers(n: nat, p: nat, q: nat, held: nat, v: nat)
    requires p * q == 256
    ensures (n * p + held) * q + v == (n * 256 + (held * q + v)) * 1 + 0
  {
    ShiftSum(n, p, q, held);
  }

  lemma SpanStep(t: Base, values: seq<nat>, out: seq<byte>, cur: nat, held: nat, v: nat)
    requires Holding(t, values, out, cur, held) && v < Pow2(t.GroupLength()) && cur + t.GroupLength() > 8
    ensures var inNext := cur + t.GroupLength() - 8;
            && held * Pow2(8 - cur) + Shr(v, inNext) < 256
            && Holding(t, values + [v], out + [held * Pow2(8 - cur) + Shr(v, inNext)], inNext, Mask(v, inNext))
  {
    hide Pow2, Spell, Base.GroupLength, Mask, Shr;
    var len := t.GroupLength();
    var inNext := cur + len - 8;
    SpanByte(held, v, cur, inNext);
    var b := held * Pow2(8 - cur) + Shr(v, inNext);
    SpanSpelled(values, out, cur, held, v, b, inNext);
    assert len * |values + [v]| == len * |values| + len;
  }

  lemma SpanByte(held: nat, v: nat, cur: nat, inNext: nat)
    requires cur < 8 && held < Pow2(cur) && v < Pow2(8 - cur + inNext)
    ensures 0 <= held * Pow2(8 - cur) + Shr(v, inNext) < 256
  {
    hide Pow2, Shr;
    TopPart(v, 8 - cur, inNext);
    JoinBelow(held, Shr(v, inNext), cur, 8 - cur);
    MulNonNegative(held, Pow2(8 - cur));
    Pow8();
  }

  lemma SpanSpelled(values: seq<nat>, out: seq<byte>, cur: nat, held: nat, v: nat, b: byte, inNext: nat)
    requires cur < 8 && v < Pow2(8 - cur + inNext) && b == held * Pow2(8 - cur) + Shr(v, inNext)
    requires Spell(256, out) * Pow2(cur) + held == Spell(Pow2(8 - cur + inNext), values)
    ensures Spell(256, out + [b]) * Pow2(inNext) + Mask(v, inNext) == Spell(Pow2(8 - cur + inNext), values + [v])
  {
    hide Pow2, Spell, Mask, Shr;
    var len := 8 - cur + inNext;
    TopPart(v, 8 - cur, inNext);
    SpellPush(Pow2(len), values, v);
    SpellPush(256, out, b);
    Pow8();
    Pow2Add(cur, len);
    Pow2Add(8, inNext);
    Pow2Add(8 - cur, inNext);
    SpanNumbers(Spell(256, out), held, Pow2(cur), Pow2(len), Pow2(8 - cur), Pow2(inNext),
                Shr(v, inNext), Mask(v, inNext));
  }

  lemma SpanNumbers(n: nat, held: nat, p: nat, q: nat, r: nat, s: nat, hi: nat, lo: nat)
    requires p * q == 256 * s && r * s == q
    ensures (n * p + held) * q + (hi * s + lo) == (n * 256 + (held * r + hi)) * s + lo
  {
    ShiftSum(n, p, q, held);
    ShiftSum(n, 256, s, held * r + hi);
    ShiftSum(held, r, s, hi);
  }

  /** A value of a + b bits is its upper a bits followed by its lower b bits. */
  lemma TopPart(v: nat, a: nat, b: nat)
    requires v < Pow2(a + b)
    ensures v == Shr(v, b) * Pow2(b) + Mask(v, b) && Shr(v, b) < Pow2(a)
  {
    hide Pow2;
    Pow2Add(a, b);
    DivModSplit(v, Pow2(b));
    var q := Shr(v, b);
    assert (q - Pow2(a)) * Pow2(b) == q * Pow2(b) - Pow2(a) * Pow2(b);
    if q >= Pow2(a) {
      MulNonNegative(q - Pow2(a), Pow2(b));
      assert false;
    }
  }

  lemma ShiftedBelow(v: nat, a: nat, b: nat)
    requires v < Pow2(a)
    ensures v * Pow2(b) < Pow2(a + b)
  {
    hide Pow2;
    JoinBelow(v, 0, a, b);
  }

  lemma OrIntoSum(held: nat, v: nat, cur: nat, len: nat)
    requires cur + len <= 8 && v < Pow2(len)
    ensures Or(held * Pow2(8 - cur), v * Pow2(8 - cur - len)) == held * Pow2(8 - cur) + v * Pow2(8 - cur - len)
  {
    hide Pow2, Or;
    var low := v * Pow2(8 - cur - len);
    ShiftedBelow(v, len, 8 - cur - len);
    OrDisjoint(low, held, 8 - cur);
    OrComm(low, held * Pow2(8 - cur));
  }

  lemma OrIntoForm(held: nat, v: nat, cur: nat, len: nat)
    requires cur + len <= 8
    ensures held * Pow2(8 - cur) + v * Pow2(8 - cur - len) == (held * Pow2(len) + v) * Pow2(8 - cur - len)
  {
    hide Pow2;
    Pow2Add(len, 8 - cur - len);
    ShiftSum(held, Pow2(len), Pow2(8 - cur - len), v);
  }

  lemma OrIntoFits(held: nat, v: nat, cur: nat, len: nat)
    requires cur + len <= 8 && held < Pow2(cur) && v < Pow2(len)
    ensures (held * Pow2(len) + v) * Pow2(8 - cur - len) < 256
  {
    hide Pow2;
    var whole := held * Pow2(len) + v;
    JoinBelow(held, v, cur, len);
    ShiftedBelow(whole, cur + len, 8 - cur - len);
    Pow8();
  }

  /** Writing a value below the bits already held. */
  lemma OrInto(held: nat, v: nat, cur: nat, len: nat)
    requires cur + len <= 8 && held < Pow2(cur) && v < Pow2(len)
    ensures Or(held * Pow2(8 - cur), v * Pow2(8 - cur - len)) == (held * Pow2(len) + v) * Pow2(8 - cur - len) < 256
  {
    hide Pow2, Or;
    OrIntoSum(held, v, cur, len);
    OrIntoForm(held, v, cur, len);
    OrIntoFits(held, v, cur, len);
  }

  lemma OrTop(held: nat, hi: nat, cur: nat)
    requires cur < 8 && hi < Pow2(8 - cur)
    ensures Or(held * Pow2(8 - cur), hi) == held * Pow2(8 - cur) + hi
  {
    hide Pow2, Or;
    OrDisjoint(hi, held, 8 - cur);
    OrComm(hi, held * Pow2(8 - cur));
  }

  ghost predicate DecodesTo(t: Base, values: seq<nat>, out: seq<byte>) {
    var bits := t.GroupLength() * |values|;
    && |out| == bits / 8
    && Spell(256, out) == Spell(Pow2(t.GroupLength()), values) / Pow2(bits % 8)
  }

  lemma HoldingDecodes(t: Base, values: seq<nat>, out: seq<byte>, cur: nat, held: nat)
    requires Holding(t, values, out, cur, held)
    ensures DecodesTo(t, values, out)
  {
    hide Pow2, Spell, Base.GroupLength;
    DivModUnique(Spell(Pow2(t.GroupLength()), values), Pow2(cur), Spell(256, out), held);
  }

  /** The value fits the current byte, and may complete it. */
  method DecodeInside(t: Base, value: nat, out: seq<byte>, cur: nat, buffer: byte,
                      ghost values: seq<nat>, ghost held: nat)
    returns (out': seq<byte>, cur': nat, buffer': byte, ghost held': nat)
    requires value < Pow2(t.GroupLength()) && Holding(t, values, out, cur, held) && buffer == held * Pow2(8 - cur)
    requires cur + t.GroupLength() <= 8
    ensures Holding(t, values + [value], out', cur', held') && cur' < 8 && buffer' == held' * Pow2(8 - cur')
  {
    hide Pow2, Spell, Or, Base.GroupLength;
    var len := t.GroupLength();
    OrInto(held, value, cur, len);
    out' := out;
    buffer' := Or(buffer, value * Pow2(8 - cur - len));
    cur' := cur + len;
    held' := held * Pow2(len) + value;
    if cur' == 8 {
      FillStep(t, values, out, cur, held, value);
      PowZero();
      out' := out + [buffer'];
      buffer', cur', held' := 0, 0, 0;
    } else {
      FitStep(t, values, out, cur, held, value);
    }
  }

  method DecodeDigit(t: Base, value: nat, out: seq<byte>, cur: nat, buffer: byte,
                     ghost values: seq<nat>, ghost held: nat)
    returns (out': seq<byte>, cur': nat, buffer': byte, ghost held': nat)
    requires value < Pow2(t.GroupLength()) && Holding(t, values, out, cur, held) && buffer == held * Pow2(8 - cur)
    ensures Holding(t, values + [value], out', cur', held') && cur' < 8 && buffer' == held' * Pow2(8 - cur')
  {
    hide Pow2, Spell, Or, Base.GroupLength, Shr, Mask;
    var len := t.GroupLength();
    if cur + len <= 8 {
      out', cur', buffer', held' := DecodeInside(t, value, out, cur, buffer, values, held);
    } else {
      var inNext := cur + len - 8;
      SpanStep(t, values, out, cur, held, value);
      TopPart(value, 8 - cur, inNext);
      OrTop(held, Shr(value, inNext), cur);
      out' := out + [Or(buffer, Shr(value, inNext))];
      ShiftedByte(value, 8 - inNext);
      OrNothing((value * Pow2(8 - inNext)) % 256);
      buffer' := Or(0, (value * Pow2(8 - inNext)) % 256);
      cur', held' := inNext, Mask(value, inNext);
      MaskIs(value, inNext);
    }
  }

  lemma OrNothing(x: nat)
    ensures Or(0, x) == x
  {
  }

  lemma MaskIs(x: nat, k: nat)
    ensures Mask(x, k) == x % Pow2(k)
  {
  }

  /** The whole bytes at the front of the bits that the characters stand for. */
  method Decode(t: Base, text: string) returns (out: seq<byte>)
    ensures DecodesTo(t, Values(t, text), out)
  {
    hide Pow2, Spell, Holding, Base.Decode, Base.GroupLength, Values;
    out := [];
    var cur: nat, buffer: byte := 0, 0;
    ghost var held: nat := 0;
    HoldingNothing(t);
    assert text[..0] == [];
    var i := 0;
    while i < |text|
      invariant 0 <= i <= |text|
      invariant Holding(t, Values(t, text[..i]), out, cur, held)
      invariant cur < 8 && buffer == held * Pow2(8 - cur)
    {
      var c := text[i];
      assert text[..i + 1] == text[..i] + [c];
      ValuesPush(t, text[..i], c);
      if !IsSpace(c) && t.Decode(c) != ERROR {
        out, cur, buffer, held := DecodeDigit(t, t.Decode(c), out, cur, buffer, Values(t, text[..i]), held);
      }
      i := i + 1;
    }
    assert text[..|text|] == text;
    HoldingDecodes(t, Values(t, text), out, cur, held);
  }

  lemma HoldingNothing(t: Base)
    ensures Values(t, []) == [] && Holding(t, [], [], 0, 0)
  {
  }

  // ---- Round trip ----

  lemma {:induction false} ValuesOfText(t: Base, digits: seq<nat>)
    requires Digits(t, digits)
    ensures Values(t, Text(t, digits)) == digits
    decreases |digits|
  {
    hide Base.Decode, Base.Encode, Pow2, IsSpace, Text;
    TextOfNothing(t);
    if digits == [] {
    } else {
      var n := |digits| - 1;
      var front, last := digits[..n], digits[n];
      ValuesOfText(t, front);
      assert digits == front + [last];
      TextPush(t, front, last);
      AlphabetRoundTrip(t, last);
      ValuesPush(t, Text(t, front), t.Encode(last));
    }
  }

  lemma {:induction false} PaddingIgnored(t: Base, text: string, n: nat)
    ensures Values(t, text + Padding(n)) == Values(t, text)
    decreases n
  {
    hide Base.Decode, Values;
    if n == 0 {
      assert text + Padding(0) == text;
    } else {
      PaddingIgnored(t, text, n - 1);
      assert text + Padding(n) == (text + Padding(n - 1)) + "=";
      PaddingOutside(t);
      ValuesPush(t, text + Padding(n - 1), '=');
    }
  }

  /** A character outside the alphabet may stand anywhere in a text; decoding skips it. */
  lemma {:induction false} OutsideIgnored(t: Base, front: string, c: char, back: string)
    requires c !in Alphabet(t)
    ensures Values(t, front + [c] + back) == Values(t, front + back)
    decreases |back|
  {
    hide Base.Decode, Values, IsSpace, Alphabet;
    if back == [] {
      DecodesAlphabet(t, c);
      ValuesPush(t, front, c);
      assert front + [c] + back == front + [c] && front + back == front;
    } else {
      var rest, last := back[..|back| - 1], back[|back| - 1];
      assert back == rest + [last];
      OutsideIgnored(t, front, c, rest);
      assert front + [c] + back == (front + [c] + rest) + [last];
      assert front + back == (front + rest) + [last];
      ValuesPush(t, front + [c] + rest, last);
      ValuesPush(t, front + rest, last);
    }
  }

  lemma PaddingOutside(t: Base)
    ensures t.Decode('=') == ERROR
  {
  }

  lemma RoundTrip(t: Base, x: seq<byte>, digits: seq<nat>, out: seq<byte>)
    requires Encodes(t, x, digits) && DecodesTo(t, digits, out)
    ensures out == x
  {
    hide Pow2, Spell, Base.GroupLength;
    var bits := t.GroupLength() * |digits|;
    var fill := bits - 8 * |x|;
    assert bits / 8 == |x| && bits % 8 == fill;
    MultipleMod(Spell(256, x), Pow2(fill));
    SpellUnique(256, out, x);
  }

  /** Decoding what was encoded gives the bytes back. */
  method EncodeThenDecode(t: Base, x: seq<byte>) returns (y: seq<byte>)
    ensures y == x
  {
    hide *;
    var text, _, _ := Encode(t, x);
    y := Decode(t, text);
    RoundTrip(t, x, Values(t, text), y);
  }
}
