/** The spill schedule of the bucket list: level sizes, the ledgers at which a
    level spills, the choice between merging with `curr` and merging with an
    empty bucket, and the ledger ranges each bucket covers. */
module LedgerSchedule {
  import opened DivMod
  import opened Bits

  const NUM_LEVELS: nat := 11
  const UINT32_RANGE: nat := 0x1_0000_0000

  type uint32 = x: int | 0 <= x < UINT32_RANGE

  function Pow4(n: nat): (r: nat)
    ensures r >= 1
  {
    if n == 0 then 1 else 4 * Pow4(n - 1)
  }

  /** The largest multiple of m that is not above v. */
  function RoundDown(v: nat, m: nat): (r: nat)
    requires m > 0
    ensures r <= v
  {
    if v < m then 0 else m + RoundDown(v - m, m)
  }

  lemma {:induction false} RoundDownMod(v: nat, m: nat)
    requires m > 0
    ensures RoundDown(v, m) == v - v % m
    decreases v
  {
    if v < m {
      DivModUnique(v, m, 0, v);
    } else {
      RoundDownMod(v - m, m);
      DivModSplit(v - m, m);
      assert ((v - m) / m + 1) * m == ((v - m) / m) * m + m;
      DivModUnique(v, m, (v - m) / m + 1, (v - m) % m);
    }
  }

  lemma {:induction false} PowerOfFour(n: nat)
    ensures Pow4(n) == Pow2(2 * n)
  {
    if n == 0 {
    } else {
      PowerOfFour(n - 1);
      PowDouble(2 * n - 2);
      PowDouble(2 * n - 1);
    }
  }

  /** On 32-bit values, clearing the bits below a power of two. */
  lemma RoundDownIsMask(v: uint32, n: nat)
    requires n <= 32
    ensures Pow2(n) <= UINT32_RANGE
    ensures RoundDown(v, Pow2(n)) == And(v, UINT32_RANGE - 1 - (Pow2(n) - 1))
  {
    hide Pow2, And;
    Pow64();
    AndMask(v, n, 32);
    RoundDownMod(v, Pow2(n));
  }

  lemma LevelSizesArePowers(level: nat)
    ensures LevelSize(level) == Pow2(2 * (level + 1)) && LevelHalf(level) == Pow2(2 * level + 1)
  {
    hide Pow2;
    PowerOfFour(level);
    PowDouble(2 * level);
    PowDouble(2 * level + 1);
  }

  // 1 << (2 * (level + 1))
  function LevelSize(level: nat): (r: nat)
    ensures r >= 4
  {
    4 * Pow4(level)
  }

  function LevelHalf(level: nat): (r: nat)
    ensures r >= 2
  {
    LevelSize(level) / 2
  }

  predicate LevelShouldSpill(ledger: nat, level: nat) {
    level != NUM_LEVELS - 1 &&
    (ledger == RoundDown(ledger, LevelHalf(level)) || ledger == RoundDown(ledger, LevelSize(level)))
  }

  // The sum is a uint32_t in the source, so it may wrap.
  predicate ShouldMergeWithEmptyCurr(ledger: nat, level: nat) {
    level != 0 &&
    var mergeStartLedger := RoundDown(ledger, LevelHalf(level - 1));
    LevelShouldSpill((mergeStartLedger + LevelHalf(level - 1)) % UINT32_RANGE, level)
  }

  function BucketUpdatePeriod(level: nat, isCurr: bool): (r: nat)
    ensures r > 0
    decreases !isCurr
  {
    if !isCurr then BucketUpdatePeriod(level + 1, true)
    else if level == 0 then 1
    else 2 * Pow4(level - 1)
  }

  /** Ledgers between two changes of a level's `curr`. */
  function Period(level: nat): (r: nat)
    ensures r > 0
  {
    BucketUpdatePeriod(level, true)
  }

  lemma PeriodIsPreviousHalf(level: nat)
    ensures Period(level + 1) == LevelHalf(level)
    ensures LevelSize(level) == 2 * LevelHalf(level)
  {
  }

  /** Periods are nested: a level that changes makes every younger level change. */
  lemma PeriodNested(level: nat, ledger: nat)
    requires ledger % Period(level + 1) == 0
    ensures ledger % Period(level) == 0
  {
    if level > 0 {
      assert Period(level + 1) == Period(level) * 4;
      ModOfFactor(ledger, Period(level), 4);
    }
  }

  lemma {:induction false} PeriodNestedTo(lo: nat, hi: nat, ledger: nat)
    requires lo <= hi
    requires ledger % Period(hi) == 0
    ensures ledger % Period(lo) == 0
  {
    if lo == hi {
    } else {
      PeriodNested(hi - 1, ledger);
      PeriodNestedTo(lo, hi - 1, ledger);
    }
  }

  /** A non-last level spills exactly at the multiples of its half size, which is
      the update period of its `snap` and of the next level's `curr`. */
  lemma SpillIffMultiple(ledger: nat, level: nat)
    requires level < NUM_LEVELS
    ensures LevelShouldSpill(ledger, level) <==> level != NUM_LEVELS - 1 && ledger % Period(level + 1) == 0
    ensures BucketUpdatePeriod(level, false) == Period(level + 1)
  {
    PeriodIsPreviousHalf(level);
    RoundDownMod(ledger, LevelHalf(level));
    RoundDownMod(ledger, LevelSize(level));
    ModOfFactor(ledger, LevelHalf(level), 2);
  }

  lemma RoundDownStep(t: nat, m: nat)
    requires t >= 1 && m > 0
    ensures t % m == 0 ==> t >= m && RoundDown(t, m) == t && RoundDown(t - 1, m) == t - m
    ensures t % m != 0 ==> RoundDown(t, m) == RoundDown(t - 1, m)
  {
    hide RoundDown;
    RoundDownMod(t, m);
    RoundDownMod(t - 1, m);
    var q, r := t / m, t % m;
    DivModSplit(t, m);
    if r == 0 {
      MulLower(q, m);
      assert t - 1 == (q - 1) * m + (m - 1) by { assert (q - 1) * m == q * m - m; }
      DivModUnique(t - 1, m, q - 1, m - 1);
    } else {
      DivModUnique(t - 1, m, q, r - 1);
    }
  }

  // ---- Ledger ranges ----

  // Distance from the last change of a level's `curr` (respectively `snap`) down to
  // the newest ledger it holds: every hop down the list adds one period.
  function CurrLag(level: nat): nat
    decreases level, 0
  {
    if level == 0 then 0 else SnapLag(level - 1) + Period(level)
  }

  function SnapLag(level: nat): nat
    decreases level, 1
  {
    CurrLag(level) + Period(level)
  }

  function Monus(a: nat, b: nat): nat {
    if a >= b then a - b else 0
  }

  /** Newest ledger held by a level's `curr` after `ledger`, 0 when it holds none. */
  function NewestInCurr(ledger: nat, level: nat): nat {
    if level >= NUM_LEVELS then 0
    else Monus(RoundDown(ledger, Period(level)), CurrLag(level))
  }

  /** Newest ledger held by a level's `snap` after `ledger`, 0 when it holds none. */
  function NewestInSnap(ledger: nat, level: nat): nat {
    if level >= NUM_LEVELS - 1 then 0
    else Monus(RoundDown(ledger, Period(level + 1)), SnapLag(level))
  }

  /** What one ledger close does to the ranges of a level below the first: the level
      takes over the previous level's snap; a level that spills gives its own `curr`
      range to its `snap` first. */
  lemma RangesAdvance(t: nat, level: nat)
    requires t >= 1 && level < NUM_LEVELS
    ensures t % Period(level) != 0 ==> NewestInCurr(t, level) == NewestInCurr(t - 1, level)
    ensures LevelShouldSpill(t, level) ==> NewestInSnap(t, level) == NewestInCurr(t - 1, level)
    ensures LevelShouldSpill(t, level) ==> NewestInCurr(t, level + 1) == NewestInSnap(t - 1, level)
    ensures !LevelShouldSpill(t, level) ==> NewestInSnap(t, level) == NewestInSnap(t - 1, level)
  {
    SpillIffMultiple(t, level);
    RoundDownStep(t, Period(level));
    RoundDownStep(t, Period(level + 1));
    if LevelShouldSpill(t, level) {
      PeriodNested(level, t);
    }
  }

  lemma RangesAtStart(i: nat)
    ensures NewestInCurr(0, i) == NewestInSnap(0, i) == 0
    ensures NewestInCurr(0, i + 1) == 0
    ensures Period(i) > 0
  {
    DivModUnique(0, Period(i), 0, 0);
    DivModUnique(0, Period(i + 1), 0, 0);
  }

  lemma OlderRangeUnchanged(t: nat, i: nat)
    requires t >= 1 && i < NUM_LEVELS
    requires !LevelShouldSpill(t, i)
    ensures NewestInCurr(t, i + 1) == NewestInCurr(t - 1, i + 1)
  {
    if i + 1 < NUM_LEVELS {
      RangesAdvance(t, i + 1);
      SpillIffMultiple(t, i);
    }
  }

  lemma {:induction false} RangesOrdered(ledger: nat, level: nat)
    requires level < NUM_LEVELS
    ensures NewestInCurr(ledger, 0) == ledger
    ensures NewestInCurr(ledger, level) >= NewestInSnap(ledger, level) >= NewestInCurr(ledger, level + 1)
    decreases ledger
  {
    hide RoundDown, LevelShouldSpill, NewestInCurr, NewestInSnap, Period;
    FirstRange(ledger);
    if ledger == 0 {
      RangesAtStart(level);
    } else {
      RangesOrdered(ledger - 1, level);
      RangesAdvance(ledger, level);
      CurrAdvances(ledger, level);
      if !LevelShouldSpill(ledger, level) {
        OlderRangeUnchanged(ledger, level);
      }
    }
  }

  lemma FirstRange(ledger: nat)
    ensures NewestInCurr(ledger, 0) == ledger
  {
    hide RoundDown;
    RoundDownMod(ledger, 1);
  }

  /** What the `curr` of a level ends with never moves back. */
  lemma CurrAdvances(t: nat, level: nat)
    requires t >= 1
    ensures NewestInCurr(t, level) >= NewestInCurr(t - 1, level)
  {
    hide RoundDown, Period, CurrLag;
    RoundDownStep(t, Period(level));
  }

  lemma NextMultipleFits(v: nat, p: nat, range: nat)
    requires p > 0 && v < range && range % p == 0
    ensures v < RoundDown(v, p) + p <= range
    ensures (RoundDown(v, p) + p) % p == 0
  {
    hide RoundDown;
    RoundDownMod(v, p);
    var q, n := v / p, range / p;
    DivModSplit(v, p);
    DivModSplit(range, p);
    assert RoundDown(v, p) + p == (q + 1) * p;
    MultipleMod(q + 1, p);
    assert (q - n) * p == q * p - n * p;
    assert (n - q - 1) * p == range - (q + 1) * p;
    if q >= n {
      MulNonNegative(q - n, p);
      assert false;
    }
    MulNonNegative(n - q - 1, p);
  }

  lemma PeriodsDivideUint32Range(level: nat)
    requires level <= NUM_LEVELS
    ensures UINT32_RANGE % Period(level) == 0
  {
    assert Period(11) == 2097152;
    PeriodNestedTo(level, 11, UINT32_RANGE);
  }

  lemma SpillAfterWrap(x: nat, level: nat)
    requires x <= UINT32_RANGE && level < NUM_LEVELS
    ensures LevelShouldSpill(x % UINT32_RANGE, level) <==> LevelShouldSpill(x, level)
  {
    if x == UINT32_RANGE {
      SpillsAtZero(level);
      SpillsAtUint32Range(level);
    }
  }

  lemma SpillsAtZero(level: nat)
    ensures LevelShouldSpill(0, level) <==> level != NUM_LEVELS - 1
  {
    DivModUnique(0, LevelHalf(level), 0, 0);
  }

  lemma SpillsAtUint32Range(level: nat)
    requires level < NUM_LEVELS
    ensures LevelShouldSpill(UINT32_RANGE, level) <==> level != NUM_LEVELS - 1
  {
    PeriodsDivideUint32Range(level + 1);
    SpillIffMultiple(UINT32_RANGE, level);
  }

  /** Rounding an intermediate ledger down and stepping one period on gives the next
      change of the level, and the uint32_t wrap-around of that sum is harmless:
      a merge starts from an empty `curr` exactly when the level spills at that change. */
  lemma EmptyCurrIffSpillsAtNextChange(ledger: uint32, level: nat)
    requires 1 <= level < NUM_LEVELS
    ensures var next := RoundDown(ledger, Period(level)) + Period(level);
            && ledger < next <= UINT32_RANGE
            && next % Period(level) == 0
            && (ShouldMergeWithEmptyCurr(ledger, level) <==> LevelShouldSpill(next, level))
  {
    hide RoundDown, LevelShouldSpill;
    PeriodIsPreviousHalf(level - 1);
    PeriodsDivideUint32Range(level);
    NextMultipleFits(ledger, Period(level), UINT32_RANGE);
    SpillAfterWrap(RoundDown(ledger, Period(level)) + Period(level), level);
  }

  /** At ledger t a level commits the merge prepared one period earlier; that merge
      left `curr` out exactly when the level snaps `curr` away at t. */
  lemma EmptyCurrAdvance(t: uint32, level: nat)
    requires t >= 1 && 1 <= level < NUM_LEVELS
    ensures t % Period(level) == 0 ==> (ShouldMergeWithEmptyCurr(t - 1, level) <==> LevelShouldSpill(t, level))
    ensures t % Period(level) != 0 ==> (ShouldMergeWithEmptyCurr(t, level) <==> ShouldMergeWithEmptyCurr(t - 1, level))
  {
    hide RoundDown, LevelShouldSpill, ShouldMergeWithEmptyCurr;
    EmptyCurrIffSpillsAtNextChange(t - 1, level);
    EmptyCurrIffSpillsAtNextChange(t, level);
    RoundDownStep(t, Period(level));
  }

  lemma {:induction false} LagBound(level: nat)
    ensures SnapLag(level) < Period(level + 1)
    ensures CurrLag(level + 1) <= 2 * Period(level + 1)
    ensures CurrLag(level + 1) > Period(level + 1)
  {
    if level == 0 {
    } else {
      LagBound(level - 1);
      assert Period(level + 1) == 4 * Period(level);
    }
  }

  lemma RoundDownReaches(v: nat, m: nat)
    requires m > 0
    ensures RoundDown(v, m) != 0 <==> v >= m
    ensures v >= m ==> RoundDown(v, m) >= m
    ensures v >= 2 * m ==> RoundDown(v, m) >= 2 * m
    ensures v < 2 * m ==> RoundDown(v, m) <= m
  {
  }
}
