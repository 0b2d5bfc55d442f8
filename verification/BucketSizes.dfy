/** The recursive size functions of the bucket list, run as the source writes them,
    and proved to give the number of ledgers each bucket holds. */
module BucketSizes {
  import opened DivMod
  import opened LedgerSchedule

  function CurrSize(ledger: nat, level: nat): int {
    NewestInCurr(ledger, level) - NewestInSnap(ledger, level)
  }

  function SnapSize(ledger: nat, level: nat): int {
    NewestInSnap(ledger, level) - NewestInCurr(ledger, level + 1)
  }

  /** Once the ledger reaches a level's half, a non-last `curr` holds one incoming
      spill plus what arrived since the level last spilled. */
  lemma CurrSizeWhenFull(ledger: nat, level: nat)
    requires 1 <= level < NUM_LEVELS - 1
    requires ledger >= LevelHalf(level)
    ensures CurrSize(ledger, level)
         == RoundDown(ledger, Period(level)) - RoundDown(ledger, Period(level + 1)) + Period(level)
  {
    hide RoundDown;
    LagBound(level);
    LagBound(level - 1);
    PeriodIsPreviousHalf(level);
    RoundDownReaches(ledger, Period(level + 1));
    assert Period(level + 1) == 4 * Period(level);
    RoundDownReaches(ledger, Period(level));
  }

  /** Non-last `curr` buckets cycle through one to four previous half levels. */
  lemma CurrSizeCycles(ledger: nat, level: nat)
    requires 1 <= level < NUM_LEVELS - 1
    requires ledger >= LevelHalf(level)
    ensures var q := (ledger % LevelHalf(level)) / LevelHalf(level - 1) + 1;
            1 <= q <= 4 && CurrSize(ledger, level) == q * LevelHalf(level - 1)
  {
    CurrSizeWhenFull(ledger, level);
    var p := Period(level);
    assert LevelHalf(level - 1) == p && Period(level + 1) == LevelHalf(level) == 4 * p;
    IncomingSpills(ledger, p);
  }

  lemma IncomingSpills(v: nat, p: nat)
    requires p > 0
    ensures var q := (v % (4 * p)) / p + 1;
            1 <= q <= 4 && RoundDown(v, p) - RoundDown(v, 4 * p) + p == q * p
  {
    hide RoundDown;
    RoundDownNested(v, p, 4);
    var x := (v % (4 * p)) / p;
    assert (x + 1) * p == x * p + p;
  }

  /** Before a level's snap has been handed on, the range below it is empty. */
  lemma YoungRanges(ledger: nat, level: nat)
    requires level < NUM_LEVELS
    ensures ledger < LevelHalf(level) ==> NewestInSnap(ledger, level) == 0
    ensures ledger < LevelSize(level) ==> NewestInCurr(ledger, level + 1) == 0
    ensures ledger >= LevelSize(level) && level < NUM_LEVELS - 1 ==> SnapSize(ledger, level) == LevelHalf(level)
  {
    LagBound(level);
    PeriodIsPreviousHalf(level);
    RoundDownReaches(ledger, Period(level + 1));
  }

  /** One step of the recursion: between two changes of the level the size repeats,
      and at a change that is not a spill it grows by one incoming spill. */
  lemma CurrSizeStep(ledger: nat, level: nat)
    requires 1 <= level < NUM_LEVELS - 1
    requires ledger >= LevelHalf(level)
    requires ledger % LevelHalf(level) != 0
    ensures var prev := RoundDown(ledger - 1, Period(level));
            && LevelHalf(level) <= prev < ledger
            && CurrSize(ledger, level)
               == CurrSize(prev, level) + (if ledger % Period(level) == 0 then Period(level) else 0)
  {
    hide RoundDown, CurrSize;
    PeriodIsPreviousHalf(level);
    var p := Period(level);
    var h := Period(level + 1);
    assert h == 4 * p;
    var prev := RoundDown(ledger - 1, p);
    RoundDownStep(ledger, p);
    RoundDownStep(ledger, h);
    RoundDownReaches(ledger, h);
    RoundDownNested(ledger - 1, p, 4);
    CurrSizeWhenFull(ledger, level);
    CurrSizeWhenFull(prev, level);
  }

  lemma NestedRemainders(v: nat, p: nat, h: nat, f: nat, r: nat)
    requires p > 0 && f > 0 && h == f * p && h > 0 && r == v - v % p
    ensures v - v % h <= r <= v
    ensures r % p == 0 && r % h == r - (v - v % h)
    ensures 0 <= (v % h) / p < f
    ensures r - (v - v % h) == ((v % h) / p) * p
  {
    DivModSplit(v, h);
    var n, x := v / h, v % h;
    QuotientBelow(x, p, f);
    assert n * h == (f * n) * p;
    assert (f * n + x / p) * p == (f * n) * p + (x / p) * p;
    DivModUnique(v, p, f * n + x / p, x % p);
    MultipleMod(f * n + x / p, p);
    DivModUnique(r, h, n, (x / p) * p);
  }

  lemma RoundDownNested(v: nat, p: nat, f: nat)
    requires p > 0 && f > 0
    ensures f * p > 0
    ensures RoundDown(v, f * p) <= RoundDown(v, p) <= v
    ensures RoundDown(RoundDown(v, p), p) == RoundDown(v, p)
    ensures RoundDown(RoundDown(v, p), f * p) == RoundDown(v, f * p)
    ensures 0 <= (v % (f * p)) / p < f
    ensures RoundDown(v, p) - RoundDown(v, f * p) == ((v % (f * p)) / p) * p
  {
    hide RoundDown;
    MulLower(f, p);
    var h, r := f * p, RoundDown(v, p);
    RoundDownMod(v, p);
    NestedRemainders(v, p, h, f, r);
    RoundDownMod(v, h);
    RoundDownMod(r, p);
    RoundDownMod(r, h);
  }

  function Max4(a: nat, b: nat, c: nat, d: nat): nat {
    var ab := if a < b then b else a;
    var cd := if c < d then d else c;
    if ab < cd then cd else ab
  }

  /** The four candidate ledgers of the source collapse to the finest one. */
  lemma FinestRoundDown(v: nat, level: nat)
    requires 1 <= level
    ensures Max4(RoundDown(v, LevelHalf(level - 1)), RoundDown(v, LevelSize(level - 1)),
                 RoundDown(v, LevelHalf(level)), RoundDown(v, LevelSize(level)))
         == RoundDown(v, Period(level))
  {
    var p := Period(level);
    assert LevelHalf(level - 1) == p && LevelSize(level - 1) == 2 * p;
    assert LevelHalf(level) == 4 * p && LevelSize(level) == 8 * p;
    CoarserRoundDown(v, p, 2);
    CoarserRoundDown(v, p, 4);
    CoarserRoundDown(v, p, 8);
  }

  lemma CoarserRoundDown(v: nat, p: nat, f: nat)
    requires p > 0 && f > 0
    ensures f * p > 0
    ensures RoundDown(v, f * p) <= RoundDown(v, p)
  {
    RoundDownNested(v, p, f);
  }

  /** The latest earlier ledger at which the level changed, and what that change means
      for the size of `curr` when the level does not spill at `ledger`. */
  method PreviousRelevantLedger(ledger: uint32, level: uint32) returns (prev: uint32)
    requires 1 <= level < NUM_LEVELS - 1
    requires ledger >= LevelHalf(level) && ledger % LevelHalf(level) != 0
    ensures 0 < prev < ledger
    ensures CurrSize(ledger, level)
         == CurrSize(prev, level) + (if ledger % LevelHalf(level - 1) == 0 then LevelHalf(level - 1) else 0)
  {
    hide RoundDown, CurrSize, Pow4;
    prev := Max4(RoundDown(ledger - 1, LevelHalf(level - 1)), RoundDown(ledger - 1, LevelSize(level - 1)),
                 RoundDown(ledger - 1, LevelHalf(level)), RoundDown(ledger - 1, LevelSize(level)));
    assert prev == RoundDown(ledger - 1, Period(level)) by {
      FinestRoundDown(ledger - 1, level);
    }
    CurrSizeStep(ledger, level);
    PeriodIsPreviousHalf(level - 1);
  }

  lemma BoundaryIffMultiple(ledger: nat, level: nat)
    ensures RoundDown(ledger, LevelHalf(level)) == ledger || RoundDown(ledger, LevelSize(level)) == ledger
            <==> ledger % LevelHalf(level) == 0
  {
    hide RoundDown;
    PeriodIsPreviousHalf(level);
    RoundDownMod(ledger, LevelHalf(level));
    RoundDownMod(ledger, LevelSize(level));
    ModOfFactor(ledger, LevelHalf(level), 2);
  }

  lemma SpilledCurrSize(ledger: nat, level: nat)
    requires 1 <= level < NUM_LEVELS - 1
    requires ledger >= LevelHalf(level) && ledger % LevelHalf(level) == 0
    ensures CurrSize(ledger, level) == 2 * Pow4(level - 1)
  {
    hide RoundDown, CurrSize;
    PeriodIsPreviousHalf(level);
    CurrSizeWhenFull(ledger, level);
    PeriodNested(level, ledger);
    RoundDownMod(ledger, Period(level));
    RoundDownMod(ledger, Period(level + 1));
  }

  lemma FirstCurrSize(ledger: nat)
    requires ledger > 0
    ensures CurrSize(ledger, 0) == if ledger == 1 then 1 else 1 + ledger % 2
  {
    hide RoundDown;
    RangesOrdered(ledger, 0);
    RoundDownReaches(ledger, 2);
    RoundDownMod(ledger, 2);
  }

  lemma OldestCurrSize(ledger: nat, level: nat)
    requires level < NUM_LEVELS
    requires level == NUM_LEVELS - 1 || RoundDown(ledger, LevelHalf(level)) == 0
    ensures CurrSize(ledger, level) == NewestInCurr(ledger, level) <= ledger
  {
    RoundDownReaches(ledger, LevelHalf(level));
    YoungRanges(ledger, level);
  }

  /** Every subtraction below is checked to stay in uint32_t, so none wraps. */
  method SizeOfCurr(ledger: uint32, level: uint32) returns (r: uint32)
    requires ledger != 0 && level < NUM_LEVELS
    ensures r == CurrSize(ledger, level)
    decreases ledger, level, 1
  {
    if level == 0 {
      FirstCurrSize(ledger);
      return if ledger == 1 then 1 else 1 + ledger % 2;
    }
    if level != NUM_LEVELS - 1 && RoundDown(ledger, LevelHalf(level)) != 0 {
      r := SizeOfSpilledCurr(ledger, level);
    } else {
      OldestCurrSize(ledger, level);
      var blsize := SizeOfYoungerLevels(ledger, level);
      r := ledger - blsize;
    }
  }

  /** The branch of SizeOfCurr for a level that has spilled before. */
  method SizeOfSpilledCurr(ledger: uint32, level: uint32) returns (r: uint32)
    requires 1 <= level < NUM_LEVELS - 1
    requires RoundDown(ledger, LevelHalf(level)) != 0
    ensures r == CurrSize(ledger, level)
    decreases ledger, level, 0
  {
    hide RoundDown, Pow4;
    RoundDownReaches(ledger, LevelHalf(level));
    BoundaryIffMultiple(ledger, level);
    BoundaryIffMultiple(ledger, level - 1);
    var sizeDelta := 2 * Pow4(level - 1);
    if RoundDown(ledger, LevelHalf(level)) == ledger || RoundDown(ledger, LevelSize(level)) == ledger {
      SpilledCurrSize(ledger, level);
      return sizeDelta;
    }
    var previousRelevantLedger := PreviousRelevantLedger(ledger, level);
    r := SizeOfCurr(previousRelevantLedger, level);
    if RoundDown(ledger, LevelHalf(level - 1)) == ledger || RoundDown(ledger, LevelSize(level - 1)) == ledger {
      r := r + sizeDelta;
    }
  }

  method SizeOfSnap(ledger: uint32, level: uint32) returns (r: uint32)
    requires ledger != 0 && level < NUM_LEVELS
    ensures r == SnapSize(ledger, level)
    decreases ledger, level, 2
  {
    RangesOrdered(ledger, level);
    YoungRanges(ledger, level);
    if level == NUM_LEVELS - 1 {
      return 0;
    }
    RoundDownReaches(ledger, LevelSize(level));
    if RoundDown(ledger, LevelSize(level)) != 0 {
      r := LevelHalf(level);
    } else {
      var size := SizeOfYoungerLevels(ledger, level);
      var c := SizeOfCurr(ledger, level);
      size := size + c;
      r := ledger - size;
    }
  }

  /** The summing loop of both size functions: the younger levels hold everything
      newer than the level's `curr`. */
  method SizeOfYoungerLevels(ledger: uint32, level: uint32) returns (size: uint32)
    requires ledger != 0 && level < NUM_LEVELS
    ensures size == ledger - NewestInCurr(ledger, level)
    decreases ledger, level, 0
  {
    RangesOrdered(ledger, level);
    size := 0;
    var l: uint32 := 0;
    while l < level
      invariant l <= level
      invariant size == ledger - NewestInCurr(ledger, l)
    {
      RangesOrdered(ledger, l);
      var c := SizeOfCurr(ledger, l);
      size := size + c;
      var s := SizeOfSnap(ledger, l);
      size := size + s;
      l := l + 1;
    }
  }

  /** The oldest ledger is the one after the newest ledger of the next older bucket;
      an empty bucket reports the largest uint32_t. */
  method OldestLedgerInCurr(ledger: uint32, level: uint32) returns (r: uint32)
    requires ledger != 0 && level < NUM_LEVELS
    ensures r == if CurrSize(ledger, level) == 0 then UINT32_RANGE - 1 else NewestInSnap(ledger, level) + 1
  {
    hide NewestInCurr, NewestInSnap;
    var c := SizeOfCurr(ledger, level);
    if c == 0 {
      return UINT32_RANGE - 1;
    }
    RangesOrdered(ledger, level);
    var count: uint32 := ledger;
    var l: uint32 := 0;
    while l < level
      invariant l <= level
      invariant count == NewestInCurr(ledger, l)
    {
      RangesOrdered(ledger, l);
      c := SizeOfCurr(ledger, l);
      count := count - c;
      var s := SizeOfSnap(ledger, l);
      count := count - s;
      l := l + 1;
    }
    c := SizeOfCurr(ledger, level);
    count := count - c;
    r := count + 1;
  }

  method OldestLedgerInSnap(ledger: uint32, level: uint32) returns (r: uint32)
    requires ledger != 0 && level < NUM_LEVELS
    ensures r == if SnapSize(ledger, level) == 0 then UINT32_RANGE - 1 else NewestInCurr(ledger, level + 1) + 1
  {
    hide NewestInCurr, NewestInSnap;
    var s := SizeOfSnap(ledger, level);
    if s == 0 {
      return UINT32_RANGE - 1;
    }
    RangesOrdered(ledger, level);
    var count: uint32 := ledger;
    var l: uint32 := 0;
    while l <= level
      invariant l <= level + 1
      invariant count == NewestInCurr(ledger, l)
      invariant count <= ledger && (l == level + 1 ==> count < ledger)
    {
      RangesOrdered(ledger, l);
      var c := SizeOfCurr(ledger, l);
      count := count - c;
      s := SizeOfSnap(ledger, l);
      count := count - s;
      l := l + 1;
    }
    r := count + 1;
  }

  /** The levels whose `curr` changes at a ledger are exactly those up to the result. */
  method GetMaxMergeLevel(currLedger: uint32) returns (i: uint32)
    ensures i < NUM_LEVELS
    ensures forall level :: 0 <= level < NUM_LEVELS ==> (level <= i <==> currLedger % Period(level) == 0)
  {
    i := 0;
    while i < NUM_LEVELS - 1
      invariant i < NUM_LEVELS
      invariant currLedger % Period(i) == 0
    {
      SpillIffMultiple(currLedger, i);
      if !LevelShouldSpill(currLedger, i) {
        break;
      }
      i := i + 1;
    }
    forall level | 0 <= level < NUM_LEVELS
      ensures level <= i <==> currLedger % Period(level) == 0
    {
      if level <= i {
        PeriodNestedTo(level, i, currLedger);
      } else {
        SpillIffMultiple(currLedger, i);
        if currLedger % Period(level) == 0 {
          PeriodNestedTo(i + 1, level, currLedger);
        }
      }
    }
  }
}
