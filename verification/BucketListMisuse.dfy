/** A key that is live, written by an INIT, later deleted and then left alone: whatever else
    the batches hold, closing the ledgers fails in the end, or the deletion is undone. */
module BucketListMisuse {
  import opened DivMod
  import opened Wrappers
  import opened LedgerSchedule
  import opened BucketEntries
  import opened BucketListModel
  import opened BucketHistory
  import opened BucketListInvariant
  import opened BucketListTheorems
  import opened BucketListInits

  /** Ledger t writes an INIT for a key that is live, ledger d deletes it, and no other
      ledger from t on touches it. Nothing is asked of other keys but sorted batches. */
  datatype Misuse = Misuse(h: seq<Batch>, k: LedgerKey, w: Body, t: nat, d: nat) {
    ghost predicate Valid() {
      && 1 <= t < d <= |h| < UINT32_RANGE
      && (forall j :: 0 <= j < |h| ==> Sorted(h[j].entries))
      && (forall j :: 0 <= j < t - 1 ==> KeyCreated(j))
      && StateAt(h, t - 1, k).Some?
      && Find(h[t - 1].entries, k) == Some(InitEntry(k, w))
      && Find(h[d - 1].entries, k) == Some(DeadEntry(k))
      && (forall j :: t <= j < |h| && j != d - 1 ==> Find(h[j].entries, k) == None)
    }

    ghost predicate KeyCreated(j: nat)
      requires j < |h|
    {
      var e := Find(h[j].entries, k);
      e.Some? && e.value.InitEntry? ==> StateAt(h, j, k) == None
    }

    /** What a bucket for the ledgers lo + 1 .. hi can hold for the key. With the INIT and
        without the deletion it holds the INIT, and the key was not touched before within
        those ledgers. With both, they have annihilated: it stands for the ledgers before
        the INIT. */
    ghost predicate HoldsKey(e: Option<BucketEntry>, lo: nat, hi: nat)
      requires Valid()
    {
      && lo <= hi <= |h|
      && if lo < t <= hi then
           if hi < d then LastTouch(h, lo, t - 1, k) == None && e == Some(InitEntry(k, w))
           else EntryStandsFor(e, h, lo, t - 1, k)
         else EntryStandsFor(e, h, lo, hi, k)
    }

    ghost predicate HeldBy(b: Bucket, lo: nat, hi: nat)
      requires Valid()
    {
      Sorted(Entries(b)) && HoldsKey(Find(Entries(b), k), lo, hi)
    }
  }

  // ---- The key within one bucket ----

  lemma {:induction false} Untouched(m: Misuse, lo: nat, hi: nat)
    requires m.Valid() && m.t <= lo <= hi <= |m.h|
    ensures LastTouch(m.h, lo, hi, m.k) == if lo < m.d <= hi then Some(DeadEntry(m.k)) else None
    decreases hi
  {
    if hi == lo {
    } else {
      Untouched(m, lo, hi - 1);
    }
  }

  lemma StateInside(m: Misuse, i: nat)
    requires m.Valid() && m.t <= i < m.d
    ensures StateAt(m.h, i, m.k) == Some(m.w)
  {
    StateAfterRange(m.h, m.t, i, m.k);
    Untouched(m, m.t, i);
    assert LastTouch(m.h, 0, m.t, m.k) == Some(InitEntry(m.k, m.w));
  }

  /** A merge that does not fail keeps what buckets hold for the key. */
  lemma CombineHolds(m: Misuse, older: Option<BucketEntry>, newer: Option<BucketEntry>, lo: nat, mid: nat, hi: nat)
    requires m.Valid() && m.HoldsKey(older, lo, mid) && m.HoldsKey(newer, mid, hi)
    requires Combine(older, newer).Ok?
    ensures m.HoldsKey(Combine(older, newer).value, lo, hi)
  {
    hide LastTouch;
    if hi < m.t || m.t <= lo {
      CombineStandsFor(older, newer, m.h, lo, mid, hi, m.k);
    } else if mid < m.t {
      CombineBefore(m, older, newer, lo, mid, hi);
    } else {
      CombineAfter(m, older, newer, lo, mid, hi);
    }
  }

  lemma CombineBefore(m: Misuse, older: Option<BucketEntry>, newer: Option<BucketEntry>, lo: nat, mid: nat, hi: nat)
    requires m.Valid() && m.HoldsKey(older, lo, mid) && m.HoldsKey(newer, mid, hi)
    requires mid < m.t <= hi && Combine(older, newer).Ok?
    ensures m.HoldsKey(Combine(older, newer).value, lo, hi)
  {
    hide LastTouch;
    if hi < m.d {
      StateAfterRange(m.h, mid, m.t - 1, m.k);
      StateAfterRange(m.h, lo, mid, m.k);
      LastTouchSplit(m.h, lo, mid, m.t - 1, m.k);
    } else {
      CombineStandsFor(older, newer, m.h, lo, mid, m.t - 1, m.k);
    }
  }

  lemma CombineAfter(m: Misuse, older: Option<BucketEntry>, newer: Option<BucketEntry>, lo: nat, mid: nat, hi: nat)
    requires m.Valid() && m.HoldsKey(older, lo, mid) && m.HoldsKey(newer, mid, hi)
    requires lo < m.t <= mid && Combine(older, newer).Ok?
    ensures m.HoldsKey(Combine(older, newer).value, lo, hi)
  {
    hide LastTouch;
    Untouched(m, mid, hi);
    if mid < m.d {
      StateInside(m, mid);
    }
  }

  lemma ElisionHolds(m: Misuse, e: Option<BucketEntry>, hi: nat)
    requires m.Valid() && m.HoldsKey(e, 0, hi)
    ensures m.HoldsKey(if e.Some? && IsTombstone(e.value) then None else e, 0, hi)
  {
    assert LastTouch(m.h, 0, 0, m.k) == None;
  }

  lemma MergeHeld(m: Misuse, older: Bucket, newer: Bucket, lo: nat, mid: nat, hi: nat, keep: bool)
    requires m.Valid() && m.HeldBy(older, lo, mid) && m.HeldBy(newer, mid, hi)
    requires keep || lo == 0
    requires MergeEntries(Entries(older), Entries(newer)).Ok?
    ensures var kept := Elide(MergeEntries(Entries(older), Entries(newer)).value, keep);
            Sorted(kept) && m.HoldsKey(Find(kept, m.k), lo, hi)
  {
    hide Misuse.HoldsKey, Misuse.Valid, MergeEntries, Find, Sorted;
    var o, n := Entries(older), Entries(newer);
    MergeSorted(o, n);
    MergeFind(o, n, m.k);
    CombineHolds(m, Find(o, m.k), Find(n, m.k), lo, mid, hi);
    if !keep {
      DropTombstonesFind(MergeEntries(o, n).value, m.k);
      ElisionHolds(m, Find(MergeEntries(o, n).value, m.k), hi);
    }
  }

  lemma EmptyHeld(m: Misuse, lo: nat)
    requires m.Valid() && lo <= |m.h|
    ensures m.HeldBy(EmptyBucket, lo, lo)
  {
  }

  lemma FreshHeld(m: Misuse, j: nat)
    requires m.Valid() && j < |m.h|
    ensures Sorted(m.h[j].entries) && m.HoldsKey(Find(m.h[j].entries, m.k), j, j + 1)
  {
    assert LastTouch(m.h, j, j, m.k) == None;
    assert LastTouch(m.h, j, j + 1, m.k) == Find(m.h[j].entries, m.k);
    FreshIsNet(m.h, j, m.k);
    if j < m.t - 1 {
      assert m.KeyCreated(j);
    }
  }

  // ---- The key in the whole list, after ledger n ----

  /** Where the merge pending at a level starts. */
  function PendingFrom(n: nat, i: nat): nat {
    if ShouldMergeWithEmptyCurr(n, i) then NewestInCurr(n, i) else NewestInSnap(n, i)
  }

  ghost predicate NextHolds(m: Misuse, l: Level, i: nat, n: nat)
    requires m.Valid()
  {
    if i == 0 || n < Period(i) then l.next.Clear?
    else
      && !l.next.Clear?
      && (Resolve(l.next).Ok? ==> m.HeldBy(Resolve(l.next).value, PendingFrom(n, i), NewestInSnap(n, i - 1)))
  }

  ghost predicate LevelHolds(m: Misuse, l: Level, i: nat, n: nat)
    requires m.Valid()
  {
    && m.HeldBy(l.curr, NewestInSnap(n, i), NewestInCurr(n, i))
    && m.HeldBy(l.snap, NewestInCurr(n, i + 1), NewestInSnap(n, i))
    && NextHolds(m, l, i, n)
  }

  ghost predicate ListHolds(m: Misuse, ls: seq<Level>, n: nat)
    requires m.Valid()
  {
    |ls| == NUM_LEVELS && forall i :: 0 <= i < NUM_LEVELS ==> LevelHolds(m, ls[i], i, n)
  }

  /** Where the spill loop succeeds, it did to every level what the level's own step does. */
  lemma {:induction false} SpilledByLevel(ls: seq<Level>, ls0: seq<Level>, i: nat, t: nat, protocol: nat)
    requires |ls| == |ls0| == NUM_LEVELS && i < NUM_LEVELS
    requires forall j :: 0 <= j < i ==> ls[j] == ls0[j]
    requires ls[i] == AfterSnap(ls0, i, t)
    requires SpillDown(ls, i, t, protocol).Ok?
    ensures forall j :: 0 <= j <= i ==> AfterSpill(ls0, j, t, protocol) == Ok(SpillDown(ls, i, t, protocol).value[j])
    ensures forall j :: i < j < NUM_LEVELS ==> SpillDown(ls, i, t, protocol).value[j] == ls[j]
    decreases i
  {
    hide LevelShouldSpill, CommitLevel, PrepareLevel;
    if i == 0 {
    } else if LevelShouldSpill(t, i - 1) {
      var younger := SnapLevel(ls[i - 1]);
      var committed := CommitLevel(ls[i]).value;
      var ls' := ls[i - 1 := younger][i := PrepareLevel(committed, i, t, protocol, younger.snap)];
      SpilledByLevel(ls', ls0, i - 1, t, protocol);
    } else {
      OnlyChangingLevelsSnap(t, i);
      SpilledByLevel(ls, ls0, i - 1, t, protocol);
    }
  }

  /** Resolving finished merges, where it succeeds, changes no outcome. */
  lemma {:induction false} ResolvedSame(ls: seq<Level>, n: nat, ready: set<nat>)
    requires n <= |ls| && ResolveReady(ls, n, ready).Ok?
    ensures forall i :: 0 <= i < |ls| ==> SameOutcome(ls[i], ResolveReady(ls, n, ready).value[i])
  {
    hide MergeBuckets;
    if n == 0 {
    } else {
      ResolvedSame(ls, n - 1, ready);
      assert SameOutcome(ls[n - 1], ResolveReady(ls, n - 1, ready).value[n - 1]);
    }
  }

  lemma QuietHolds(m: Misuse, l: Level, i: nat, n: nat)
    requires m.Valid() && 1 <= n <= |m.h| && 1 <= i < NUM_LEVELS
    requires LevelHolds(m, l, i, n - 1) && !LevelShouldSpill(n, i - 1)
    ensures LevelHolds(m, l, i, n)
  {
    hide NewestInCurr, NewestInSnap, ShouldMergeWithEmptyCurr, LevelShouldSpill, Period, Misuse.HeldBy;
    QuietLevel(n, i);
    RangesAdvance(n, i - 1);
  }

  /** What a level has snapped and committed when it changes. */
  lemma CommittedHolds(m: Misuse, ls: seq<Level>, i: nat, n: nat, l: Level)
    requires m.Valid() && 1 <= n <= |m.h| && 1 <= i < |ls| == NUM_LEVELS
    requires LevelHolds(m, ls[i], i, n - 1) && LevelShouldSpill(n, i - 1)
    requires CommitLevel(AfterSnap(ls, i, n)) == Ok(l)
    ensures m.HeldBy(l.curr, NewestInSnap(n, i), NewestInCurr(n, i))
    ensures m.HeldBy(l.snap, NewestInCurr(n, i + 1), NewestInSnap(n, i))
  {
    hide NewestInCurr, NewestInSnap, ShouldMergeWithEmptyCurr, LevelShouldSpill, Period, Misuse.HeldBy, MergeBuckets;
    ChangingLevel(n, i);
  }

  lemma SnapAbove(m: Misuse, ls: seq<Level>, i: nat, n: nat)
    requires m.Valid() && 1 <= n <= |m.h| && i < |ls| == NUM_LEVELS
    requires LevelHolds(m, ls[i], i, n - 1)
    ensures m.HeldBy(AfterSnap(ls, i, n).snap, NewestInCurr(n, i + 1), NewestInSnap(n, i))
  {
    hide NewestInCurr, NewestInSnap, LevelShouldSpill, Misuse.HeldBy, NextHolds;
    RangesAdvance(n, i);
    if !LevelShouldSpill(n, i) {
      OlderRangeUnchanged(n, i);
    }
  }

  lemma PreparedHolds(m: Misuse, l: Level, snap: Bucket, i: nat, n: nat, protocol: nat)
    requires m.Valid() && 1 <= n <= |m.h| && 1 <= i < NUM_LEVELS && LevelShouldSpill(n, i - 1)
    requires m.HeldBy(l.curr, NewestInSnap(n, i), NewestInCurr(n, i))
    requires m.HeldBy(snap, NewestInCurr(n, i), NewestInSnap(n, i - 1))
    ensures NextHolds(m, PrepareLevel(l, i, n, protocol, snap), i, n)
  {
    hide NewestInCurr, NewestInSnap, ShouldMergeWithEmptyCurr, LevelShouldSpill, Period, Misuse.HeldBy, MergeEntries;
    ChangingLevel(n, i);
    LastLevelKeepsCurr(n, i);
    var base := if ShouldMergeWithEmptyCurr(n, i) then EmptyBucket else l.curr;
    var keep := KeepTombstoneEntries(i);
    assert m.HeldBy(base, PendingFrom(n, i), NewestInCurr(n, i)) by {
      HeldWithin(m, l.curr, NewestInSnap(n, i), NewestInCurr(n, i));
      EmptyHeld(m, NewestInCurr(n, i));
    }
    var merged := MergeEntries(Entries(base), Entries(snap));
    if merged.Ok? {
      MergeHeld(m, base, snap, PendingFrom(n, i), NewestInCurr(n, i), NewestInSnap(n, i - 1), keep);
      OutputHeld(m, Max(Version(base), Version(snap)), Elide(merged.value, keep),
                 PendingFrom(n, i), NewestInSnap(n, i - 1));
    }
  }

  lemma HeldWithin(m: Misuse, b: Bucket, lo: nat, hi: nat)
    requires m.Valid() && m.HeldBy(b, lo, hi)
    ensures lo <= hi <= |m.h|
  {
  }

  lemma OutputHeld(m: Misuse, version: nat, es: seq<BucketEntry>, lo: nat, hi: nat)
    requires m.Valid() && Sorted(es) && m.HoldsKey(Find(es, m.k), lo, hi)
    ensures m.HeldBy(OutputBucket(version, es), lo, hi)
  {
  }

  lemma ChangedHolds(m: Misuse, ls: seq<Level>, i: nat, n: nat, protocol: nat, l: Level)
    requires m.Valid() && 1 <= n <= |m.h| && 1 <= i < |ls| == NUM_LEVELS
    requires LevelHolds(m, ls[i], i, n - 1) && LevelHolds(m, ls[i - 1], i - 1, n - 1)
    requires LevelShouldSpill(n, i - 1) && AfterSpill(ls, i, n, protocol) == Ok(l)
    ensures LevelHolds(m, l, i, n)
  {
    hide NewestInCurr, NewestInSnap, LevelShouldSpill, Misuse.HeldBy, NextHolds, CommitLevel, AfterSnap;
    var committed := CommitLevel(AfterSnap(ls, i, n)).value;
    CommittedHolds(m, ls, i, n, committed);
    SnapAbove(m, ls, i - 1, n);
    PreparedHolds(m, committed, AfterSnap(ls, i - 1, n).snap, i, n, protocol);
  }

  /** Level 0 takes in the batch of ledger n. */
  lemma AbsorbHolds(m: Misuse, l: Level, n: nat, inMemory: bool, l': Level, lo: nat)
    requires m.Valid() && 1 <= n <= |m.h|
    requires l.next.Clear? && m.HeldBy(l.curr, lo, n - 1) && Absorb(l, n, m.h[n - 1], inMemory) == Ok(l')
    ensures l'.next.Clear? && l'.snap == l.snap && m.HeldBy(l'.curr, lo, n)
  {
    hide Misuse.HeldBy, Misuse.Valid, MergeEntries, Sorted, Find, Misuse.HoldsKey;
    var batch := m.h[n - 1];
    var fresh' := Fresh(batch.protocol, batch.entries);
    FreshHeld(m, n - 1);
    OutputHeld(m, batch.protocol, batch.entries, n - 1, n);
    MergeHeld(m, l.curr, fresh', lo, n - 1, n, true);
    var merged := MergeEntries(Entries(l.curr), Entries(fresh')).value;
    OutputHeld(m, batch.protocol, merged, lo, n);
    OutputHeld(m, Max(Version(l.curr), Version(fresh')), merged, lo, n);
  }

  lemma FirstReady(m: Misuse, ls: seq<Level>, n: nat)
    requires m.Valid() && 1 <= n <= |m.h| && |ls| == NUM_LEVELS && LevelHolds(m, ls[0], 0, n - 1)
    ensures AfterSnap(ls, 0, n).next.Clear? && m.HeldBy(AfterSnap(ls, 0, n).curr, NewestInSnap(n, 0), n - 1)
  {
    hide NewestInCurr, NewestInSnap, LevelShouldSpill, Misuse.HeldBy, Period;
    RangesAdvance(n, 0);
    RangesOrdered(n - 1, 0);
    EmptyHeld(m, n - 1);
  }

  lemma SameHolds(m: Misuse, a: Level, b: Level, i: nat, n: nat)
    requires m.Valid() && LevelHolds(m, a, i, n) && SameOutcome(a, b)
    ensures LevelHolds(m, b, i, n)
  {
    hide NewestInCurr, NewestInSnap, Period, Misuse.HeldBy, Resolve, PendingFrom;
  }

  /** Closing a ledger, where it succeeds, keeps what the list holds for the key. */
  lemma AddBatchHolds(m: Misuse, ls: seq<Level>, n: nat, timing: Timing)
    requires m.Valid() && 1 <= n <= |m.h| && ListHolds(m, ls, n - 1) && |ls| == NUM_LEVELS
    requires AddBatch(ls, n, m.h[n - 1], timing).Ok?
    ensures ListHolds(m, AddBatch(ls, n, m.h[n - 1], timing).value, n)
  {
    hide NewestInCurr, NewestInSnap, LevelShouldSpill, LevelHolds, SpillDown, ResolveReady, AfterSnap, AfterSpill;
    hide PrepareFirstLevel, CommitLevel, Misuse.Valid;
    var batch := m.h[n - 1];
    var spilled := SpillDown(ls, NUM_LEVELS - 1, n, batch.protocol).value;
    SpilledFacts(ls, n, batch.protocol);
    var l0 := Absorb(spilled[0], n, batch, timing.inMemory).value;
    var ls' := spilled[0 := l0];
    forall i | 0 <= i < NUM_LEVELS
      ensures LevelHolds(m, ls'[i], i, n)
    {
      if i == 0 {
        FirstHolds(m, ls, n, timing.inMemory, l0);
      } else if LevelShouldSpill(n, i - 1) {
        ChangedHolds(m, ls, i, n, batch.protocol, spilled[i]);
      } else {
        UnchangedAfterSpill(ls, i, n, batch.protocol);
        QuietHolds(m, ls[i], i, n);
      }
    }
    ResolvedSame(ls', NUM_LEVELS, timing.ready);
    var r := ResolveReady(ls', NUM_LEVELS, timing.ready).value;
    forall i | 0 <= i < NUM_LEVELS
      ensures LevelHolds(m, r[i], i, n)
    {
      SameHolds(m, ls'[i], r[i], i, n);
    }
  }

  lemma SpilledFacts(ls: seq<Level>, n: nat, protocol: nat)
    requires |ls| == NUM_LEVELS && SpillDown(ls, NUM_LEVELS - 1, n, protocol).Ok?
    ensures var r := SpillDown(ls, NUM_LEVELS - 1, n, protocol).value;
            && r[0] == AfterSnap(ls, 0, n)
            && forall i :: 0 <= i < NUM_LEVELS ==> AfterSpill(ls, i, n, protocol) == Ok(r[i])
  {
    hide SpillDown, LevelShouldSpill, CommitLevel, PrepareLevel;
    LastLevel(n);
    SpilledByLevel(ls, ls, NUM_LEVELS - 1, n, protocol);
    assert AfterSpill(ls, 0, n, protocol) == Ok(AfterSnap(ls, 0, n));
  }

  lemma UnchangedAfterSpill(ls: seq<Level>, i: nat, n: nat, protocol: nat)
    requires 1 <= i < |ls| == NUM_LEVELS && !LevelShouldSpill(n, i - 1)
    ensures AfterSpill(ls, i, n, protocol) == Ok(ls[i])
  {
    hide LevelShouldSpill;
    OnlyChangingLevelsSnap(n, i);
  }

  lemma FirstHolds(m: Misuse, ls: seq<Level>, n: nat, inMemory: bool, l: Level)
    requires m.Valid() && 1 <= n <= |m.h| && |ls| == NUM_LEVELS && LevelHolds(m, ls[0], 0, n - 1)
    requires Absorb(AfterSnap(ls, 0, n), n, m.h[n - 1], inMemory) == Ok(l)
    ensures LevelHolds(m, l, 0, n)
  {
    hide NewestInCurr, NewestInSnap, AfterSnap, Absorb, Misuse.HeldBy;
    FirstReady(m, ls, n);
    SnapAbove(m, ls, 0, n);
    AbsorbHolds(m, AfterSnap(ls, 0, n), n, inMemory, l, NewestInSnap(n, 0));
    RangesOrdered(n, 0);
  }

  lemma EmptyListHolds(m: Misuse)
    requires m.Valid()
    ensures ListHolds(m, EmptyList(), 0)
  {
    hide Misuse.HeldBy, Misuse.Valid, NewestInCurr, NewestInSnap;
    EmptyHeld(m, 0);
    forall i | 0 <= i < NUM_LEVELS
      ensures LevelHolds(m, EmptyList()[i], i, 0)
    {
      RangesAtStart(i);
    }
  }

  lemma {:induction false} RunHolds(m: Misuse, n: nat, ts: seq<Timing>)
    requires m.Valid() && n <= |m.h| && |ts| == n && Run(m.h[..n], ts).Ok?
    ensures ListHolds(m, Run(m.h[..n], ts).value, n)
    decreases n
  {
    hide Run, AddBatch, ListHolds, Misuse.Valid;
    if n == 0 {
      EmptyListHolds(m);
      assert m.h[..0] == [];
      NoRun(ts);
    } else {
      assert m.h[..n] == m.h[..n - 1] + [m.h[n - 1]];
      RunSnoc(m.h[..n - 1], m.h[n - 1], ts);
      RunHolds(m, n - 1, ts[..n - 1]);
      AddBatchHolds(m, Run(m.h[..n - 1], ts[..n - 1]).value, n, ts[n - 1]);
    }
  }

  lemma NoRun(ts: seq<Timing>)
    requires ts == []
    ensures Run([], ts) == Ok(EmptyList())
  {
  }

  // ---- What the list has forgotten ----

  const DEEPEST: nat := NUM_LEVELS - 1

  lemma {:induction false} YoungerReach(n: nat, i: nat)
    requires i <= DEEPEST
    ensures NewestInCurr(n, i) >= NewestInCurr(n, DEEPEST)
    decreases DEEPEST - i
  {
    hide NewestInCurr, NewestInSnap;
    if i == DEEPEST {
    } else {
      YoungerReach(n, i + 1);
      RangesOrdered(n, i);
    }
  }

  /** After three periods of the last level, a ledger has reached it. */
  lemma ReachesDeepest(n: nat, d: nat)
    requires n >= d + 3 * Period(DEEPEST)
    ensures NewestInCurr(n, DEEPEST) >= d
  {
    hide RoundDown, Period;
    LagBound(DEEPEST - 1);
    RoundDownMod(n, Period(DEEPEST));
    DivModSplit(n, Period(DEEPEST));
  }

  lemma NothingHeld(m: Misuse, e: Option<BucketEntry>, lo: nat, hi: nat)
    requires m.Valid() && m.d <= lo && m.HoldsKey(e, lo, hi)
    ensures e == None
  {
    hide LastTouch;
    Untouched(m, lo, hi);
  }

  /** Once the last level holds the deletion, lookups find what there was before the INIT. */
  lemma DeepestHolds(m: Misuse, e: Option<BucketEntry>, hi: nat)
    requires m.Valid() && m.d <= hi && m.HoldsKey(e, 0, hi)
    ensures Loaded(e) == StateAt(m.h, m.t - 1, m.k) && e.Some?
  {
  }

  lemma {:induction false} LookupUncovers(m: Misuse, ls: seq<Level>, n: nat, i: nat)
    requires m.Valid() && |ls| == NUM_LEVELS && ListHolds(m, ls, n) && i < NUM_LEVELS
    requires NewestInCurr(n, DEEPEST) >= m.d
    ensures Loaded(LookupFrom(ls, i, m.k)) == StateAt(m.h, m.t - 1, m.k)
    decreases NUM_LEVELS - i
  {
    hide NewestInCurr, NewestInSnap, NextHolds, Find, LastTouch, Sorted, StateAt, Misuse.Valid, Misuse.HoldsKey;
    assert LevelHolds(m, ls[i], i, n);
    LastLevel(n);
    if i == DEEPEST {
      DeepestHolds(m, Find(Entries(ls[i].curr), m.k), NewestInCurr(n, i));
    } else {
      LookupUncovers(m, ls, n, i + 1);
      YoungerReach(n, i + 1);
      RangesOrdered(n, i);
      NothingHeld(m, Find(Entries(ls[i].curr), m.k), NewestInSnap(n, i), NewestInCurr(n, i));
      NothingHeld(m, Find(Entries(ls[i].snap), m.k), NewestInCurr(n, i + 1), NewestInSnap(n, i));
    }
  }

  /** An INIT over a live key does not stay hidden: after the deletion and three periods of
      the last level, under every timing, a close has failed or the old value is back. */
  lemma MisuseShows(m: Misuse, ts: seq<Timing>)
    requires m.Valid() && |ts| == |m.h| >= m.d + 3 * Period(DEEPEST)
    ensures MapGet(Replay(m.h), m.k) == None
    ensures var r := Run(m.h, ts);
            r.Err? || (Lookup(r.value, m.k) == StateAt(m.h, m.t - 1, m.k) && Lookup(r.value, m.k).Some?)
  {
    hide Run, ListHolds, NewestInCurr, LastTouch, Replay;
    StateAfterRange(m.h, m.t, |m.h|, m.k);
    Untouched(m, m.t, |m.h|);
    StateIsReplay(m.h, m.k);
    if Run(m.h, ts).Ok? {
      assert m.h[..|m.h|] == m.h;
      RunHolds(m, |m.h|, ts);
      ReachesDeepest(|m.h|, m.d);
      assert |Run(m.h, ts).value| == NUM_LEVELS;
      LookupUncovers(m, Run(m.h, ts).value, |m.h|, 0);
    }
  }

  // ---- Deletions last exactly when INIT entries create ----

  /** A history, a batch, the deletion of a key, and n ledgers more without entries. */
  function WithDeletion(h: seq<Batch>, b: Batch, protocol: nat, k: LedgerKey, n: nat): seq<Batch> {
    h + [b] + [Batch(protocol, [DeadEntry(k)])] + seq(n, _ => Batch(protocol, []))
  }

  function Blanks(h: seq<Batch>, b: Batch, protocol: nat, n: nat): seq<Batch> {
    h + [Blank(b)] + [Batch(protocol, [])] + seq(n, _ => Batch(protocol, []))
  }

  ghost predicate StaysDeleted(h: seq<Batch>, b: Batch, protocol: nat, k: LedgerKey, n: nat, ts: seq<Timing>)
    requires |ts| == |h| + 2 + n
  {
    var h' := WithDeletion(h, b, protocol, k, n);
    Run(h', ts).Ok? && Lookup(Run(h', ts).value, k) == MapGet(Replay(h'), k) == None
  }

  lemma DeletionWellFormed(h: seq<Batch>, b: Batch, protocol: nat, k: LedgerKey, n: nat)
    requires WellFormed(Blanks(h, b, protocol, n)) && Sorted(b.entries) && InitsCreate(h + [b], |h|)
    ensures WellFormed(WithDeletion(h, b, protocol, k, n))
  {
    hide LastTouch;
    var blanks, h' := Blanks(h, b, protocol, n), WithDeletion(h, b, protocol, k, n);
    assert forall j :: 0 <= j < |h'| ==> h'[j].protocol == blanks[j].protocol;
    assert h <= blanks && h + [b] <= h';
    forall j | 0 <= j < |h'|
      ensures InitsCreate(h', j)
    {
      assert InitsCreate(blanks, j);
      forall e | e in h'[j].entries && e.InitEntry?
        ensures StateAt(h', j, e.key) == None
      {
        if j < |h| {
          assert h'[j] == blanks[j];
          LastTouchPrefix(h, blanks, 0, j, e.key);
          LastTouchPrefix(h, h', 0, j, e.key);
        } else {
          LastTouchPrefix(h + [b], h', 0, j, e.key);
        }
      }
    }
  }

  lemma DeletionBatches(h: seq<Batch>, b: Batch, protocol: nat, k: LedgerKey, n: nat)
    ensures var h' := WithDeletion(h, b, protocol, k, n);
            && |h'| == |h| + 2 + n == |Blanks(h, b, protocol, n)|
            && h <= h' && h <= Blanks(h, b, protocol, n)
            && h'[|h|] == b && Find(h'[|h| + 1].entries, k) == Some(DeadEntry(k)) && Sorted(h'[|h| + 1].entries)
            && forall j :: |h| + 2 <= j < |h'| ==> Find(h'[j].entries, k) == None && Sorted(h'[j].entries)
  {
  }

  lemma DeletionSorted(h: seq<Batch>, b: Batch, protocol: nat, k: LedgerKey, n: nat)
    requires WellFormed(h) && Sorted(b.entries)
    ensures forall j :: 0 <= j < |h| + 2 + n ==> Sorted(WithDeletion(h, b, protocol, k, n)[j].entries)
  {
    hide WithDeletion, Sorted, Find, Blanks;
    DeletionBatches(h, b, protocol, k, n);
    SortedBatches(h, h);
    var h' := WithDeletion(h, b, protocol, k, n);
    assert forall j :: 0 <= j < |h| ==> h'[j] == h[j];
  }

  lemma KeysCreated(m: Misuse, h: seq<Batch>, j: nat)
    requires WellFormed(h) && h <= m.h && j < |h|
    ensures m.KeyCreated(j)
  {
    hide LastTouch;
    assert m.h[j] == h[j];
    assert InitsCreate(h, j);
    LastTouchPrefix(h, m.h, 0, j, m.k);
  }

  lemma DeletionMisuse(h: seq<Batch>, b: Batch, protocol: nat, k: LedgerKey, w: Body, n: nat)
    requires WellFormed(Blanks(h, b, protocol, n)) && Sorted(b.entries)
    requires InitEntry(k, w) in b.entries && MapGet(Replay(h), k).Some?
    ensures Misuse(WithDeletion(h, b, protocol, k, n), k, w, |h| + 1, |h| + 2).Valid()
  {
    hide LastTouch, Replay, WithDeletion, Blanks, WellFormed, Misuse.KeyCreated, Sorted, Find;
    var blanks, h' := Blanks(h, b, protocol, n), WithDeletion(h, b, protocol, k, n);
    var m := Misuse(h', k, w, |h| + 1, |h| + 2);
    DeletionBatches(h, b, protocol, k, n);
    WellFormedPrefix(h, blanks);
    FewLedgers(blanks);
    DeletionSorted(h, b, protocol, k, n);
    assert StateAt(h', |h|, k).Some? by {
      SortedBatches(h, h);
      StateIsReplay(h, k);
      LastTouchPrefix(h, h', 0, |h|, k);
    }
    FindMember(b.entries, InitEntry(k, w));
    forall j | 0 <= j < |h|
      ensures m.KeyCreated(j)
    {
      KeysCreated(m, h, j);
    }
  }

  lemma FewLedgers(h: seq<Batch>)
    requires WellFormed(h)
    ensures |h| < UINT32_RANGE
  {
  }

  /** At every ledger, deletions right after a batch last exactly when the INIT entries of
      the batch create absent keys. */
  lemma DeletionsLastIffInitsCreate(h: seq<Batch>, b: Batch, protocol: nat, n: nat, ts: seq<Timing>)
    requires WellFormed(Blanks(h, b, protocol, n)) && Sorted(b.entries)
    requires n >= 3 * Period(DEEPEST) && |ts| == |h| + 2 + n
    ensures (forall k :: StaysDeleted(h, b, protocol, k, n, ts)) <==> InitsCreate(h + [b], |h|)
  {
    hide Run, Lookup, Replay, WellFormed, InitsCreate, Period, Misuse.Valid, Sorted;
    if InitsCreate(h + [b], |h|) {
      forall k
        ensures StaysDeleted(h, b, protocol, k, n, ts)
      {
        var h' := WithDeletion(h, b, protocol, k, n);
        DeletionWellFormed(h, b, protocol, k, n);
        LookupIsReplay(h', ts, k);
        DeletedInReplay(h, b, protocol, k, n);
      }
    } else {
      SortedBatches(h, Blanks(h, b, protocol, n));
      var k, w := LiveInit(h, b);
      DeletionMisuse(h, b, protocol, k, w, n);
      MisuseShows(Misuse(WithDeletion(h, b, protocol, k, n), k, w, |h| + 1, |h| + 2), ts);
      assert !StaysDeleted(h, b, protocol, k, n, ts);
    }
  }

  lemma {:induction false} DeletedInReplay(h: seq<Batch>, b: Batch, protocol: nat, k: LedgerKey, n: nat)
    ensures MapGet(Replay(WithDeletion(h, b, protocol, k, n)), k) == None
    decreases n
  {
    hide Replay;
    var h' := WithDeletion(h, b, protocol, k, n);
    if n == 0 {
      assert h' == h + [b] + [Batch(protocol, [DeadEntry(k)])];
      DeadNotReplayed(h + [b], Batch(protocol, [DeadEntry(k)]), k);
    } else {
      DeletedInReplay(h, b, protocol, k, n - 1);
      assert h'[..|h'| - 1] == WithDeletion(h, b, protocol, k, n - 1);
      ReplayLast(h');
    }
  }
}
