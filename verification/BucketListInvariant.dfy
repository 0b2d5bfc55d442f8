/** The invariant of every reachable bucket list, and what it gives: exact ledger
    ranges, lookups that agree with the plain map, and merges that never fail. */
module BucketListInvariant {
  import opened DivMod
  import opened Wrappers
  import opened LedgerSchedule
  import opened BucketEntries
  import opened BucketListModel
  import opened BucketHistory

  /** The `curr` that the pending merge of a level absorbs. */
  function MergeBase(ls: seq<Level>, i: nat, ledger: nat): Bucket
    requires i < |ls|
  {
    if ShouldMergeWithEmptyCurr(ledger, i) then EmptyBucket else ls[i].curr
  }

  /** The merge recomputed from what the list holds now. */
  function RecomputedMerge(ls: seq<Level>, i: nat, ledger: nat): Result<Bucket, MergeError>
    requires 1 <= i < |ls|
  {
    var snap := ls[i - 1].snap;
    MergeBuckets(MergeBase(ls, i, ledger), snap, KeepTombstoneEntries(i), Version(snap))
  }

  /** A level that has been reached has a pending merge, whatever its progress, whose
      outcome is the merge recomputed now; a level not yet reached has none. */
  ghost predicate NextInvariant(ls: seq<Level>, i: nat, ledger: nat)
    requires i < |ls|
  {
    if i == 0 || ledger < Period(i) then ls[i].next.Clear?
    else !ls[i].next.Clear? && Resolve(ls[i].next) == RecomputedMerge(ls, i, ledger)
  }

  ghost predicate LevelInvariant(ls: seq<Level>, i: nat, h: seq<Batch>)
    requires i < |ls|
  {
    && StandsFor(ls[i].curr, h, NewestInSnap(|h|, i), NewestInCurr(|h|, i))
    && StandsFor(ls[i].snap, h, NewestInCurr(|h|, i + 1), NewestInSnap(|h|, i))
    && NextInvariant(ls, i, |h|)
  }

  ghost predicate Invariant(ls: seq<Level>, h: seq<Batch>) {
    && |ls| == NUM_LEVELS
    && forall i :: 0 <= i < NUM_LEVELS ==> LevelInvariant(ls, i, h)
  }

  // ---- One ledger close, level by level ----

  /** A level after it has possibly snapped, before it commits. */
  function AfterSnap(ls: seq<Level>, i: nat, t: nat): Level
    requires i < |ls|
  {
    if LevelShouldSpill(t, i) then SnapLevel(ls[i]) else ls[i]
  }

  /** A level after the spill loop. */
  function AfterSpill(ls: seq<Level>, i: nat, t: nat, protocol: nat): Result<Level, MergeError>
    requires i < |ls|
  {
    if i == 0 || !LevelShouldSpill(t, i - 1) then Ok(AfterSnap(ls, i, t))
    else
      var committed :- CommitLevel(AfterSnap(ls, i, t));
      Ok(PrepareLevel(committed, i, t, protocol, AfterSnap(ls, i - 1, t).snap))
  }

  lemma OnlyChangingLevelsSnap(t: nat, i: nat)
    requires 1 <= i < NUM_LEVELS
    requires !LevelShouldSpill(t, i - 1)
    ensures !LevelShouldSpill(t, i)
    ensures t % Period(i) != 0
  {
    SpillIffMultiple(t, i);
    SpillIffMultiple(t, i - 1);
    if t % Period(i + 1) == 0 {
      PeriodNested(i, t);
    }
  }

  /** Counting down lets every level be described on its own. */
  lemma {:induction false} SpillDownByLevel(ls: seq<Level>, ls0: seq<Level>, i: nat, t: nat, protocol: nat)
    requires |ls| == |ls0| == NUM_LEVELS && i < NUM_LEVELS
    requires forall j :: 0 <= j < NUM_LEVELS ==> AfterSpill(ls0, j, t, protocol).Ok?
    requires forall j :: 0 <= j < i ==> ls[j] == ls0[j]
    requires ls[i] == AfterSnap(ls0, i, t)
    requires forall j :: i < j < NUM_LEVELS ==> ls[j] == AfterSpill(ls0, j, t, protocol).value
    ensures SpillDown(ls, i, t, protocol).Ok?
    ensures forall j :: 0 <= j < NUM_LEVELS
              ==> SpillDown(ls, i, t, protocol).value[j] == AfterSpill(ls0, j, t, protocol).value
    decreases i
  {
    if i == 0 {
    } else {
      assert AfterSpill(ls0, i, t, protocol).Ok?;
      if LevelShouldSpill(t, i - 1) {
        var younger := SnapLevel(ls[i - 1]);
        var committed := CommitLevel(ls[i]).value;
        var ls' := ls[i - 1 := younger][i := PrepareLevel(committed, i, t, protocol, younger.snap)];
        SpillDownByLevel(ls', ls0, i - 1, t, protocol);
      } else {
        OnlyChangingLevelsSnap(t, i);
        SpillDownByLevel(ls, ls0, i - 1, t, protocol);
      }
    }
  }

  lemma LastLevel(t: nat)
    ensures NewestInSnap(t, NUM_LEVELS - 1) == 0
    ensures NewestInCurr(t, NUM_LEVELS) == 0
    ensures !LevelShouldSpill(t, NUM_LEVELS - 1)
  {
  }

  lemma QuietLevel(t: uint32, i: nat)
    requires t >= 1 && 1 <= i < NUM_LEVELS
    requires !LevelShouldSpill(t, i - 1)
    ensures NewestInCurr(t, i) == NewestInCurr(t - 1, i)
    ensures NewestInSnap(t, i) == NewestInSnap(t - 1, i)
    ensures NewestInCurr(t, i + 1) == NewestInCurr(t - 1, i + 1)
    ensures ShouldMergeWithEmptyCurr(t, i) <==> ShouldMergeWithEmptyCurr(t - 1, i)
    ensures t < Period(i) <==> t - 1 < Period(i)
  {
    hide NewestInCurr, NewestInSnap, ShouldMergeWithEmptyCurr, LevelShouldSpill, Period;
    OnlyChangingLevelsSnap(t, i);
    LastLevel(t);
    LastLevel(t - 1);
    RangesAdvance(t, i);
    EmptyCurrAdvance(t, i);
    if i + 1 < NUM_LEVELS {
      RangesAdvance(t, i + 1);
      SpillIffMultiple(t, i);
    }
    if t == Period(i) {
      DivModUnique(t, Period(i), 1, 0);
      assert false;
    }
  }

  /** A level whose `curr` does not change at t keeps its invariant, with the same ranges. */
  lemma UnchangedLevel(ls: seq<Level>, ls': seq<Level>, i: nat, h0: seq<Batch>, h: seq<Batch>)
    requires |ls| == |ls'| == NUM_LEVELS && 1 <= i < NUM_LEVELS
    requires WellFormed(h) && |h| == |h0| + 1 && h0 <= h
    requires !LevelShouldSpill(|h|, i - 1)
    requires LevelInvariant(ls, i, h0)
    requires ls'[i] == ls[i] && ls'[i - 1].snap == ls[i - 1].snap
    ensures LevelInvariant(ls', i, h)
  {
    hide NewestInCurr, NewestInSnap, ShouldMergeWithEmptyCurr, LevelShouldSpill, Period;
    hide StandsFor, MergeBuckets;
    var t := |h|;
    QuietLevel(t, i);
    StandsForPrefix(ls[i].curr, h0, h, NewestInSnap(t, i), NewestInCurr(t, i));
    StandsForPrefix(ls[i].snap, h0, h, NewestInCurr(t, i + 1), NewestInSnap(t, i));
  }

  /** The ranges around a level that changes at t: the merge it commits covers what
      lies between its own snap and the previous level's old snap. */
  lemma ChangingLevel(t: uint32, i: nat)
    requires t >= 1 && 1 <= i < NUM_LEVELS
    requires LevelShouldSpill(t, i - 1)
    ensures NewestInCurr(t, i) == NewestInSnap(t - 1, i - 1)
    ensures NewestInSnap(t, i) == if LevelShouldSpill(t, i) then NewestInCurr(t - 1, i) else NewestInSnap(t - 1, i)
    ensures NewestInCurr(t, i + 1)
         == if LevelShouldSpill(t, i) then NewestInSnap(t - 1, i) else NewestInCurr(t - 1, i + 1)
    ensures ShouldMergeWithEmptyCurr(t - 1, i) <==> LevelShouldSpill(t, i)
    ensures t >= Period(i)
    ensures t - 1 < Period(i) ==> NewestInCurr(t, i) == NewestInSnap(t, i) == 0 && !LevelShouldSpill(t, i)
    ensures t - 1 < Period(i) ==> NewestInCurr(t - 1, i) == NewestInSnap(t - 1, i) == 0
    ensures NewestInCurr(t, i) < NewestInSnap(t, i - 1)
    ensures t - 1 >= Period(i) ==> NewestInCurr(t - 1, i) < NewestInSnap(t - 1, i - 1)
    ensures !KeepTombstoneEntries(i) ==> NewestInSnap(t, i) == 0
  {
    hide NewestInCurr, NewestInSnap, ShouldMergeWithEmptyCurr, LevelShouldSpill, Period;
    SpillIffMultiple(t, i - 1);
    SpillIffMultiple(t, i);
    LastLevel(t);
    LastLevel(t - 1);
    RangesAdvance(t, i - 1);
    RangesAdvance(t, i);
    RoundDownStep(t, Period(i));
    EmptyCurrAdvance(t, i);
    if i + 1 < NUM_LEVELS && !LevelShouldSpill(t, i) {
      RangesAdvance(t, i + 1);
    }
    if t - 1 < Period(i) {
      FirstChange(i);
      UntouchedLevel(t - 1, i);
    } else {
      SnapNonEmpty(t - 1, i - 1);
    }
    SnapNonEmpty(t, i - 1);
  }

  /** Until the previous level first spills, a level holds nothing. */
  lemma UntouchedLevel(ledger: nat, i: nat)
    requires 1 <= i < NUM_LEVELS && ledger < Period(i)
    ensures NewestInCurr(ledger, i) == 0
    ensures NewestInSnap(ledger, i) == 0
    ensures NewestInSnap(ledger, i - 1) == 0
  {
    DivModUnique(ledger, Period(i), 0, ledger);
    assert Period(i + 1) == 4 * Period(i);
    DivModUnique(ledger, Period(i + 1), 0, ledger);
  }

  lemma FirstChange(i: nat)
    requires 1 <= i < NUM_LEVELS
    ensures NewestInCurr(Period(i), i) == 0
    ensures NewestInSnap(Period(i), i) == 0
    ensures !LevelShouldSpill(Period(i), i)
  {
    var p := Period(i);
    DivModUnique(p, p, 1, 0);
    assert Period(i + 1) == 4 * p;
    DivModUnique(p, 4 * p, 0, p);
    SpillIffMultiple(p, i);
  }

  /** The pending merge that a level commits at t stands for exactly the ledgers its
      `curr` has to hold after t. */
  lemma CommittedMerge(ls: seq<Level>, i: nat, h0: seq<Batch>, h: seq<Batch>)
    requires Invariant(ls, h0) && 1 <= i < NUM_LEVELS
    requires WellFormed(h) && |h| == |h0| + 1 && h0 <= h
    requires LevelShouldSpill(|h|, i - 1)
    requires |h0| >= Period(i)
    ensures !ls[i].next.Clear? && Resolve(ls[i].next).Ok?
    ensures StandsFor(Resolve(ls[i].next).value, h, NewestInSnap(|h|, i), NewestInCurr(|h|, i))
  {
    hide NewestInCurr, NewestInSnap, ShouldMergeWithEmptyCurr, LevelShouldSpill, Period, MergeBuckets;
    var t, k := |h|, |h0|;
    ChangingLevel(t, i);
    assert LevelInvariant(ls, i, h0) && LevelInvariant(ls, i - 1, h0);
    WellFormedPrefix(h0, h);
    var snap, base := ls[i - 1].snap, MergeBase(ls, i, k);
    var lo, mid, hi := NewestInSnap(t, i), NewestInCurr(k, i), NewestInCurr(t, i);
    EmptyStandsFor(h0, mid);
    MergeStandsFor(base, snap, h0, lo, mid, hi, KeepTombstoneEntries(i), Version(snap));
    StandsForPrefix(Resolve(ls[i].next).value, h0, h, lo, hi);
  }

  /** A snap exists from the first spill of its level on. */
  lemma SnapNonEmpty(ledger: nat, i: nat)
    requires i < NUM_LEVELS - 1 && ledger >= Period(i + 1)
    ensures NewestInCurr(ledger, i + 1) < NewestInSnap(ledger, i)
  {
    LagBound(i);
    RoundDownReaches(ledger, Period(i + 1));
  }

  // ---- The invariant is kept ----

  lemma SnapAfterClose(ls: seq<Level>, i: nat, h0: seq<Batch>, h: seq<Batch>)
    requires Invariant(ls, h0) && i < NUM_LEVELS
    requires WellFormed(h) && |h| == |h0| + 1 && h0 <= h
    ensures StandsFor(AfterSnap(ls, i, |h|).snap, h, NewestInCurr(|h|, i + 1), NewestInSnap(|h|, i))
  {
    hide NewestInCurr, NewestInSnap, LevelShouldSpill, Period, StandsFor;
    var t, k := |h|, |h0|;
    assert LevelInvariant(ls, i, h0);
    StandsForPrefix(ls[i].curr, h0, h, NewestInSnap(k, i), NewestInCurr(k, i));
    StandsForPrefix(ls[i].snap, h0, h, NewestInCurr(k, i + 1), NewestInSnap(k, i));
    RangesAdvance(t, i);
    if !LevelShouldSpill(t, i) {
      OlderRangeUnchanged(t, i);
    }
  }

  /** `curr` of a changing level after the commit. */
  lemma CurrAfterClose(ls: seq<Level>, i: nat, h0: seq<Batch>, h: seq<Batch>)
    requires Invariant(ls, h0) && 1 <= i < NUM_LEVELS
    requires WellFormed(h) && |h| == |h0| + 1 && h0 <= h
    requires LevelShouldSpill(|h|, i - 1)
    ensures CommitLevel(AfterSnap(ls, i, |h|)).Ok?
    ensures StandsFor(CommitLevel(AfterSnap(ls, i, |h|)).value.curr, h, NewestInSnap(|h|, i), NewestInCurr(|h|, i))
  {
    hide NewestInCurr, NewestInSnap, LevelShouldSpill, Period, StandsFor, ShouldMergeWithEmptyCurr;
    assert LevelInvariant(ls, i, h0);
    ChangingLevel(|h|, i);
    if |h0| >= Period(i) {
      CommittedMerge(ls, i, h0, h);
    } else {
      StandsForPrefix(ls[i].curr, h0, h, 0, 0);
    }
  }

  /** A changing level starts a merge that stands, whatever maximum version it is given,
      for the merge recomputed from the new `curr` and the new snap above. */
  lemma ChangedLevel(ls: seq<Level>, ls': seq<Level>, i: nat, h0: seq<Batch>, h: seq<Batch>)
    requires Invariant(ls, h0) && 1 <= i < NUM_LEVELS && |ls'| == NUM_LEVELS
    requires WellFormed(h) && |h| == |h0| + 1 && h0 <= h
    requires LevelShouldSpill(|h|, i - 1)
    requires AfterSpill(ls, i, |h|, h[|h0|].protocol) == Ok(ls'[i])
    requires ls'[i - 1].snap == AfterSnap(ls, i - 1, |h|).snap
    ensures LevelInvariant(ls', i, h)
  {
    hide NewestInCurr, NewestInSnap, LevelShouldSpill, Period, StandsFor, ShouldMergeWithEmptyCurr, MergeBuckets;
    var t := |h|;
    CurrAfterClose(ls, i, h0, h);
    SnapAfterClose(ls, i, h0, h);
    SnapAfterClose(ls, i - 1, h0, h);
    ChangingLevel(t, i);
    LastLevelKeepsCurr(t, i);
    var mid, hi := NewestInCurr(t, i), NewestInSnap(t, i - 1);
    var lo := if ShouldMergeWithEmptyCurr(t, i) then mid else NewestInSnap(t, i);
    RangeWithin(ls'[i - 1].snap, h, mid, hi);
    assert StandsFor(MergeBase(ls', i, t), h, lo, mid) by { EmptyStandsFor(h, mid); }
    MergeStandsFor(MergeBase(ls', i, t), ls'[i - 1].snap, h, lo, mid, hi, KeepTombstoneEntries(i), h[t - 1].protocol);
  }

  lemma RangeWithin(b: Bucket, h: seq<Batch>, lo: nat, hi: nat)
    requires StandsFor(b, h, lo, hi)
    ensures lo <= hi <= |h|
    ensures lo < hi ==> Version(b) == h[hi - 1].protocol
  {
  }

  lemma LastLevelKeepsCurr(t: nat, i: nat)
    requires i < NUM_LEVELS
    ensures ShouldMergeWithEmptyCurr(t, i) ==> KeepTombstoneEntries(i)
  {
  }

  /** A level after the whole ledger close, before finished merges are resolved. */
  function ClosedLevel(ls: seq<Level>, i: nat, t: nat, batch: Batch): Result<Level, MergeError>
    requires i < |ls|
  {
    if i == 0 then
      var l := AfterSnap(ls, 0, t);
      var merged :- MergeInMemory(l.curr, Fresh(batch.protocol, batch.entries), batch.protocol);
      Ok(Level(merged, l.snap, Clear))
    else AfterSpill(ls, i, t, batch.protocol)
  }

  /** Level 0, having snapped or not, stands for the ledgers its new `curr` builds on. */
  lemma FirstLevelReady(ls: seq<Level>, h0: seq<Batch>, h: seq<Batch>)
    requires Invariant(ls, h0)
    requires WellFormed(h) && |h| == |h0| + 1 && h0 <= h
    ensures AfterSnap(ls, 0, |h|).next.Clear?
    ensures StandsFor(AfterSnap(ls, 0, |h|).curr, h, NewestInSnap(|h|, 0), |h0|)
  {
    hide NewestInCurr, NewestInSnap, LevelShouldSpill, Period, StandsFor;
    var t, k := |h|, |h0|;
    assert LevelInvariant(ls, 0, h0);
    RangesAdvance(t, 0);
    RangesOrdered(k, 0);
    EmptyStandsFor(h, k);
    StandsForPrefix(ls[0].curr, h0, h, NewestInSnap(k, 0), k);
  }

  /** Level 0 absorbs the batch, by either merge path, with the same outcome. */
  lemma AbsorbBatch(l: Level, h: seq<Batch>, lo: nat, inMemory: bool)
    requires WellFormed(h) && |h| > 0
    requires l.next.Clear? && StandsFor(l.curr, h, lo, |h| - 1)
    ensures var batch := h[|h| - 1];
            var prepared := PrepareFirstLevel(l, |h|, batch, inMemory);
            var merged := MergeInMemory(l.curr, Fresh(batch.protocol, batch.entries), batch.protocol);
            && prepared.Ok? && merged.Ok?
            && CommitLevel(prepared.value) == Ok(Level(merged.value, l.snap, Clear))
            && StandsFor(merged.value, h, lo, |h|)
  {
    hide LevelShouldSpill, Period, StandsFor;
    var k := |h| - 1;
    FreshStandsFor(h, k);
    var incoming := Fresh(h[k].protocol, h[k].entries);
    MergeStandsFor(l.curr, incoming, h, lo, k, |h|, true, h[k].protocol);
  }

  lemma SpilledList(ls: seq<Level>, h0: seq<Batch>, h: seq<Batch>)
    requires Invariant(ls, h0)
    requires WellFormed(h) && |h| == |h0| + 1 && h0 <= h
    ensures var r := SpillDown(ls, NUM_LEVELS - 1, |h|, h[|h0|].protocol);
            && r.Ok?
            && r.value[0] == AfterSnap(ls, 0, |h|)
            && (forall i :: 1 <= i < NUM_LEVELS ==> AfterSpill(ls, i, |h|, h[|h0|].protocol) == Ok(r.value[i]))
            && (forall i :: 1 <= i < NUM_LEVELS ==> LevelInvariant(r.value, i, h))
  {
    hide NewestInCurr, NewestInSnap, LevelShouldSpill, Period, StandsFor, LevelInvariant;
    var t, protocol := |h|, h[|h0|].protocol;
    forall i | 0 <= i < NUM_LEVELS
      ensures AfterSpill(ls, i, t, protocol).Ok?
    {
      if i > 0 && LevelShouldSpill(t, i - 1) {
        CurrAfterClose(ls, i, h0, h);
      }
    }
    LastLevel(t);
    SpillDownByLevel(ls, ls, NUM_LEVELS - 1, t, protocol);
    var ls' := SpillDown(ls, NUM_LEVELS - 1, t, protocol).value;
    forall i | 1 <= i < NUM_LEVELS
      ensures LevelInvariant(ls', i, h)
    {
      AfterSpillSnap(ls, i - 1, t, protocol);
      assert LevelInvariant(ls, i, h0);
      if LevelShouldSpill(t, i - 1) {
        ChangedLevel(ls, ls', i, h0, h);
      } else {
        OnlyChangingLevelsSnap(t, i);
        UnchangedLevel(ls, ls', i, h0, h);
      }
    }
  }

  lemma AfterSpillSnap(ls: seq<Level>, i: nat, t: nat, protocol: nat)
    requires i < |ls|
    requires AfterSpill(ls, i, t, protocol).Ok?
    ensures AfterSpill(ls, i, t, protocol).value.snap == AfterSnap(ls, i, t).snap
  {
  }

  /** Resolving finished merges changes no outcome. */
  lemma {:induction false} ResolveReadyKeeps(ls: seq<Level>, n: nat, ready: set<nat>)
    requires n <= |ls|
    requires forall i :: 0 <= i < |ls| && !ls[i].next.Clear? ==> Resolve(ls[i].next).Ok?
    ensures ResolveReady(ls, n, ready).Ok?
    ensures forall i :: 0 <= i < |ls| ==> SameOutcome(ls[i], ResolveReady(ls, n, ready).value[i])
  {
    if n == 0 {
    } else {
      ResolveReadyKeeps(ls, n - 1, ready);
      assert SameOutcome(ls[n - 1], ResolveReady(ls, n - 1, ready).value[n - 1]);
    }
  }

  /** Equal buckets, and pending merges with equal outcomes. */
  ghost predicate SameOutcome(a: Level, b: Level) {
    && a.curr == b.curr
    && a.snap == b.snap
    && (a.next.Clear? <==> b.next.Clear?)
    && (!a.next.Clear? ==> Resolve(a.next) == Resolve(b.next))
  }

  lemma SameOutcomeInvariant(ls: seq<Level>, ls': seq<Level>, h: seq<Batch>)
    requires Invariant(ls, h) && |ls'| == NUM_LEVELS
    requires forall i :: 0 <= i < NUM_LEVELS ==> SameOutcome(ls[i], ls'[i])
    ensures Invariant(ls', h)
  {
    hide NewestInCurr, NewestInSnap, Period, StandsFor, ShouldMergeWithEmptyCurr, MergeBuckets;
    forall i | 0 <= i < NUM_LEVELS
      ensures LevelInvariant(ls', i, h)
    {
      assert LevelInvariant(ls, i, h);
      assert SameOutcome(ls[i], ls'[i]);
      if i > 0 {
        assert SameOutcome(ls[i - 1], ls'[i - 1]);
      }
    }
  }

  /** No pending merge of a reachable list fails. */
  lemma PendingMergesSucceed(ls: seq<Level>, h: seq<Batch>, i: nat)
    requires Invariant(ls, h) && WellFormed(h) && i < NUM_LEVELS
    requires !ls[i].next.Clear?
    ensures Resolve(ls[i].next).Ok?
  {
    hide NewestInCurr, NewestInSnap, Period, StandsFor, ShouldMergeWithEmptyCurr, MergeBuckets;
    var t := |h|;
    assert LevelInvariant(ls, i, h) && LevelInvariant(ls, i - 1, h);
    LastLevel(t);
    LastLevelKeepsCurr(t, i);
    SnapNonEmpty(t, i - 1);
    var mid, hi := NewestInCurr(t, i), NewestInSnap(t, i - 1);
    var lo := if ShouldMergeWithEmptyCurr(t, i) then mid else NewestInSnap(t, i);
    RangeWithin(ls[i - 1].snap, h, mid, hi);
    assert StandsFor(MergeBase(ls, i, t), h, lo, mid) by { EmptyStandsFor(h, mid); }
    MergeStandsFor(MergeBase(ls, i, t), ls[i - 1].snap, h, lo, mid, hi, KeepTombstoneEntries(i),
                   Version(ls[i - 1].snap));
  }

  /** Closing a ledger never fails and keeps the invariant, whatever the timing. */
  lemma AddBatchKeepsInvariant(ls: seq<Level>, h0: seq<Batch>, h: seq<Batch>, timing: Timing)
    requires Invariant(ls, h0)
    requires WellFormed(h) && |h| == |h0| + 1 && h0 <= h
    ensures AddBatch(ls, |h|, h[|h0|], timing).Ok?
    ensures Invariant(AddBatch(ls, |h|, h[|h0|], timing).value, h)
    ensures forall i :: 0 <= i < NUM_LEVELS ==>
              && ClosedLevel(ls, i, |h|, h[|h0|]).Ok?
              && SameOutcome(ClosedLevel(ls, i, |h|, h[|h0|]).value, AddBatch(ls, |h|, h[|h0|], timing).value[i])
  {
    hide NewestInCurr, NewestInSnap, LevelShouldSpill, Period, StandsFor;
    hide ShouldMergeWithEmptyCurr, MergeBuckets, WellFormed, SpillDown, ResolveReady, CommitLevel, PrepareFirstLevel;
    hide AfterSpill, MergeInMemory;
    var t := |h|;
    SpilledList(ls, h0, h);
    FirstLevelReady(ls, h0, h);
    AbsorbBatch(AfterSnap(ls, 0, t), h, NewestInSnap(t, 0), timing.inMemory);
    SnapAfterClose(ls, 0, h0, h);
    var spilled := SpillDown(ls, NUM_LEVELS - 1, t, h[|h0|].protocol).value;
    var prepared := PrepareFirstLevel(spilled[0], t, h[|h0|], timing.inMemory).value;
    var ls' := spilled[0 := CommitLevel(prepared).value];
    RangesOrdered(t, 0);
    forall i | 0 <= i < NUM_LEVELS
      ensures LevelInvariant(ls', i, h)
      ensures ClosedLevel(ls, i, t, h[|h0|]) == Ok(ls'[i])
    {
      if i > 0 {
        assert AfterSpill(ls, i, t, h[|h0|].protocol) == Ok(spilled[i]);
        assert LevelInvariant(spilled, i, h);
      }
    }
    forall i | 0 <= i < NUM_LEVELS && !ls'[i].next.Clear?
      ensures Resolve(ls'[i].next).Ok?
    {
      PendingMergesSucceed(ls', h, i);
    }
    ResolveReadyKeeps(ls', NUM_LEVELS, timing.ready);
    SameOutcomeInvariant(ls', ResolveReady(ls', NUM_LEVELS, timing.ready).value, h);
  }

  lemma EmptyListInvariant()
    ensures Invariant(EmptyList(), [])
  {
    var ls := EmptyList();
    forall i | 0 <= i < NUM_LEVELS
      ensures LevelInvariant(ls, i, [])
    {
      RangesAtStart(i);
      EmptyStandsFor([], 0);
    }
  }

  lemma {:induction false} RunFromKeepsInvariant(ls: seq<Level>, h0: seq<Batch>, h: seq<Batch>, ts: seq<Timing>)
    requires Invariant(ls, h0) && |ts| == |h|
    requires WellFormed(h0 + h)
    ensures RunFrom(ls, |h0| + 1, h, ts).Ok?
    ensures Invariant(RunFrom(ls, |h0| + 1, h, ts).value, h0 + h)
    decreases |h|
  {
    if h == [] {
      assert h0 + h == h0;
    } else {
      var h1 := h0 + [h[0]];
      assert h1 + h[1..] == h0 + h;
      WellFormedPrefix(h1, h0 + h);
      AddBatchKeepsInvariant(ls, h0, h1, ts[0]);
      RunFromKeepsInvariant(AddBatch(ls, |h1|, h[0], ts[0]).value, h1, h[1..], ts[1..]);
    }
  }

  /** Safety of whole runs: no merge ever reports a malformed bucket or exceeds its
      protocol, and every bucket stands for exactly its scheduled ledger range. */
  lemma RunKeepsInvariant(h: seq<Batch>, ts: seq<Timing>)
    requires WellFormed(h) && |ts| == |h|
    ensures Run(h, ts).Ok?
    ensures Invariant(Run(h, ts).value, h)
  {
    hide RunFrom, Invariant, WellFormed;
    EmptyListInvariant();
    assert [] + h == h;
    RunFromKeepsInvariant(EmptyList(), [], h, ts);
  }
}
