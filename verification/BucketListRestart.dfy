/** Restarting merges from the buckets alone, and independence from merge timing. */
module BucketListRestart {
  import opened DivMod
  import opened Wrappers
  import opened LedgerSchedule
  import opened BucketEntries
  import opened BucketListModel
  import opened BucketHistory
  import opened BucketListInvariant

  /** Levels i and up: a level without a pending merge gets the one it would have had.
      The scan stops at the first such level whose incoming snap is empty. */
  function RestartFrom(ls: seq<Level>, i: nat, ledger: nat): (r: Result<seq<Level>, MergeError>)
    requires i <= |ls| == NUM_LEVELS
    ensures r.Ok? ==> |r.value| == NUM_LEVELS
    decreases NUM_LEVELS - i
  {
    if i == NUM_LEVELS then Ok(ls)
    else if ls[i].next.Clear? && i > 0 then
      var snap := ls[i - 1].snap;
      if snap.EmptyBucket? then Ok(ls)
      else if Version(snap) < FIRST_PROTOCOL_SHADOWS_REMOVED then Err(ShadowedProtocol)
      else
        var mergeStartLedger := RoundDown(ledger, LevelHalf(i - 1));
        RestartFrom(ls[i := PrepareLevel(ls[i], i, mergeStartLedger, Version(snap), snap)], i + 1, ledger)
    else RestartFrom(ls, i + 1, ledger)
  }

  function RestartMerges(ls: seq<Level>, ledger: nat): (r: Result<seq<Level>, MergeError>)
    requires |ls| == NUM_LEVELS
    ensures r.Ok? ==> |r.value| == NUM_LEVELS
  {
    RestartFrom(ls, 0, ledger)
  }

  /** Some pending merges of a list are forgotten; nothing else changes. */
  ghost predicate MergesForgotten(ls: seq<Level>, ls': seq<Level>) {
    && |ls'| == |ls|
    && forall i :: 0 <= i < |ls| ==> ls'[i] == ls[i] || ls'[i] == ls[i].(next := Clear)
  }

  ghost predicate SameList(ls: seq<Level>, ls': seq<Level>) {
    && |ls'| == |ls|
    && forall i :: 0 <= i < |ls| ==> SameOutcome(ls[i], ls'[i])
  }

  lemma SameStartLedger(ledger: uint32, i: nat)
    requires 1 <= i < NUM_LEVELS
    ensures ShouldMergeWithEmptyCurr(RoundDown(ledger, LevelHalf(i - 1)), i) <==> ShouldMergeWithEmptyCurr(ledger, i)
  {
    hide LevelShouldSpill, RoundDown, LevelHalf;
    var m := LevelHalf(i - 1);
    RoundDownMod(ledger, m);
    RoundDownMod(RoundDown(ledger, m), m);
    DivModSplit(ledger, m);
    MultipleMod(ledger / m, m);
  }

  /** The level whose incoming snap is empty, and every older one, is untouched. */
  lemma UntouchedFrom(ls: seq<Level>, h: seq<Batch>, i: nat, j: nat)
    requires Invariant(ls, h) && 1 <= i <= j < NUM_LEVELS
    requires ls[i - 1].snap.EmptyBucket?
    ensures ls[j] == Level(EmptyBucket, EmptyBucket, Clear)
  {
    hide NewestInCurr, NewestInSnap, Period;
    var k := |h|;
    assert LevelInvariant(ls, i - 1, h) && LevelInvariant(ls, j, h);
    if k >= Period(i) {
      SnapNonEmpty(k, i - 1);
      assert false;
    }
    PeriodsGrow(i, j);
    UntouchedLevel(k, j);
    if j + 1 < NUM_LEVELS {
      PeriodsGrow(i, j + 1);
      UntouchedLevel(k, j + 1);
    } else {
      LastLevel(k);
    }
  }

  lemma {:induction false} PeriodsGrow(i: nat, j: nat)
    requires 1 <= i <= j
    ensures Period(i) <= Period(j)
  {
    if i == j {
    } else {
      PeriodsGrow(i, j - 1);
      assert Period(j) == 4 * Period(j - 1);
    }
  }

  /** A level reached by the schedule whose merge is gone gets an equivalent one. */
  lemma RestartedLevel(ls: seq<Level>, h: seq<Batch>, i: nat)
    requires Invariant(ls, h) && WellFormed(h) && 1 <= i < NUM_LEVELS
    requires !ls[i - 1].snap.EmptyBucket?
    ensures Version(ls[i - 1].snap) >= FIRST_PROTOCOL_SHADOWS_REMOVED
    ensures var snap := ls[i - 1].snap;
            var start := RoundDown(|h|, LevelHalf(i - 1));
            SameOutcome(ls[i], PrepareLevel(ls[i].(next := Clear), i, start, Version(snap), snap))
  {
    hide NewestInCurr, NewestInSnap, Period, ShouldMergeWithEmptyCurr, MergeBuckets;
    var k := |h|;
    assert LevelInvariant(ls, i - 1, h) && LevelInvariant(ls, i, h);
    if k < Period(i) {
      UntouchedLevel(k, i);
      assert false;
    }
    SameStartLedger(k, i);
  }

  lemma {:induction false} RestartFromRestores(ls: seq<Level>, ls': seq<Level>, h: seq<Batch>, i: nat)
    requires Invariant(ls, h) && WellFormed(h) && i <= NUM_LEVELS && |ls'| == NUM_LEVELS
    requires forall j :: 0 <= j < i ==> SameOutcome(ls[j], ls'[j])
    requires forall j :: i <= j < NUM_LEVELS ==> ls'[j] == ls[j] || ls'[j] == ls[j].(next := Clear)
    ensures RestartFrom(ls', i, |h|).Ok?
    ensures SameList(ls, RestartFrom(ls', i, |h|).value)
    decreases NUM_LEVELS - i
  {
    hide PrepareLevel, LevelInvariant;
    if i == NUM_LEVELS {
    } else {
      if ls'[i].next.Clear? && i > 0 {
        assert ls'[i - 1].snap == ls[i - 1].snap;
        var snap := ls[i - 1].snap;
        if snap.EmptyBucket? {
          forall j | i <= j < NUM_LEVELS
            ensures SameOutcome(ls[j], ls'[j])
          {
            UntouchedFrom(ls, h, i, j);
          }
        } else {
          RestartedLevel(ls, h, i);
          var start := RoundDown(|h|, LevelHalf(i - 1));
          assert ls'[i] == ls[i].(next := Clear);
          RestartFromRestores(ls, ls'[i := PrepareLevel(ls'[i], i, start, Version(snap), snap)], h, i + 1);
        }
      } else {
        assert i == 0 ==> ls[0].next.Clear? by { FirstLevelClear(ls, h); }
        RestartFromRestores(ls, ls', h, i + 1);
      }
    }
  }

  lemma FirstLevelClear(ls: seq<Level>, h: seq<Batch>)
    requires Invariant(ls, h)
    ensures ls[0].next.Clear?
  {
    assert LevelInvariant(ls, 0, h);
  }

  /** After any set of pending merges is lost, restarting rebuilds merges with the same
      outcomes, and never trips the protocol check. */
  lemma RestartRestores(ls: seq<Level>, ls': seq<Level>, h: seq<Batch>)
    requires Invariant(ls, h) && WellFormed(h)
    requires MergesForgotten(ls, ls')
    ensures RestartMerges(ls', |h|).Ok?
    ensures SameList(ls, RestartMerges(ls', |h|).value)
  {
    RestartFromRestores(ls, ls', h, 0);
  }

  /** The scan from level i on gets to level n, finds no merge there, and the snap it would
      merge dates from before protocol 12. */
  ghost predicate RefusedAt(ls: seq<Level>, i: nat, n: nat)
    requires |ls| == NUM_LEVELS
  {
    && 1 <= n && i <= n < NUM_LEVELS && ls[n].next.Clear?
    && !ls[n - 1].snap.EmptyBucket? && Version(ls[n - 1].snap) < 12
    && forall j :: 1 <= j && i <= j < n && ls[j].next.Clear? ==> !ls[j - 1].snap.EmptyBucket?
  }

  ghost predicate Refused(ls: seq<Level>, i: nat)
    requires |ls| == NUM_LEVELS
  {
    exists n: nat :: RefusedAt(ls, i, n)
  }

  lemma {:induction false} RestartFromRefusedIff(ls: seq<Level>, i: nat, ledger: nat)
    requires i <= |ls| == NUM_LEVELS
    ensures RestartFrom(ls, i, ledger).Err? <==> Refused(ls, i)
    decreases NUM_LEVELS - i
  {
    if i == NUM_LEVELS {
    } else if ls[i].next.Clear? && i > 0 {
      var snap := ls[i - 1].snap;
      if snap.EmptyBucket? {
        assert forall n: nat :: !RefusedAt(ls, i, n);
      } else if Version(snap) < FIRST_PROTOCOL_SHADOWS_REMOVED {
        assert RefusedAt(ls, i, i);
      } else {
        var start := RoundDown(ledger, LevelHalf(i - 1));
        var ls' := ls[i := PrepareLevel(ls[i], i, start, Version(snap), snap)];
        RestartFromRefusedIff(ls', i + 1, ledger);
        RefusedLater(ls, ls', i);
      }
    } else {
      RestartFromRefusedIff(ls, i + 1, ledger);
      RefusedLater(ls, ls, i);
    }
  }

  lemma RefusedLater(ls: seq<Level>, ls': seq<Level>, i: nat)
    requires i < |ls| == |ls'| == NUM_LEVELS
    requires ls'[i].snap == ls[i].snap && forall j :: 0 <= j < NUM_LEVELS && j != i ==> ls'[j] == ls[j]
    requires 1 <= i && ls[i].next.Clear? ==> !ls[i - 1].snap.EmptyBucket? && Version(ls[i - 1].snap) >= 12
    ensures Refused(ls, i) <==> Refused(ls', i + 1)
  {
    var after := i + 1;
    if n: nat :| RefusedAt(ls, i, n) {
      assert RefusedAt(ls', after, n);
    }
    if n: nat :| RefusedAt(ls', after, n) {
      assert RefusedAt(ls, i, n);
    }
  }

  /** On any list at all, a restart is refused exactly when its scan meets a level without a
      merge whose snap dates from before protocol 12; no other error can occur. */
  lemma RestartRefusedIff(ls: seq<Level>, ledger: nat)
    requires |ls| == NUM_LEVELS
    ensures RestartMerges(ls, ledger).Err? <==> Refused(ls, 0)
  {
    RestartFromRefusedIff(ls, 0, ledger);
  }

  // ---- Equal outcomes stay equal ----

  lemma ClosedLevelSame(ls: seq<Level>, ls': seq<Level>, i: nat, t: nat, batch: Batch)
    requires |ls| == |ls'| == NUM_LEVELS && i < NUM_LEVELS
    requires SameList(ls, ls')
    requires ClosedLevel(ls, i, t, batch).Ok?
    ensures ClosedLevel(ls', i, t, batch).Ok?
    ensures SameOutcome(ClosedLevel(ls, i, t, batch).value, ClosedLevel(ls', i, t, batch).value)
  {
    hide LevelShouldSpill, ShouldMergeWithEmptyCurr, MergeBuckets, MergeInMemory;
    assert SameOutcome(ls[i], ls'[i]);
    if i > 0 {
      assert SameOutcome(ls[i - 1], ls'[i - 1]);
    }
  }

  lemma AddBatchSame(ls: seq<Level>, ls': seq<Level>, h0: seq<Batch>, h: seq<Batch>, timing: Timing, timing': Timing)
    requires Invariant(ls, h0) && SameList(ls, ls')
    requires WellFormed(h) && |h| == |h0| + 1 && h0 <= h
    ensures AddBatch(ls, |h|, h[|h0|], timing).Ok? && AddBatch(ls', |h|, h[|h0|], timing').Ok?
    ensures Invariant(AddBatch(ls, |h|, h[|h0|], timing).value, h)
    ensures SameList(AddBatch(ls, |h|, h[|h0|], timing).value, AddBatch(ls', |h|, h[|h0|], timing').value)
  {
    hide AddBatch, ClosedLevel, Invariant, WellFormed;
    assert |ls| == NUM_LEVELS by { InvariantLength(ls, h0); }
    SameOutcomeInvariant(ls, ls', h0);
    AddBatchKeepsInvariant(ls, h0, h, timing);
    AddBatchKeepsInvariant(ls', h0, h, timing');
    forall i | 0 <= i < NUM_LEVELS
      ensures SameOutcome(AddBatch(ls, |h|, h[|h0|], timing).value[i], AddBatch(ls', |h|, h[|h0|], timing').value[i])
    {
      assert ClosedLevel(ls, i, |h|, h[|h0|]).Ok?;
      ClosedLevelSame(ls, ls', i, |h|, h[|h0|]);
    }
  }

  lemma InvariantLength(ls: seq<Level>, h: seq<Batch>)
    requires Invariant(ls, h)
    ensures |ls| == NUM_LEVELS
  {
  }

  lemma {:induction false} RunFromSame(ls: seq<Level>, ls': seq<Level>, h0: seq<Batch>, h: seq<Batch>,
                                       ts: seq<Timing>, ts': seq<Timing>)
    requires Invariant(ls, h0) && SameList(ls, ls')
    requires |ls| == NUM_LEVELS && |ts| == |ts'| == |h|
    requires WellFormed(h0 + h)
    ensures RunFrom(ls, |h0| + 1, h, ts).Ok? && RunFrom(ls', |h0| + 1, h, ts').Ok?
    ensures SameList(RunFrom(ls, |h0| + 1, h, ts).value, RunFrom(ls', |h0| + 1, h, ts').value)
    decreases |h|
  {
    hide AddBatch, Invariant, WellFormed, SameList;
    assert |ls'| == |ls| by { SameLength(ls, ls'); }
    if h == [] {
    } else {
      var h1 := h0 + [h[0]];
      assert h1 + h[1..] == h0 + h;
      WellFormedPrefix(h1, h0 + h);
      AddBatchSame(ls, ls', h0, h1, ts[0], ts'[0]);
      RunFromSame(AddBatch(ls, |h1|, h[0], ts[0]).value, AddBatch(ls', |h1|, h[0], ts'[0]).value,
                  h1, h[1..], ts[1..], ts'[1..]);
    }
  }

  lemma SameLength(ls: seq<Level>, ls': seq<Level>)
    requires SameList(ls, ls')
    ensures |ls'| == |ls|
  {
  }

  /** When background merges finish, and whether level 0 merges in memory, is invisible:
      two runs over the same batches hold the same buckets. */
  lemma TimingIsInvisible(h: seq<Batch>, ts: seq<Timing>, ts': seq<Timing>)
    requires WellFormed(h) && |ts| == |ts'| == |h|
    ensures Run(h, ts).Ok? && Run(h, ts').Ok?
    ensures SameList(Run(h, ts).value, Run(h, ts').value)
  {
    hide RunFrom, Invariant, WellFormed;
    EmptyListInvariant();
    assert [] + h == h;
    RunFromSame(EmptyList(), EmptyList(), [], h, ts, ts');
  }

  /** Stop after any run, lose any pending merges, restart, and go on with any further
      batches: the list behaves exactly as if nothing had happened. */
  lemma RestartIsInvisible(h: seq<Batch>, ts: seq<Timing>, cleared: seq<Level>,
                           later: seq<Batch>, us: seq<Timing>, us': seq<Timing>)
    requires WellFormed(h + later) && |ts| == |h| && |us| == |us'| == |later|
    requires Run(h, ts).Ok? ==> MergesForgotten(Run(h, ts).value, cleared)
    ensures Run(h, ts).Ok? && |cleared| == NUM_LEVELS
    ensures var restarted := RestartMerges(cleared, |h|);
            && restarted.Ok?
            && RunFrom(Run(h, ts).value, |h| + 1, later, us).Ok?
            && RunFrom(restarted.value, |h| + 1, later, us').Ok?
            && SameList(RunFrom(Run(h, ts).value, |h| + 1, later, us).value,
                        RunFrom(restarted.value, |h| + 1, later, us').value)
  {
    hide RunFrom, Run, Invariant, WellFormed;
    WellFormedPrefix(h, h + later);
    RunKeepsInvariant(h, ts);
    RestartRestores(Run(h, ts).value, cleared, h);
    RunFromSame(Run(h, ts).value, RestartMerges(cleared, |h|).value, h, later, us, us');
  }
}
