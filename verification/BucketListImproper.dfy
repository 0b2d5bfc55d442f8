/** A run in which a LIVE entry for an absent key leaves a LIVE entry where the ledgers of the
    bucket created the key: the outcome of such entries depends on the order of the merges. */
module BucketListImproper {
  import opened Wrappers
  import opened LedgerSchedule
  import opened BucketEntries
  import opened BucketListModel
  import opened BucketHistory
  import opened BucketListInvariant
  import opened BucketListTheorems
  import opened BucketListInits
  import opened BucketListMisuse
  import opened BucketListContents

  function Front<T>(s: seq<T>): seq<T>
    requires s != []
  {
    s[..|s| - 1]
  }

  /** What the close of the last ledger of a run does to the buckets. */
  lemma LastClose(h: seq<Batch>, ts: seq<Timing>)
    requires WellFormed(h) && |ts| == |h| && h != []
    ensures Run(Front(h), Front(ts)).Ok? && Run(h, ts).Ok?
    ensures var ls, r, last := Run(Front(h), Front(ts)).value, Run(h, ts).value, h[|h| - 1];
            && Invariant(ls, Front(h))
            && r[0].snap == AfterSnap(ls, 0, |h|).snap
            && MergeEntries(Entries(AfterSnap(ls, 0, |h|).curr), last.entries) == Ok(Entries(r[0].curr))
            && forall i :: 1 <= i < NUM_LEVELS ==>
                 AfterSpill(ls, i, |h|, last.protocol).Ok? &&
                 r[i].curr == AfterSpill(ls, i, |h|, last.protocol).value.curr
  {
    hide Invariant, WellFormed, StandsFor, Run, MergeEntries, AfterSnap, AfterSpill, SpillDown, ResolveReady,
      PrepareFirstLevel, CommitLevel, Resolve;
    var front, last, timing := Front(h), h[|h| - 1], ts[|h| - 1];
    assert h == front + [last];
    WellFormedPrefix(front, h);
    RunKeepsInvariant(front, Front(ts));
    RunSnoc(front, last, ts);
    var ls := Run(front, Front(ts)).value;
    AddBatchKeepsInvariant(ls, front, h, timing);
    SpilledList(ls, front, h);
    FirstLevelReady(ls, front, h);
    var l := AfterSnap(ls, 0, |h|);
    CurrVersion(l.curr, h, NewestInSnap(|h|, 0), |front|);
    AbsorbIsMerge(l, |h|, last, timing.inMemory);
    var spilled := SpillDown(ls, NUM_LEVELS - 1, |h|, last.protocol).value;
    var ls' := spilled[0 := Absorb(l, |h|, last, timing.inMemory).value];
    ResolvedSame(ls', NUM_LEVELS, timing.ready);
    assert SameOutcome(ls'[0], Run(h, ts).value[0]);
    forall i | 1 <= i < NUM_LEVELS
      ensures AfterSpill(ls, i, |h|, last.protocol).Ok?
      ensures Run(h, ts).value[i].curr == AfterSpill(ls, i, |h|, last.protocol).value.curr
    {
      assert SameOutcome(ls'[i], Run(h, ts).value[i]);
    }
  }

  lemma SnapAtEven(ls: seq<Level>, t: nat)
    requires |ls| == NUM_LEVELS && t % 2 == 0
    ensures AfterSnap(ls, 0, t).snap == ls[0].curr && AfterSnap(ls, 0, t).curr == EmptyBucket
  {
    SpillIffMultiple(t, 0);
  }

  /** The entries of level 0 after an even ledger are those of its batch. */
  lemma CurrAfterEven(h: seq<Batch>, ts: seq<Timing>)
    requires WellFormed(h) && |ts| == |h| && h != [] && |h| % 2 == 0
    ensures Run(h, ts).Ok? && Entries(Run(h, ts).value[0].curr) == h[|h| - 1].entries
  {
    hide Invariant, WellFormed, Run, MergeEntries, AfterSnap, AfterSpill;
    LastClose(h, ts);
    CurrAtEven(Run(Front(h), Front(ts)).value, |h|);
    MergeWithNothing(h[|h| - 1].entries);
  }

  /** After an odd ledger level 0 holds the entries of two batches, merged. */
  lemma CurrAfterOdd(h: seq<Batch>, ts: seq<Timing>)
    requires WellFormed(h) && |ts| == |h| >= 3 && |h| % 2 == 1
    ensures Run(h, ts).Ok?
    ensures MergeEntries(h[|h| - 2].entries, h[|h| - 1].entries) == Ok(Entries(Run(h, ts).value[0].curr))
  {
    hide Invariant, WellFormed, Run, MergeEntries, AfterSnap, AfterSpill;
    LastClose(h, ts);
    WellFormedPrefix(Front(h), h);
    CurrAtOdd(Run(Front(h), Front(ts)).value, Front(h));
    CurrAfterEven(Front(h), Front(ts));
  }

  /** Two ledgers on, those entries are in the snap. */
  lemma PairInSnap(h: seq<Batch>, ts: seq<Timing>)
    requires WellFormed(h) && |ts| == |h| >= 5 && |h| % 2 == 1
    ensures Run(h, ts).Ok?
    ensures MergeEntries(h[|h| - 4].entries, h[|h| - 3].entries) == Ok(Entries(Run(h, ts).value[0].snap))
  {
    hide Invariant, WellFormed, Run, MergeEntries, AfterSnap, AfterSpill;
    var h1, ts1 := Front(h), Front(ts);
    WellFormedPrefix(h1, h);
    WellFormedPrefix(Front(h1), h);
    LastClose(h, ts);
    CurrAtOdd(Run(h1, ts1).value, h1);
    LastClose(h1, ts1);
    SnapAtEven(Run(Front(h1), Front(ts1)).value, |h1|);
    CurrAfterOdd(Front(h1), Front(ts1));
  }

  lemma TenLedgers()
    ensures NewestAt(9, 3) == NewestAt(10, 3) == 3 && NewestAt(9, 2) == 5 && NewestAt(10, 2) == 7
    ensures LevelShouldSpill(10, 0) && !LevelShouldSpill(10, 1) && Period(1) == 2
  {
    assert Period(1) == 2 && Period(2) == 8;
    assert CurrLag(1) == 3 && SnapLag(1) == 5;
    RoundDownMod(9, 2);
    RoundDownMod(10, 2);
    RoundDownMod(9, 8);
    RoundDownMod(10, 8);
    SpillIffMultiple(10, 0);
    SpillIffMultiple(10, 1);
  }

  /** Ledgers 4 to 6 create a key, delete it and write it as LIVE. */
  ghost predicate WritesAfterDeleting(h: seq<Batch>, k: LedgerKey, v: Body, w: Body) {
    && |h| == 10
    && (forall j :: j in {0, 1, 2, 6} ==> Find(h[j].entries, k) == None)
    && Find(h[3].entries, k) == Some(InitEntry(k, v))
    && Find(h[4].entries, k) == Some(DeadEntry(k))
    && Find(h[5].entries, k) == Some(LiveEntry(k, w))
  }

  lemma ProperBefore(h: seq<Batch>, k: LedgerKey, v: Body, w: Body)
    requires WritesAfterDeleting(h, k, v, w)
    ensures StateAt(h, 3, k) == None && Proper(Front(h), 3, 5, k) && Net(Front(h), 3, 5, k) == None
  {
    var h9 := Front(h);
    assert LastTouch(h9, 0, 3, k) == LastTouch(h, 0, 3, k) == None;
    assert LastTouch(h9, 0, 4, k) == Some(InitEntry(k, v));
    assert LastTouch(h9, 0, 5, k) == Some(DeadEntry(k));
    assert ProperAt(h9, 3, k) && ProperAt(h9, 4, k);
  }

  /** What a merge that keeps tombstones holds for a key its older input lacks. */
  lemma NewerEntry(o: Bucket, n: Bucket, maxVersion: nat, k: LedgerKey)
    requires Sorted(Entries(o)) && Sorted(Entries(n)) && MergeBuckets(o, n, true, maxVersion).Ok?
    requires Find(Entries(o), k) == None
    ensures Find(Entries(MergeBuckets(o, n, true, maxVersion).value), k) == Find(Entries(n), k)
  {
    hide MergeEntries, Find, Sorted;
    MergeFind(Entries(o), Entries(n), k);
  }

  /** The pending merge of level 1 brings in what the snap of level 0 holds for a key that
      level 1 lacks. */
  lemma PendingEntry(ls: seq<Level>, h: seq<Batch>, k: LedgerKey)
    requires WellFormed(h) && Invariant(ls, h) && |h| >= Period(1)
    requires Find(Entries(ls[1].curr), k) == None && CommitLevel(ls[1]).Ok?
    ensures Find(Entries(CommitLevel(ls[1]).value.curr), k) == Find(Entries(ls[0].snap), k)
  {
    hide MergeBuckets, Find, Sorted, NewestInCurr, NewestInSnap, Period, ShouldMergeWithEmptyCurr;
    assert LevelInvariant(ls, 0, h) && LevelInvariant(ls, 1, h);
    assert Find([], k) == None && Sorted([]) by { NothingInEmpty(k); }
    NewerEntry(MergeBase(ls, 1, |h|), ls[0].snap, Version(ls[0].snap), k);
  }

  lemma NothingInEmpty(k: LedgerKey)
    ensures Find([], k) == None && Sorted([])
  {
  }

  /** After ten ledgers `curr` of level 1 covers ledgers 4 to 7. They begin with the key
      absent and create it, and yet the entry left is LIVE. */
  lemma ImproperWriteLeavesLive(h: seq<Batch>, ts: seq<Timing>, k: LedgerKey, v: Body, w: Body)
    requires WellFormed(h) && |ts| == |h| && WritesAfterDeleting(h, k, v, w)
    ensures NewestAt(|h|, 3) == 3 && NewestAt(|h|, 2) == 7 && StateAt(h, 3, k) == None
    ensures Run(h, ts).Ok? && Find(Entries(BucketAt(Run(h, ts).value, 2)), k) == Some(LiveEntry(k, w))
  {
    hide Invariant, WellFormed, Run, CommitLevel, NewestAt, LevelShouldSpill, StateAt, Proper, Net, Find, Period,
      MergeEntries, Sorted;
    TenLedgers();
    ProperBefore(h, k, v, w);
    LastClose(h, ts);
    var h9, ts9 := Front(h), Front(ts);
    WellFormedPrefix(h9, h);
    HoldsNetChange(h9, ts9, 2, k);
    PairInSnap(h9, ts9);
    SortedAt(h, 5);
    SortedAt(h, 6);
    MergeFind(h[5].entries, h[6].entries, k);
    var ls := Run(h9, ts9).value;
    assert AfterSnap(ls, 1, 10) == ls[1] && AfterSpill(ls, 1, 10, h[9].protocol).Ok?;
    PendingEntry(ls, h9, k);
  }

  lemma SortedAt(h: seq<Batch>, j: nat)
    requires WellFormed(h) && j < |h|
    ensures Sorted(h[j].entries)
  {
  }
}
