/** What kind of entry a bucket of a reachable list holds for a key. */
module BucketListContents {
  import opened Wrappers
  import opened LedgerSchedule
  import opened BucketEntries
  import opened BucketListModel
  import opened BucketHistory
  import opened BucketListInvariant
  import opened BucketListTheorems
  import opened BucketListInits
  import opened BucketListMisuse

  // ---- The lifecycle of a key within one bucket ----

  /** In every reachable list each bucket holds for a key exactly what the ledgers of its
      range did to it, if those ledgers treated the key properly. */
  lemma HoldsNetChange(h: seq<Batch>, ts: seq<Timing>, p: nat, k: LedgerKey)
    requires WellFormed(h) && |ts| == |h| && p < 2 * NUM_LEVELS
    ensures Run(h, ts).Ok? && NewestAt(|h|, p + 1) <= NewestAt(|h|, p) <= |h|
    ensures var lo, hi := NewestAt(|h|, p + 1), NewestAt(|h|, p);
            Proper(h, lo, hi, k) ==> Find(Entries(BucketAt(Run(h, ts).value, p)), k) == Net(h, lo, hi, k)
  {
    hide NewestAt, Run, Invariant, BucketAt, Net, Proper;
    RunKeepsInvariant(h, ts);
    var ls := Run(h, ts).value;
    BucketAtStandsFor(ls, h, p);
    assert EntryStandsFor(Find(Entries(BucketAt(ls, p)), k), h, NewestAt(|h|, p + 1), NewestAt(|h|, p), k);
  }

  /** A key that is absent before a range and first created in it: what remains of it is an
      INIT, and nothing at all once it is deleted. */
  lemma CreatedInRange(h: seq<Batch>, lo: nat, hi: nat, k: LedgerKey)
    requires lo <= hi <= |h| && StateAt(h, lo, k) == None
    ensures StateAt(h, hi, k) == None ==> Net(h, lo, hi, k) == None
    ensures StateAt(h, hi, k).Some? ==> Net(h, lo, hi, k) == Some(InitEntry(k, StateAt(h, hi, k).value))
  {
    hide LastTouch;
    StateAfterRange(h, lo, hi, k);
  }

  /** Without proper treatment the outcome depends on the order of the merges: INIT, DEAD and
      a LIVE for the absent key. */
  lemma MergeOrderMatters(k: LedgerKey, v: Body, w: Body)
    ensures var init, dead, live := Some(InitEntry(k, v)), Some(DeadEntry(k)), Some(LiveEntry(k, w));
            && Combine(Combine(init, dead).value, live) == Ok(live)
            && Combine(init, Combine(dead, live).value) == Ok(Some(InitEntry(k, w)))
  {
  }

  /** A deletion stays in its bucket for as long as an older bucket may hold the key. */
  lemma DeletionsKept(h: seq<Batch>, ts: seq<Timing>, p: nat, k: LedgerKey)
    requires WellFormed(h) && |ts| == |h| && p < 2 * NUM_LEVELS
    ensures Run(h, ts).Ok? && NewestAt(|h|, p + 1) <= NewestAt(|h|, p) <= |h|
    ensures var t := LastTouch(h, NewestAt(|h|, p + 1), NewestAt(|h|, p), k);
            t.Some? && t.value.DeadEntry? && StateAt(h, NewestAt(|h|, p + 1), k).Some? ==>
              Find(Entries(BucketAt(Run(h, ts).value, p)), k) == Some(DeadEntry(k))
  {
    hide NewestAt, Run, Invariant, BucketAt, Net, Proper, LastTouch;
    RunKeepsInvariant(h, ts);
    var ls := Run(h, ts).value;
    BucketAtStandsFor(ls, h, p);
    assert EntryStandsFor(Find(Entries(BucketAt(ls, p)), k), h, NewestAt(|h|, p + 1), NewestAt(|h|, p), k);
  }

  /** In every reachable list each bucket lists its entries by kind and, within a kind, by
      ascending identifier, and carries the protocol of the newest ledger of its range. */
  lemma BucketsInKeyOrder(h: seq<Batch>, ts: seq<Timing>, p: nat)
    requires WellFormed(h) && |ts| == |h| && p < 2 * NUM_LEVELS
    ensures Run(h, ts).Ok? && NewestAt(|h|, p) <= |h|
    ensures var es := Entries(BucketAt(Run(h, ts).value, p));
            forall i, j :: 0 <= i < j < |es| ==>
              var a, b := es[i].key, es[j].key;
              a.kind < b.kind || (a.kind == b.kind && a.id < b.id)
    ensures NewestAt(|h|, p + 1) < NewestAt(|h|, p) ==>
              Version(BucketAt(Run(h, ts).value, p)) == h[NewestAt(|h|, p) - 1].protocol
  {
    hide NewestAt, Run, Invariant, BucketAt, EntryStandsFor;
    RunKeepsInvariant(h, ts);
    BucketAtStandsFor(Run(h, ts).value, h, p);
  }

  // ---- No tombstones on the last level ----

  ghost predicate Clean(b: Bucket) {
    forall e :: e in Entries(b) ==> !e.DeadEntry?
  }

  /** Neither `curr` of the last level nor the outcome of its pending merge has a tombstone. */
  ghost predicate CleanLevel(l: Level) {
    Clean(l.curr) && (!l.next.Clear? && Resolve(l.next).Ok? ==> Clean(Resolve(l.next).value))
  }

  lemma {:induction false} NoneDead(es: seq<BucketEntry>)
    ensures forall e :: e in DropTombstones(es) ==> !e.DeadEntry?
  {
    if es == [] {
    } else {
      NoneDead(es[1..]);
    }
  }

  lemma MergedClean(o: Bucket, n: Bucket, maxVersion: nat)
    ensures var r := MergeBuckets(o, n, KeepTombstoneEntries(DEEPEST), maxVersion); r.Ok? ==> Clean(r.value)
  {
    hide MergeEntries, DropTombstones;
    if MergeEntries(Entries(o), Entries(n)).Ok? {
      NoneDead(MergeEntries(Entries(o), Entries(n)).value);
    }
  }

  /** The spill loop keeps the last level clean. */
  lemma SpillClean(ls: seq<Level>, t: nat, protocol: nat, l: Level)
    requires |ls| == NUM_LEVELS && CleanLevel(ls[DEEPEST]) && AfterSpill(ls, DEEPEST, t, protocol) == Ok(l)
    ensures CleanLevel(l)
  {
    hide LevelShouldSpill, MergeBuckets, Clean, ShouldMergeWithEmptyCurr;
    LastLevel(t);
    if LevelShouldSpill(t, DEEPEST - 1) {
      var snap, committed := AfterSnap(ls, DEEPEST - 1, t).snap, CommitLevel(ls[DEEPEST]).value;
      MergedClean(if ShouldMergeWithEmptyCurr(t, DEEPEST) then EmptyBucket else committed.curr, snap, protocol);
    }
  }

  lemma AddBatchClean(ls: seq<Level>, t: nat, batch: Batch, timing: Timing)
    requires |ls| == NUM_LEVELS && CleanLevel(ls[DEEPEST]) && AddBatch(ls, t, batch, timing).Ok?
    ensures CleanLevel(AddBatch(ls, t, batch, timing).value[DEEPEST])
  {
    hide SpillDown, ResolveReady, AfterSpill, PrepareFirstLevel, CommitLevel, Clean, Resolve;
    SpilledFacts(ls, t, batch.protocol);
    var spilled := SpillDown(ls, DEEPEST, t, batch.protocol).value;
    SpillClean(ls, t, batch.protocol, spilled[DEEPEST]);
    var ls' := spilled[0 := Absorb(spilled[0], t, batch, timing.inMemory).value];
    ResolvedSame(ls', NUM_LEVELS, timing.ready);
    assert SameOutcome(ls'[DEEPEST], AddBatch(ls, t, batch, timing).value[DEEPEST]);
  }

  /** Whatever the batches hold: in every run that succeeds, no entry on the last level is a
      tombstone. */
  lemma {:induction false} NoTombstoneAtBottom(h: seq<Batch>, ts: seq<Timing>)
    requires |ts| == |h| && Run(h, ts).Ok?
    ensures CleanLevel(Run(h, ts).value[DEEPEST])
    decreases |h|
  {
    hide Run, AddBatch, CleanLevel;
    if h == [] {
      NoRun(ts);
      EmptyClean();
    } else {
      var front, last := h[..|h| - 1], h[|h| - 1];
      assert h == front + [last];
      RunSnoc(front, last, ts);
      NoTombstoneAtBottom(front, ts[..|front|]);
      AddBatchClean(Run(front, ts[..|front|]).value, |h|, last, ts[|front|]);
    }
  }

  lemma EmptyClean()
    ensures CleanLevel(EmptyList()[DEEPEST])
  {
  }

  // ---- What a merge refuses ----

  /** The table of equal keys, old before new. */
  lemma EqualKeyTable(k: LedgerKey, v: Body, w: Body)
    ensures MergeEqualKeys(InitEntry(k, v), InitEntry(k, w)) == Err(OldNonDeadNewInit)
    ensures MergeEqualKeys(LiveEntry(k, v), InitEntry(k, w)) == Err(OldNonDeadNewInit)
    ensures MergeEqualKeys(DeadEntry(k), InitEntry(k, w)) == Ok(Some(LiveEntry(k, w)))
    ensures MergeEqualKeys(InitEntry(k, v), LiveEntry(k, w)) == Ok(Some(InitEntry(k, w)))
    ensures MergeEqualKeys(InitEntry(k, v), DeadEntry(k)) == Ok(None)
    ensures MergeEqualKeys(LiveEntry(k, v), LiveEntry(k, w)) == Ok(Some(LiveEntry(k, w)))
    ensures MergeEqualKeys(DeadEntry(k), LiveEntry(k, w)) == Ok(Some(LiveEntry(k, w)))
    ensures MergeEqualKeys(LiveEntry(k, v), DeadEntry(k)) == Ok(Some(DeadEntry(k)))
    ensures MergeEqualKeys(DeadEntry(k), DeadEntry(k)) == Ok(Some(DeadEntry(k)))
  {
  }

  /** A merge is refused for its version exactly when an input is newer than the maximum. */
  lemma RefusedIffTooNew(o: Bucket, n: Bucket, keep: bool, maxVersion: nat)
    ensures MergeBuckets(o, n, keep, maxVersion) == Err(VersionExceedsMax) <==>
              Version(o) > maxVersion || Version(n) > maxVersion
    ensures MergeBuckets(o, n, keep, maxVersion).Ok? ==>
              var r := MergeBuckets(o, n, keep, maxVersion).value;
              Version(r) <= maxVersion && (r.Bucket? ==> Version(o) <= r.version && Version(n) <= r.version)
  {
    OnlyMalformedInits(Entries(o), Entries(n));
  }

  /** A merge leaves no file behind exactly when both inputs predate the META entry of
      protocol 11 and no entry is left. */
  lemma NoFileIff(o: Bucket, n: Bucket, keep: bool, maxVersion: nat)
    requires MergeBuckets(o, n, keep, maxVersion).Ok?
    ensures var r := MergeBuckets(o, n, keep, maxVersion).value;
            r == EmptyBucket <==> Version(o) < 11 && Version(n) < 11 && Entries(r) == []
  {
    hide MergeEntries, Elide;
  }

  /** The first level merges in memory at once and stamps the outcome with the protocol of
      the ledger, whatever its inputs carry; the merge of files is deferred and refuses a
      `curr` that is newer. */
  lemma InMemoryNeverTooNew(l: Level, ledger: nat, batch: Batch)
    ensures var r := PrepareFirstLevel(l, ledger, batch, true);
            && r != Err(VersionExceedsMax)
            && (r.Ok? ==> r.value.next.LiveOutput?)
            && (r.Ok? && r.value.next.output != EmptyBucket ==> r.value.next.output.version == batch.protocol)
            && (r.Ok? && r.value.next.output == EmptyBucket ==> batch.protocol < 11)
    ensures var r := PrepareFirstLevel(l, ledger, batch, false);
            && r.Ok? && r.value.next.LiveInputs?
            && (Version(l.curr) > batch.protocol ==> Resolve(r.value.next) == Err(VersionExceedsMax))
  {
    hide MergeBuckets;
    OnlyMalformedInits(Entries(l.curr), batch.entries);
    RefusedIffTooNew(l.curr, Fresh(batch.protocol, batch.entries), KeepTombstoneEntries(0), batch.protocol);
  }

  /** The merge prepared at a level refuses inputs newer than the protocol of the ledger. */
  lemma PreparedRefuses(l: Level, level: nat, ledger: nat, protocol: nat, snap: Bucket)
    ensures Version(snap) > protocol ==>
              Resolve(PrepareLevel(l, level, ledger, protocol, snap).next) == Err(VersionExceedsMax)
  {
    hide MergeBuckets, ShouldMergeWithEmptyCurr;
    RefusedIffTooNew(if ShouldMergeWithEmptyCurr(ledger, level) then EmptyBucket else l.curr, snap,
                     KeepTombstoneEntries(level), protocol);
  }

  /** A merge that has finished when the ledger closes is resolved there, and no other. */
  lemma {:induction false} ReadyMergesResolved(ls: seq<Level>, n: nat, ready: set<nat>, i: nat)
    requires i < n <= |ls| && ResolveReady(ls, n, ready).Ok?
    ensures var l := ResolveReady(ls, n, ready).value[i];
            if i in ready && ls[i].next.LiveInputs? then
              l.next.LiveOutput? && Resolve(ls[i].next) == Ok(l.next.output) && l == ls[i].(next := l.next)
            else l == ls[i]
    decreases n
  {
    hide Resolve;
    if i == n - 1 {
      Unresolved(ls, n - 1, ready, i);
    } else {
      ReadyMergesResolved(ls, n - 1, ready, i);
    }
  }

  lemma {:induction false} Unresolved(ls: seq<Level>, n: nat, ready: set<nat>, i: nat)
    requires n <= i < |ls| && ResolveReady(ls, n, ready).Ok?
    ensures ResolveReady(ls, n, ready).value[i] == ls[i]
    decreases n
  {
    hide Resolve;
    if n == 0 {
    } else {
      Unresolved(ls, n - 1, ready, i);
    }
  }

  /** After a ledger closes, no level whose merge has finished is still merging, and a level
      that spilled into an unfinished one leaves that one merging. */
  lemma ClosedMergesResolved(ls: seq<Level>, ledger: nat, batch: Batch, timing: Timing, i: nat)
    requires |ls| == NUM_LEVELS && i < NUM_LEVELS && AddBatch(ls, ledger, batch, timing).Ok?
    ensures i in timing.ready ==> !AddBatch(ls, ledger, batch, timing).value[i].next.LiveInputs?
    ensures 1 <= i && i !in timing.ready && LevelShouldSpill(ledger, i - 1) ==>
              AddBatch(ls, ledger, batch, timing).value[i].next.LiveInputs?
  {
    hide SpillDown, ResolveReady, Resolve, PrepareFirstLevel, LevelShouldSpill, CommitLevel;
    SpilledFacts(ls, ledger, batch.protocol);
    var spilled := SpillDown(ls, NUM_LEVELS - 1, ledger, batch.protocol).value;
    var ls' := spilled[0 := Absorb(spilled[0], ledger, batch, timing.inMemory).value];
    ReadyMergesResolved(ls', NUM_LEVELS, timing.ready, i);
  }
}
