/** What a bucket list does with an INIT entry for a key that already exists: when the
    close is refused, and what a later lookup returns when it is not. */
module BucketListInits {
  import opened Wrappers
  import opened LedgerSchedule
  import opened BucketEntries
  import opened BucketListModel
  import opened BucketHistory
  import opened BucketListInvariant
  import opened BucketListTheorems

  /** The batch with the same protocol and no entries. */
  function Blank(b: Batch): Batch {
    Batch(b.protocol, [])
  }

  function WithCurr(ls: seq<Level>, c: Bucket): seq<Level>
    requires |ls| == NUM_LEVELS
  {
    ls[0 := ls[0].(curr := c)]
  }

  // ---- Merging entries ----

  lemma {:induction false} MergeWithNothing(es: seq<BucketEntry>)
    ensures MergeEntries([], es) == Ok(es)
  {
    if es == [] {
    } else {
      MergeWithNothing(es[1..]);
      assert es == [es[0]] + es[1..];
    }
  }

  lemma {:induction false} OnlyMalformedInits(old': seq<BucketEntry>, new': seq<BucketEntry>)
    ensures MergeEntries(old', new').Err? ==> MergeEntries(old', new').error == OldNonDeadNewInit
    decreases |old'| + |new'|
  {
    if old' == [] && new' == [] {
    } else if new' == [] || (old' != [] && KeyLess(old'[0].key, new'[0].key)) {
      OnlyMalformedInits(old'[1..], new');
    } else if old' == [] || KeyLess(new'[0].key, old'[0].key) {
      OnlyMalformedInits(old', new'[1..]);
    } else {
      OnlyMalformedInits(old'[1..], new'[1..]);
    }
  }

  /** A merge is refused exactly for an INIT whose key the older side holds, not dead. */
  lemma RefusedIffInitOverLive(old': seq<BucketEntry>, new': seq<BucketEntry>)
    requires Sorted(old') && Sorted(new')
    ensures MergeEntries(old', new').Err? <==> exists k :: InitOverLive(Find(old', k), Find(new', k))
    ensures MergeEntries(old', new').Err? ==> MergeEntries(old', new').error == OldNonDeadNewInit
  {
    hide Find, MergeEntries;
    OnlyMalformedInits(old', new');
    if MergeEntries(old', new').Ok? {
      forall k
        ensures !InitOverLive(Find(old', k), Find(new', k))
      {
        MergeFind(old', new', k);
      }
    } else if forall k :: Combine(Find(old', k), Find(new', k)).Ok? {
      MergeSucceeds(old', new');
      assert false;
    } else {
      var k :| Combine(Find(old', k), Find(new', k)).Err?;
      assert InitOverLive(Find(old', k), Find(new', k));
    }
  }

  predicate InitOverLive(older: Option<BucketEntry>, newer: Option<BucketEntry>) {
    older.Some? && newer.Some? && newer.value.InitEntry? && !older.value.DeadEntry?
  }

  // ---- Closing a ledger with any sorted batch ----

  lemma {:induction false} ResolveReadyCurr(ls: seq<Level>, c: Bucket, n: nat, ready: set<nat>)
    requires |ls| == NUM_LEVELS && n <= NUM_LEVELS
    requires ResolveReady(ls, n, ready).Ok?
    ensures ResolveReady(WithCurr(ls, c), n, ready) == Ok(WithCurr(ResolveReady(ls, n, ready).value, c))
  {
    if n == 0 {
    } else {
      ResolveReadyCurr(ls, c, n - 1, ready);
      var rest := ResolveReady(ls, n - 1, ready).value;
      if n - 1 in ready {
        var next := ResolveNext(rest[n - 1].next).value;
        assert WithCurr(rest, c)[n - 1].next == rest[n - 1].next;
        assert WithCurr(rest, c)[n - 1 := WithCurr(rest, c)[n - 1].(next := next)]
            == WithCurr(rest[n - 1 := rest[n - 1].(next := next)], c);
      }
    }
  }

  function Absorb(l: Level, t: nat, b: Batch, inMemory: bool): Result<Level, MergeError> {
    var prepared :- PrepareFirstLevel(l, t, b, inMemory);
    CommitLevel(prepared)
  }

  /** Both merge paths of level 0 merge the entries and stamp the protocol. */
  lemma AbsorbIsMerge(l: Level, t: nat, b: Batch, inMemory: bool)
    requires l.next.Clear? && Version(l.curr) <= b.protocol && b.protocol >= FIRST_PROTOCOL_SHADOWS_REMOVED
    ensures var merged, r := MergeEntries(Entries(l.curr), b.entries), Absorb(l, t, b, inMemory);
            && (merged.Err? ==> r == Err(merged.error))
            && (merged.Ok? ==> r == Ok(Level(Bucket(b.protocol, merged.value), l.snap, Clear)))
  {
    hide MergeEntries;
  }

  /** Only level 0 sees the entries of a batch: a close is refused exactly when they do
      not merge with its `curr`, and otherwise differs from the close of a blank batch in
      that `curr` alone. */
  lemma CloseByFirstLevel(ls: seq<Level>, h: seq<Batch>, b: Batch, timing: Timing)
    requires |ls| == NUM_LEVELS && Invariant(ls, h) && WellFormed(h + [Blank(b)])
    ensures AddBatch(ls, |h| + 1, Blank(b), timing).Ok?
    ensures var blank, r := AddBatch(ls, |h| + 1, Blank(b), timing).value, AddBatch(ls, |h| + 1, b, timing);
            var merged := MergeEntries(Entries(AfterSnap(ls, 0, |h| + 1).curr), b.entries);
            && (merged.Err? ==> r == Err(merged.error))
            && (merged.Ok? ==> r == Ok(WithCurr(blank, Bucket(b.protocol, merged.value))))
  {
    hide Invariant, WellFormed, MergeEntries, SpillDown, ResolveReady, CommitLevel, PrepareFirstLevel, AfterSnap;
    var t, h' := |h| + 1, h + [Blank(b)];
    SpilledList(ls, h, h');
    FirstLevelReady(ls, h, h');
    AddBatchKeepsInvariant(ls, h, h', timing);
    var l := AfterSnap(ls, 0, t);
    CurrVersion(l.curr, h', NewestInSnap(t, 0), |h|);
    AbsorbIsMerge(l, t, b, timing.inMemory);
    AbsorbIsMerge(l, t, Blank(b), timing.inMemory);
    var spilled := SpillDown(ls, NUM_LEVELS - 1, t, b.protocol).value;
    var merged := MergeEntries(Entries(l.curr), b.entries);
    if merged.Ok? {
      var blank := spilled[0 := Absorb(l, t, Blank(b), timing.inMemory).value];
      var c := Bucket(b.protocol, merged.value);
      assert spilled[0 := Absorb(l, t, b, timing.inMemory).value] == WithCurr(blank, c);
      ResolveReadyCurr(blank, c, NUM_LEVELS, timing.ready);
    }
  }

  lemma CurrVersion(c: Bucket, h: seq<Batch>, lo: nat, hi: nat)
    requires WellFormed(h) && h != [] && StandsFor(c, h, lo, hi)
    ensures Version(c) <= h[|h| - 1].protocol
    ensures h[|h| - 1].protocol >= FIRST_PROTOCOL_SHADOWS_REMOVED
  {
  }

  lemma HeldSorted(c: Bucket, h: seq<Batch>, lo: nat, hi: nat)
    requires StandsFor(c, h, lo, hi)
    ensures Sorted(Entries(c))
  {
  }

  // ---- The first ledger after a history ----

  /** At an odd ledger level 0 still holds the ledger before, and only that one. */
  lemma CurrAtOdd(ls: seq<Level>, h: seq<Batch>)
    requires |ls| == NUM_LEVELS && Invariant(ls, h) && |h| % 2 == 0
    ensures AfterSnap(ls, 0, |h| + 1) == ls[0]
    ensures StandsFor(ls[0].curr, h, if h == [] then 0 else |h| - 1, |h|)
  {
    hide StandsFor, NextInvariant;
    assert LevelInvariant(ls, 0, h);
    EvenRanges(|h|);
  }

  lemma EvenRanges(t: nat)
    requires t % 2 == 0
    ensures NewestInCurr(t, 0) == t && NewestInSnap(t, 0) == if t == 0 then 0 else t - 1
    ensures !LevelShouldSpill(t + 1, 0)
  {
    hide NewestInCurr, NewestInSnap, LevelShouldSpill;
    RangesOrdered(t, 0);
    SpillIffMultiple(t, 0);
    SpillIffMultiple(t + 1, 0);
    if t == 0 {
      RangesAtStart(0);
    } else {
      RangesAdvance(t, 0);
      RangesOrdered(t - 1, 0);
    }
  }

  /** At an even ledger level 0 has just been emptied. */
  lemma CurrAtEven(ls: seq<Level>, t: nat)
    requires |ls| == NUM_LEVELS && t % 2 == 0
    ensures AfterSnap(ls, 0, t).curr == EmptyBucket
  {
    SpillIffMultiple(t, 0);
  }

  /** Some INIT of the batch is for a key that the newest ledger wrote and did not delete. */
  ghost predicate RewritesNewest(h: seq<Batch>, b: Batch) {
    h != [] && exists k :: InitOverLive(Find(h[|h| - 1].entries, k), Find(b.entries, k))
  }

  lemma NewestHeld(c: Bucket, h: seq<Batch>, k: LedgerKey)
    requires StandsFor(c, h, if h == [] then 0 else |h| - 1, |h|)
    ensures var held := Find(Entries(c), k);
            held.Some? && !held.value.DeadEntry? <==>
              h != [] && Find(h[|h| - 1].entries, k).Some? && !Find(h[|h| - 1].entries, k).value.DeadEntry?
  {
    assert EntryStandsFor(Find(Entries(c), k), h, if h == [] then 0 else |h| - 1, |h|, k);
    if h != [] {
      assert LastTouch(h, |h| - 1, |h| - 1, k) == None;
    }
  }

  /** The last close of a run comes after the others, if those succeed. */
  lemma {:induction false} RunFromSnoc(ls: seq<Level>, t: nat, h: seq<Batch>, b: Batch, ts: seq<Timing>)
    requires |ls| == NUM_LEVELS && |ts| == |h| + 1
    ensures var before, r := RunFrom(ls, t, h, ts[..|h|]), RunFrom(ls, t, h + [b], ts);
            && (before.Err? ==> r == before)
            && (before.Ok? ==> r == AddBatch(before.value, t + |h|, b, ts[|h|]))
    decreases |h|
  {
    hide AddBatch;
    if h == [] {
      assert h + [b] == [b];
      assert ts[1..] == [] && [b][1..] == [];
      assert forall ls': seq<Level> :: |ls'| == NUM_LEVELS ==> RunFrom(ls', t + 1, [], []) == Ok(ls');
    } else {
      assert (h + [b])[1..] == h[1..] + [b];
      assert ts[1..][..|h| - 1] == ts[..|h|][1..];
      if AddBatch(ls, t, h[0], ts[0]).Ok? {
        RunFromSnoc(AddBatch(ls, t, h[0], ts[0]).value, t + 1, h[1..], b, ts[1..]);
      }
    }
  }

  lemma RunSnoc(h: seq<Batch>, b: Batch, ts: seq<Timing>)
    requires |ts| == |h| + 1
    ensures var before, r := Run(h, ts[..|h|]), Run(h + [b], ts);
            && (before.Err? ==> r == before)
            && (before.Ok? ==> r == AddBatch(before.value, |h| + 1, b, ts[|h|]))
  {
    RunFromSnoc(EmptyList(), 1, h, b, ts);
  }

  lemma RefusedAtOdd(c: Bucket, h: seq<Batch>, b: Batch)
    requires StandsFor(c, h, if h == [] then 0 else |h| - 1, |h|) && Sorted(b.entries)
    ensures MergeEntries(Entries(c), b.entries).Err? <==> RewritesNewest(h, b)
    ensures MergeEntries(Entries(c), b.entries).Err? ==> MergeEntries(Entries(c), b.entries).error == OldNonDeadNewInit
  {
    hide StandsFor, Find, MergeEntries;
    HeldSorted(c, h, if h == [] then 0 else |h| - 1, |h|);
    RefusedIffInitOverLive(Entries(c), b.entries);
    if k :| InitOverLive(Find(Entries(c), k), Find(b.entries, k)) {
      NewestHeld(c, h, k);
      assert InitOverLive(Find(h[|h| - 1].entries, k), Find(b.entries, k));
    }
    if RewritesNewest(h, b) {
      var k :| InitOverLive(Find(h[|h| - 1].entries, k), Find(b.entries, k));
      NewestHeld(c, h, k);
      assert InitOverLive(Find(Entries(c), k), Find(b.entries, k));
    }
  }

  /** Whatever its INIT entries, a sorted batch is refused exactly at an odd ledger, and
      exactly for a key that the ledger before wrote and did not delete. */
  lemma RefusedIffRewritesNewest(h: seq<Batch>, b: Batch, ts: seq<Timing>)
    requires WellFormed(h + [Blank(b)]) && Sorted(b.entries) && |ts| == |h| + 1
    ensures Run(h + [b], ts).Err? <==> |h| % 2 == 0 && RewritesNewest(h, b)
    ensures Run(h + [b], ts).Err? ==> Run(h + [b], ts).error == OldNonDeadNewInit
  {
    hide Invariant, WellFormed, StandsFor, AddBatch, Run, Find, MergeEntries, AfterSnap;
    WellFormedPrefix(h, h + [Blank(b)]);
    RunKeepsInvariant(h, ts[..|h|]);
    RunSnoc(h, b, ts);
    var ls := Run(h, ts[..|h|]).value;
    CloseByFirstLevel(ls, h, b, ts[|h|]);
    var curr := AfterSnap(ls, 0, |h| + 1).curr;
    if |h| % 2 == 0 {
      CurrAtOdd(ls, h);
      RefusedAtOdd(curr, h, b);
    } else {
      CurrAtEven(ls, |h| + 1);
      MergeWithNothing(b.entries);
    }
  }

  // ---- A deletion on top of an accepted INIT ----

  lemma {:induction false} NoSpillAtOdd(ls: seq<Level>, i: nat, t: nat, protocol: nat)
    requires i < |ls| == NUM_LEVELS && t % 2 == 1
    ensures SpillDown(ls, i, t, protocol) == Ok(ls)
  {
    if i == 0 {
    } else {
      SpillIffMultiple(t, i - 1);
      if t % Period(i) == 0 {
        PeriodNestedTo(1, i, t);
        assert false;
      }
      NoSpillAtOdd(ls, i - 1, t, protocol);
    }
  }

  /** An odd ledger changes level 0 only. */
  lemma CloseAtOdd(ls: seq<Level>, t: nat, b: Batch, timing: Timing, es: seq<BucketEntry>)
    requires |ls| == NUM_LEVELS && t % 2 == 1
    requires ls[0].next.Clear? && forall i :: 0 <= i < |ls| && !ls[i].next.Clear? ==> Resolve(ls[i].next).Ok?
    requires Version(ls[0].curr) <= b.protocol && b.protocol >= FIRST_PROTOCOL_SHADOWS_REMOVED
    requires MergeEntries(Entries(ls[0].curr), b.entries) == Ok(es)
    ensures var r := AddBatch(ls, t, b, timing);
            && r.Ok?
            && (forall i :: 0 <= i < NUM_LEVELS ==> r.value[i].snap == ls[i].snap)
            && (forall i :: 1 <= i < NUM_LEVELS ==> r.value[i].curr == ls[i].curr)
            && r.value[0].curr == Bucket(b.protocol, es)
  {
    hide SpillDown, ResolveReady, MergeEntries, Resolve;
    NoSpillAtOdd(ls, NUM_LEVELS - 1, t, b.protocol);
    AbsorbIsMerge(ls[0], t, b, timing.inMemory);
    var ls' := ls[0 := Absorb(ls[0], t, b, timing.inMemory).value];
    ResolveReadyKeeps(ls', NUM_LEVELS, timing.ready);
    var r := ResolveReady(ls', NUM_LEVELS, timing.ready).value;
    assert forall i :: 0 <= i < NUM_LEVELS ==> SameOutcome(ls'[i], r[i]);
  }

  lemma {:induction false} LookupFromSame(a: seq<Level>, b: seq<Level>, i: nat, k: LedgerKey)
    requires |a| == |b| && i <= |a|
    requires forall j :: i <= j < |a| ==> a[j].curr == b[j].curr && a[j].snap == b[j].snap
    ensures LookupFrom(a, i, k) == LookupFrom(b, i, k)
    decreases |a| - i
  {
    if i == |a| {
    } else {
      LookupFromSame(a, b, i + 1, k);
    }
  }

  /** A DEAD merges with anything, and annihilates an INIT. */
  lemma DeadOverInit(es: seq<BucketEntry>, k: LedgerKey)
    requires Sorted(es) && Find(es, k).Some? && Find(es, k).value.InitEntry?
    ensures MergeEntries(es, [DeadEntry(k)]).Ok?
    ensures Find(MergeEntries(es, [DeadEntry(k)]).value, k) == None
  {
    RefusedIffInitOverLive(es, [DeadEntry(k)]);
    MergeFind(es, [DeadEntry(k)], k);
  }

  lemma FindMember(es: seq<BucketEntry>, e: BucketEntry)
    requires Sorted(es) && e in es
    ensures Find(es, e.key) == Some(e)
  {
    var f := Find(es, e.key).value;
    var i, j :| 0 <= i < |es| && es[i] == e && 0 <= j < |es| && es[j] == f;
    assert i == j;
  }

  /** Once its INIT is annihilated, a key is looked up below level 0's `curr`. */
  lemma DeadUncovers(blank: seq<Level>, h: seq<Batch>, b: Batch, dead: Batch, timing: Timing, k: LedgerKey)
    requires |blank| == NUM_LEVELS && Invariant(blank, h) && WellFormed(h) && h != [] && |h| % 2 == 0
    requires h[|h| - 1].protocol == b.protocol <= dead.protocol
    requires MergeEntries(b.entries, dead.entries).Ok? && Find(MergeEntries(b.entries, dead.entries).value, k) == None
    ensures var r := AddBatch(WithCurr(blank, Bucket(b.protocol, b.entries)), |h| + 1, dead, timing);
            r.Ok? && Lookup(r.value, k) == StateAt(h, |h| - 1, k)
  {
    hide StandsFor, AddBatch, MergeEntries, Find, NewestInCurr, NewestInSnap, Resolve;
    assert LevelInvariant(blank, 0, h);
    var ls := WithCurr(blank, Bucket(b.protocol, b.entries));
    forall i | 0 <= i < NUM_LEVELS && !ls[i].next.Clear?
      ensures Resolve(ls[i].next).Ok?
    {
      PendingMergesSucceed(blank, h, i);
    }
    CloseAtOdd(ls, |h| + 1, dead, timing, MergeEntries(b.entries, dead.entries).value);
    var r := AddBatch(ls, |h| + 1, dead, timing).value;
    LookupFromSame(r, blank, 1, k);
    LookupBelowIsState(blank, h, 0, k);
    EvenRanges(|h|);
  }

  /** An INIT over a live key at an even ledger, and its deletion at the next: both closes
      succeed under every timing, and the lookup returns the value that the key had
      before either, where the replay has none. */
  lemma InitOverLiveRevives(h: seq<Batch>, b: Batch, protocol: nat, k: LedgerKey, w: Body, ts: seq<Timing>)
    requires WellFormed(h + [Blank(b), Batch(protocol, [])]) && Sorted(b.entries)
    requires |h| % 2 == 1 && |ts| == |h| + 2 && InitEntry(k, w) in b.entries
    ensures var h' := h + [b, Batch(protocol, [DeadEntry(k)])];
            && Run(h', ts).Ok?
            && Lookup(Run(h', ts).value, k) == MapGet(Replay(h), k)
            && MapGet(Replay(h'), k) == None
  {
    hide Invariant, WellFormed, StandsFor, AddBatch, Run, Find, MergeEntries, AfterSnap, Replay;
    var dead := Batch(protocol, [DeadEntry(k)]);
    var t, h0 := |h| + 1, h + [Blank(b)];
    var both := h + [Blank(b), Batch(protocol, [])];
    assert h0 <= both;
    assert both[|h|].protocol <= both[|h| + 1].protocol by { ProtocolsGrow(both, |h|); }
    WellFormedPrefix(h0, both);
    WellFormedPrefix(h, h0);
    RefusedIffRewritesNewest(h, b, ts[..t]);
    RunKeepsInvariant(h, ts[..|h|]);
    assert ts[..t][..|h|] == ts[..|h|];
    RunSnoc(h, b, ts[..t]);
    var ls := Run(h, ts[..|h|]).value;
    CloseByFirstLevel(ls, h, b, ts[|h|]);
    AddBatchKeepsInvariant(ls, h, h0, ts[|h|]);
    CurrAtEven(ls, t);
    MergeWithNothing(b.entries);
    var blank := AddBatch(ls, t, Blank(b), ts[|h|]).value;
    var ls1 := WithCurr(blank, Bucket(b.protocol, b.entries));
    assert Run(h + [b], ts[..t]) == Ok(ls1);
    FindMember(b.entries, InitEntry(k, w));
    DeadOverInit(b.entries, k);
    DeadUncovers(blank, h0, b, dead, ts[t], k);
    RunSnoc(h + [b], dead, ts);
    assert h + [b] + [dead] == h + [b, dead];
    StateIsReplay(h, k);
    LastTouchPrefix(h, h0, 0, |h|, k);
    DeadNotReplayed(h + [b], dead, k);
  }

  lemma ProtocolsGrow(h: seq<Batch>, j: nat)
    requires WellFormed(h) && j + 1 < |h|
    ensures h[j].protocol <= h[j + 1].protocol
  {
  }

  lemma DeadNotReplayed(h: seq<Batch>, dead: Batch, k: LedgerKey)
    requires dead.entries == [DeadEntry(k)]
    ensures MapGet(Replay(h + [dead]), k) == None
  {
    hide Replay, ApplyEntries;
    var h' := h + [dead];
    assert h'[..|h|] == h;
    ReplayLast(h');
    ApplyEntriesGet(Replay(h), dead.entries, k);
  }

  lemma ReplayLast(h: seq<Batch>)
    requires h != []
    ensures Replay(h) == ApplyEntries(Replay(h[..|h| - 1]), h[|h| - 1].entries)
  {
  }

  /** The closes of a batch and of the deletion of a key succeed, and the key is gone. */
  ghost predicate DeletesRight(h: seq<Batch>, b: Batch, protocol: nat, k: LedgerKey, ts: seq<Timing>)
    requires |ts| == |h| + 2
  {
    var h' := h + [b, Batch(protocol, [DeadEntry(k)])];
    Run(h', ts).Ok? && Lookup(Run(h', ts).value, k) == MapGet(Replay(h'), k) == None
  }

  /** At an even ledger, every key can be deleted right after a batch exactly when the
      INIT entries of the batch create absent keys. */
  lemma DeletesRightIffInitsCreate(h: seq<Batch>, b: Batch, protocol: nat, ts: seq<Timing>)
    requires WellFormed(h + [Blank(b), Batch(protocol, [])]) && Sorted(b.entries)
    requires |h| % 2 == 1 && |ts| == |h| + 2
    ensures (forall k :: DeletesRight(h, b, protocol, k, ts)) <==> InitsCreate(h + [b], |h|)
  {
    hide Run, Lookup, Replay, WellFormed, InitsCreate;
    if InitsCreate(h + [b], |h|) {
      forall k
        ensures DeletesRight(h, b, protocol, k, ts)
      {
        var dead := Batch(protocol, [DeadEntry(k)]);
        FilledWellFormed(h, b, dead);
        LookupIsReplay(h + [b, dead], ts, k);
        assert h + [b] + [dead] == h + [b, dead];
        DeadNotReplayed(h + [b], dead, k);
      }
    } else {
      SortedBatches(h, h + [Blank(b), Batch(protocol, [])]);
      var k, w := LiveInit(h, b);
      InitOverLiveRevives(h, b, protocol, k, w, ts);
      assert !DeletesRight(h, b, protocol, k, ts);
    }
  }

  lemma SortedBatches(h: seq<Batch>, h': seq<Batch>)
    requires WellFormed(h') && h <= h'
    ensures forall j :: 0 <= j < |h| ==> Sorted(h[j].entries)
  {
  }

  lemma FilledWellFormed(h: seq<Batch>, b: Batch, dead: Batch)
    requires WellFormed(h + [Blank(b), Blank(dead)]) && Sorted(b.entries) && Sorted(dead.entries)
    requires InitsCreate(h + [b], |h|) && forall e :: e in dead.entries ==> e.DeadEntry?
    ensures WellFormed(h + [b, dead])
  {
    hide LastTouch;
    var blanks, h' := h + [Blank(b), Blank(dead)], h + [b, dead];
    assert forall j :: 0 <= j < |h'| ==> h'[j].protocol == blanks[j].protocol;
    forall j | 0 <= j < |h'|
      ensures InitsCreate(h', j)
    {
      assert InitsCreate(blanks, j);
      forall e | e in h'[j].entries && e.InitEntry?
        ensures StateAt(h', j, e.key) == None
      {
        if j < |h| {
          LastTouchPrefix(h, blanks, 0, j, e.key);
          LastTouchPrefix(h, h', 0, j, e.key);
        } else {
          LastTouchPrefix(h + [b], h', 0, j, e.key);
        }
      }
    }
  }

  /** An INIT of the batch whose key has a value after the history. */
  lemma LiveInit(h: seq<Batch>, b: Batch) returns (k: LedgerKey, w: Body)
    requires !InitsCreate(h + [b], |h|) && forall j :: 0 <= j < |h| ==> Sorted(h[j].entries)
    ensures InitEntry(k, w) in b.entries && MapGet(Replay(h), k).Some?
  {
    var e :| e in b.entries && e.InitEntry? && StateAt(h + [b], |h|, e.key) != None;
    k, w := e.key, e.body;
    LastTouchPrefix(h, h + [b], 0, |h|, k);
    StateIsReplay(h, k);
  }

  /** The shortest such run: INIT, INIT and DEAD of one key. */
  lemma InitInitDeadRevives(k: LedgerKey, v: Body, w: Body, protocol: nat, ts: seq<Timing>)
    requires protocol >= FIRST_PROTOCOL_SHADOWS_REMOVED && |ts| == 3
    ensures var h := [Batch(protocol, [InitEntry(k, v)]), Batch(protocol, [InitEntry(k, w)]),
                      Batch(protocol, [DeadEntry(k)])];
            Run(h, ts).Ok? && Lookup(Run(h, ts).value, k) == Some(v) && MapGet(Replay(h), k) == None
  {
    hide Run, Lookup, Replay;
    var first, second := Batch(protocol, [InitEntry(k, v)]), Batch(protocol, [InitEntry(k, w)]);
    var h := [first, Blank(second), Batch(protocol, [])];
    forall j | 0 <= j < |h|
      ensures InitsCreate(h, j)
    {
      assert LastTouch(h, 0, 0, k) == None;
    }
    assert h == [first] + [Blank(second), Batch(protocol, [])];
    InitOverLiveRevives([first], second, protocol, k, w, ts);
    assert [first] + [second, Batch(protocol, [DeadEntry(k)])]
        == [first, second, Batch(protocol, [DeadEntry(k)])];
    assert [first][..0] == [];
    ReplayLast([first]);
    ApplyEntriesGet(Replay([]), first.entries, k);
  }
}
