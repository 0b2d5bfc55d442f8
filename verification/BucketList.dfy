/** The bucket list as objects: levels updated in place by snap, commit and prepare,
    and the list that drives them. Each method is proved against the value-level step. */
module BucketList {
  import opened Wrappers
  import opened LedgerSchedule
  import opened BucketEntries
  import opened BucketMerge
  import opened BucketListModel
  import opened BucketHistory
  import opened BucketListInvariant
  import opened BucketListTheorems
  import opened BucketListRestart

  // ---- Merging two buckets by running the loop ----

  method Merge(oldBucket: Bucket, newBucket: Bucket, keepTombstones: bool, maxVersion: nat)
    returns (r: Result<Bucket, MergeError>)
    requires Sorted(Entries(oldBucket)) && Sorted(Entries(newBucket))
    ensures r == MergeBuckets(oldBucket, newBucket, keepTombstones, maxVersion)
  {
    hide MergeEntries, Elide, Sorted;
    var version := Max(Version(oldBucket), Version(newBucket));
    if version > maxVersion {
      return Err(VersionExceedsMax);
    }
    var merged := MergeFiles(Entries(oldBucket), Entries(newBucket), keepTombstones);
    if merged.Err? {
      return Err(merged.error);
    }
    r := Ok(OutputBucket(version, merged.value));
  }

  method MergeEntriesInMemory(oldBucket: Bucket, newBucket: Bucket, protocol: nat)
    returns (r: Result<Bucket, MergeError>)
    requires Sorted(Entries(oldBucket)) && Sorted(Entries(newBucket))
    ensures r == MergeInMemory(oldBucket, newBucket, protocol)
  {
    hide MergeEntries, Sorted;
    var input := new MemoryMergeInput(Entries(oldBucket), Entries(newBucket));
    var out := new BucketOutputIterator(true);
    var merged := MergeInternalMemory(input, out);
    if merged.Err? {
      return Err(merged.error);
    }
    var entries := out.GetBucket();
    r := Ok(OutputBucket(protocol, entries));
  }

  lemma MergeOutputSorted(o: Bucket, n: Bucket, keep: bool, maxVersion: nat, protocol: nat)
    requires Sorted(Entries(o)) && Sorted(Entries(n))
    ensures MergeBuckets(o, n, keep, maxVersion).Ok? ==> Sorted(Entries(MergeBuckets(o, n, keep, maxVersion).value))
    ensures MergeInMemory(o, n, protocol).Ok? ==> Sorted(Entries(MergeInMemory(o, n, protocol).value))
  {
    if MergeEntries(Entries(o), Entries(n)).Ok? {
      MergeSorted(Entries(o), Entries(n));
      DropTombstonesFind(MergeEntries(Entries(o), Entries(n)).value, LedgerKey(0, 0));
    }
  }

  // ---- One level ----

  ghost predicate SortedLevel(l: Level) {
    && Sorted(Entries(l.curr)) && Sorted(Entries(l.snap))
    && (l.next.LiveInputs? ==> Sorted(Entries(l.next.old')) && Sorted(Entries(l.next.new')))
    && (l.next.LiveOutput? ==> Sorted(Entries(l.next.output)))
  }

  class BucketLevel {
    const level: nat
    var curr: Bucket
    var snap: Bucket
    var next: NextCurr

    ghost function State(): Level
      reads this
    {
      Level(curr, snap, next)
    }

    constructor (level: nat)
      ensures this.level == level && State() == Level(EmptyBucket, EmptyBucket, Clear)
    {
      this.level := level;
      curr, snap, next := EmptyBucket, EmptyBucket, Clear;
    }

    method Snap() returns (s: Bucket)
      requires SortedLevel(State())
      modifies this
      ensures State() == SnapLevel(old(State())) && s == snap && SortedLevel(State())
    {
      snap := curr;
      curr := EmptyBucket;
      s := snap;
    }

    method ResolveMerge() returns (r: Result<Bucket, MergeError>)
      requires SortedLevel(State()) && !next.Clear?
      ensures r == Resolve(next)
      ensures r.Ok? ==> Sorted(Entries(r.value))
    {
      match next {
        case LiveInputs(o, n, keep, maxVersion) =>
          MergeOutputSorted(o, n, keep, maxVersion, 0);
          r := Merge(o, n, keep, maxVersion);
        case LiveOutput(b) =>
          r := Ok(b);
      }
    }

    method Commit() returns (r: Result<(), MergeError>)
      requires SortedLevel(State())
      modifies this
      ensures r.Err? <==> CommitLevel(old(State())).Err?
      ensures r.Err? ==> r.error == CommitLevel(old(State())).error
      ensures r.Ok? ==> State() == CommitLevel(old(State())).value && SortedLevel(State()) && next.Clear?
    {
      if next.Clear? {
        return Ok(());
      }
      var b := ResolveMerge();
      if b.Err? {
        return Err(b.error);
      }
      curr, next := b.value, Clear;
      r := Ok(());
    }

    // A merge must not be prepared while another one is running.
    method Prepare(ledger: nat, protocol: nat, incoming: Bucket)
      requires SortedLevel(State()) && Sorted(Entries(incoming))
      requires !next.LiveInputs?
      modifies this
      ensures State() == PrepareLevel(old(State()), level, ledger, protocol, incoming) && SortedLevel(State())
    {
      var base := if ShouldMergeWithEmptyCurr(ledger, level) then EmptyBucket else curr;
      next := LiveInputs(base, incoming, KeepTombstoneEntries(level), protocol);
    }

    method PrepareFirst(ledger: nat, batch: Batch, inMemory: bool) returns (r: Result<(), MergeError>)
      requires SortedLevel(State()) && Sorted(batch.entries)
      requires level == 0 && next.Clear?
      modifies this
      ensures r.Err? <==> PrepareFirstLevel(old(State()), ledger, batch, inMemory).Err?
      ensures r.Err? ==> r.error == PrepareFirstLevel(old(State()), ledger, batch, inMemory).error
      ensures r.Ok? ==>
                State() == PrepareFirstLevel(old(State()), ledger, batch, inMemory).value && SortedLevel(State())
    {
      var base := if ShouldMergeWithEmptyCurr(ledger, level) then EmptyBucket else curr;
      var incoming := Fresh(batch.protocol, batch.entries);
      if inMemory {
        MergeOutputSorted(base, incoming, true, 0, batch.protocol);
        var merged := MergeEntriesInMemory(base, incoming, batch.protocol);
        if merged.Err? {
          return Err(merged.error);
        }
        next := LiveOutput(merged.value);
      } else {
        Prepare(ledger, batch.protocol, incoming);
      }
      r := Ok(());
    }

    method ResolveIfMerging() returns (r: Result<(), MergeError>)
      requires SortedLevel(State())
      modifies this
      ensures r.Err? <==> ResolveNext(old(next)).Err?
      ensures r.Err? ==> r.error == ResolveNext(old(next)).error
      ensures r.Ok? ==> State() == old(State()).(next := ResolveNext(old(next)).value) && SortedLevel(State())
    {
      if next.LiveInputs? {
        var b := ResolveMerge();
        if b.Err? {
          return Err(b.error);
        }
        next := LiveOutput(b.value);
      }
      r := Ok(());
    }
  }

  // ---- The list ----

  class BucketList {
    const levels: seq<BucketLevel>
    ghost var history: seq<Batch>

    ghost predicate Shaped()
      reads this
    {
      && |levels| == NUM_LEVELS
      && (forall i, j :: 0 <= i < j < |levels| ==> levels[i] != levels[j])
      && (forall i :: 0 <= i < |levels| ==> levels[i].level == i)
    }

    ghost function State(): (s: seq<Level>)
      requires Shaped()
      reads this, levels
      ensures |s| == NUM_LEVELS
      ensures forall i :: 0 <= i < NUM_LEVELS ==> s[i] == levels[i].State()
    {
      seq(NUM_LEVELS, i requires 0 <= i < NUM_LEVELS reads this, levels => levels[i].State())
    }

    ghost predicate Valid()
      reads this, levels
    {
      && Shaped()
      && (forall i :: 0 <= i < NUM_LEVELS ==> SortedLevel(levels[i].State()))
      && levels[0].next.Clear?
    }

    /** The list has closed exactly the ledgers of its history. */
    ghost predicate Current()
      reads this, levels
    {
      Valid() && WellFormed(history) && Invariant(State(), history)
    }

    /** The list would be current but for pending merges that were lost. */
    ghost predicate Interrupted()
      reads this, levels
    {
      Valid() && WellFormed(history) && exists ls :: Invariant(ls, history) && MergesForgotten(ls, State())
    }

    constructor ()
      ensures Valid() && State() == EmptyList() && history == [] && Current()
      ensures fresh(levels)
    {
      var ls: seq<BucketLevel> := [];
      var i := 0;
      while i < NUM_LEVELS
        invariant 0 <= i <= NUM_LEVELS && |ls| == i
        invariant forall j :: 0 <= j < i ==>
                    fresh(ls[j]) && ls[j].level == j && ls[j].State() == Level(EmptyBucket, EmptyBucket, Clear)
        invariant forall j, k :: 0 <= j < k < i ==> ls[j] != ls[k]
      {
        var l := new BucketLevel(i);
        ls := ls + [l];
        i := i + 1;
      }
      levels := ls;
      history := [];
      new;
      assert State() == EmptyList();
      EmptyListInvariant();
    }

    method SpillLevels(ledger: nat, protocol: nat) returns (r: Result<(), MergeError>)
      requires Valid()
      modifies levels
      ensures var spec := SpillDown(old(State()), NUM_LEVELS - 1, ledger, protocol);
              && (r.Err? <==> spec.Err?)
              && (r.Err? ==> r.error == spec.error)
              && (r.Ok? ==> Valid() && State() == spec.value)
    {
      hide SortedLevel, Sorted, LevelShouldSpill, CommitLevel, PrepareLevel;
      var i := NUM_LEVELS - 1;
      while i != 0
        invariant 0 <= i < NUM_LEVELS
        invariant Valid()
        invariant SpillDown(State(), i, ledger, protocol) == SpillDown(old(State()), NUM_LEVELS - 1, ledger, protocol)
      {
        if LevelShouldSpill(ledger, i - 1) {
          ghost var before := State();
          var snap := levels[i - 1].Snap();
          var committed := levels[i].Commit();
          if committed.Err? {
            return Err(committed.error);
          }
          levels[i].Prepare(ledger, protocol, snap);
          assert State() == before[i - 1 := SnapLevel(before[i - 1])]
                                  [i := PrepareLevel(CommitLevel(before[i]).value, i, ledger, protocol, snap)];
        }
        i := i - 1;
      }
      r := Ok(());
    }

    method ResolveReadyMerges(ready: set<nat>) returns (r: Result<(), MergeError>)
      requires Valid()
      modifies levels
      ensures var spec := ResolveReady(old(State()), NUM_LEVELS, ready);
              && (r.Err? <==> spec.Err?)
              && (r.Err? ==> r.error == spec.error)
              && (r.Ok? ==> Valid() && State() == spec.value)
    {
      ghost var start := State();
      var i := 0;
      while i < NUM_LEVELS
        invariant 0 <= i <= NUM_LEVELS
        invariant Valid()
        invariant ResolveReady(start, i, ready) == Ok(State())
      {
        ghost var before := State();
        if i in ready {
          var resolved := levels[i].ResolveIfMerging();
          if resolved.Err? {
            ResolveReadyFails(start, i + 1, ready, resolved.error);
            return Err(resolved.error);
          }
          assert State() == before[i := before[i].(next := ResolveNext(before[i].next).value)];
        }
        i := i + 1;
      }
      r := Ok(());
    }

    /** Close one ledger. */
    method AddBatch(ledger: nat, batch: Batch, timing: Timing) returns (r: Result<(), MergeError>)
      requires Valid()
      requires ledger > 0 && Sorted(batch.entries)
      modifies this`history, levels
      ensures var spec := BucketListModel.AddBatch(old(State()), ledger, batch, timing);
              && (r.Err? <==> spec.Err?)
              && (r.Err? ==> r.error == spec.error)
              && (r.Ok? ==> Valid() && State() == spec.value && history == old(history) + [batch])
      ensures old(Current()) && ledger == |old(history)| + 1 && WellFormed(old(history) + [batch]) ==>
                r.Ok? && Current()
    {
      hide Invariant, WellFormed, SpillDown, ResolveReady, PrepareFirstLevel, CommitLevel, SortedLevel, Sorted;
      ghost var before, h := State(), history + [batch];
      if Current() && ledger == |history| + 1 && WellFormed(h) {
        AddBatchKeepsInvariant(before, history, h, timing);
      }
      var spilled := SpillLevels(ledger, batch.protocol);
      if spilled.Err? {
        return Err(spilled.error);
      }
      ghost var middle := State();
      var prepared := levels[0].PrepareFirst(ledger, batch, timing.inMemory);
      if prepared.Err? {
        return Err(prepared.error);
      }
      var committed := levels[0].Commit();
      if committed.Err? {
        return Err(committed.error);
      }
      assert State() == middle[0 := levels[0].State()];
      r := ResolveReadyMerges(timing.ready);
      history := h;
    }

    /** Rebuild lost merges from the buckets. A list that lost any of its pending merges
        is current again. */
    method Restart(ledger: nat) returns (r: Result<(), MergeError>)
      requires Valid()
      modifies levels
      ensures var spec := RestartMerges(old(State()), ledger);
              && (r.Err? <==> spec.Err?)
              && (r.Err? ==> r.error == spec.error)
              && (r.Ok? ==> Valid() && State() == spec.value)
      ensures old(Interrupted()) && ledger == |history| ==> r.Ok? && Current()
    {
      hide Invariant, WellFormed, RestartMerges;
      ghost var before := State();
      if Interrupted() && ledger == |history| {
        var ls :| Invariant(ls, history) && MergesForgotten(ls, before);
        RestartRestores(ls, before, history);
        InvariantLength(ls, history);
        SameOutcomeInvariant(ls, RestartMerges(before, ledger).value, history);
      }
      r := RebuildMerges(ledger);
    }

    method RebuildMerges(ledger: nat) returns (r: Result<(), MergeError>)
      requires Valid()
      modifies levels
      ensures var spec := RestartMerges(old(State()), ledger);
              && (r.Err? <==> spec.Err?)
              && (r.Err? ==> r.error == spec.error)
              && (r.Ok? ==> Valid() && State() == spec.value)
    {
      hide PrepareLevel, RoundDown, LevelHalf, Sorted, ShouldMergeWithEmptyCurr;
      var i := 0;
      while i < NUM_LEVELS
        invariant 0 <= i <= NUM_LEVELS
        invariant Valid()
        invariant RestartFrom(State(), i, ledger) == RestartMerges(old(State()), ledger)
      {
        if levels[i].next.Clear? && i > 0 {
          var snap := levels[i - 1].snap;
          if snap.EmptyBucket? {
            return Ok(());
          }
          var version := Version(snap);
          if version < FIRST_PROTOCOL_SHADOWS_REMOVED {
            return Err(ShadowedProtocol);
          }
          ghost var before := State();
          var mergeStartLedger := RoundDown(ledger, LevelHalf(i - 1));
          levels[i].Prepare(mergeStartLedger, version, snap);
          assert State() == before[i := PrepareLevel(before[i], i, mergeStartLedger, version, snap)];
        }
        i := i + 1;
      }
      r := Ok(());
    }

    /** Newest-first scan with early exit; the value of the key after the last ledger. */
    method Load(k: LedgerKey) returns (result: Option<Body>)
      requires Valid()
      ensures result == Lookup(State(), k)
      ensures Current() ==> result == MapGet(Replay(history), k)
    {
      if Current() {
        LookupFromIsState(State(), history, 0, k);
        RangesOrdered(|history|, 0);
        StateIsReplay(history, k);
      }
      var i := 0;
      while i < NUM_LEVELS
        invariant 0 <= i <= NUM_LEVELS
        invariant Lookup(State(), k) == Loaded(LookupFrom(State(), i, k))
      {
        var e := Find(Entries(levels[i].curr), k);
        if e.Some? {
          return Loaded(e);
        }
        e := Find(Entries(levels[i].snap), k);
        if e.Some? {
          return Loaded(e);
        }
        i := i + 1;
      }
      result := None;
    }
  }

  lemma {:induction false} ResolveReadyFails(ls: seq<Level>, n: nat, ready: set<nat>, error: MergeError)
    requires 1 <= n <= |ls|
    requires ResolveReady(ls, n, ready) == Err(error)
    ensures ResolveReady(ls, |ls|, ready) == Err(error)
  {
    ResolveReadyFailsUpTo(ls, n, |ls|, ready, error);
  }

  lemma {:induction false} ResolveReadyFailsUpTo(ls: seq<Level>, n: nat, m: nat, ready: set<nat>, error: MergeError)
    requires 1 <= n <= m <= |ls|
    requires ResolveReady(ls, n, ready) == Err(error)
    ensures ResolveReady(ls, m, ready) == Err(error)
    decreases m
  {
    if n == m {
    } else {
      ResolveReadyFailsUpTo(ls, n, m - 1, ready, error);
    }
  }
}
