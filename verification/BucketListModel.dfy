/** The bucket list as a state machine on values: levels, deferred merges, and the
    step that closes one ledger. */
module BucketListModel {
  import opened Wrappers
  import opened LedgerSchedule
  import opened BucketEntries

  // First protocols with INIT/META entries and without shadow buckets.
  const FIRST_PROTOCOL_WITH_META: nat := 11
  const FIRST_PROTOCOL_SHADOWS_REMOVED: nat := 12

  /** An empty bucket has no file at all; any other bucket carries the protocol
      version of its META entry next to its sorted entries. */
  datatype Bucket = EmptyBucket | Bucket(version: nat, entries: seq<BucketEntry>)

  function Version(b: Bucket): nat {
    if b.EmptyBucket? then 0 else b.version
  }

  function Entries(b: Bucket): seq<BucketEntry> {
    if b.EmptyBucket? then [] else b.entries
  }

  function Max(a: nat, b: nat): nat {
    if a < b then b else a
  }

  // Without a META entry, a bucket that received no entry has no file.
  function OutputBucket(version: nat, entries: seq<BucketEntry>): Bucket {
    if version < FIRST_PROTOCOL_WITH_META && entries == [] then EmptyBucket else Bucket(version, entries)
  }

  function MergeBuckets(old': Bucket, new': Bucket, keepTombstones: bool, maxVersion: nat): Result<Bucket, MergeError> {
    var version := Max(Version(old'), Version(new'));
    if version > maxVersion then Err(VersionExceedsMax)
    else
      var merged :- MergeEntries(Entries(old'), Entries(new'));
      Ok(OutputBucket(version, Elide(merged, keepTombstones)))
  }

  /** The level-0 merge in memory: stamped with the ledger's protocol, unchecked. */
  function MergeInMemory(old': Bucket, new': Bucket, protocol: nat): Result<Bucket, MergeError> {
    var merged :- MergeEntries(Entries(old'), Entries(new'));
    Ok(OutputBucket(protocol, merged))
  }

  function Fresh(protocol: nat, entries: seq<BucketEntry>): Bucket {
    OutputBucket(protocol, entries)
  }

  predicate KeepTombstoneEntries(level: nat) {
    level < NUM_LEVELS - 1
  }

  /** A pending merge: absent, running on its captured inputs, or resolved. */
  datatype NextCurr =
    | Clear
    | LiveInputs(old': Bucket, new': Bucket, keepTombstones: bool, maxVersion: nat)
    | LiveOutput(output: Bucket)

  function Resolve(next: NextCurr): Result<Bucket, MergeError>
    requires !next.Clear?
  {
    match next
    case LiveInputs(o, n, keep, maxVersion) => MergeBuckets(o, n, keep, maxVersion)
    case LiveOutput(b) => Ok(b)
  }

  datatype Level = Level(curr: Bucket, snap: Bucket, next: NextCurr)

  function SnapLevel(l: Level): Level {
    l.(snap := l.curr, curr := EmptyBucket)
  }

  function CommitLevel(l: Level): Result<Level, MergeError> {
    if l.next.Clear? then Ok(l)
    else
      var b :- Resolve(l.next);
      Ok(l.(curr := b, next := Clear))
  }

  function PrepareLevel(l: Level, level: nat, ledger: nat, protocol: nat, snap: Bucket): Level {
    var curr := if ShouldMergeWithEmptyCurr(ledger, level) then EmptyBucket else l.curr;
    l.(next := LiveInputs(curr, snap, KeepTombstoneEntries(level), protocol))
  }

  function PrepareFirstLevel(l: Level, ledger: nat, batch: Batch, inMemory: bool): Result<Level, MergeError> {
    var curr := if ShouldMergeWithEmptyCurr(ledger, 0) then EmptyBucket else l.curr;
    var snap := Fresh(batch.protocol, batch.entries);
    if inMemory then
      var merged :- MergeInMemory(curr, snap, batch.protocol);
      Ok(l.(next := LiveOutput(merged)))
    else
      Ok(PrepareLevel(l, 0, ledger, batch.protocol, snap))
  }

  /** What one ledger close adds: the protocol version and the sorted entries. */
  datatype Batch = Batch(protocol: nat, entries: seq<BucketEntry>)

  /** What the environment decides at a ledger close: which background merges have
      finished, and whether the level-0 merge has its inputs in memory. */
  datatype Timing = Timing(ready: set<nat>, inMemory: bool)

  /** The spill loop, counting down from level i to level 1. */
  function SpillDown(ls: seq<Level>, i: nat, ledger: nat, protocol: nat): (r: Result<seq<Level>, MergeError>)
    requires i < |ls|
    ensures r.Ok? ==> |r.value| == |ls|
    decreases i
  {
    if i == 0 then Ok(ls)
    else if LevelShouldSpill(ledger, i - 1) then
      var younger := SnapLevel(ls[i - 1]);
      var committed :- CommitLevel(ls[i]);
      SpillDown(ls[i - 1 := younger][i := PrepareLevel(committed, i, ledger, protocol, younger.snap)],
                i - 1, ledger, protocol)
    else SpillDown(ls, i - 1, ledger, protocol)
  }

  function ResolveNext(next: NextCurr): Result<NextCurr, MergeError> {
    if next.LiveInputs? then
      var b :- Resolve(next);
      Ok(LiveOutput(b))
    else Ok(next)
  }

  /** Resolve, among the first n levels, those whose merge has finished. */
  function ResolveReady(ls: seq<Level>, n: nat, ready: set<nat>): (r: Result<seq<Level>, MergeError>)
    requires n <= |ls|
    ensures r.Ok? ==> |r.value| == |ls|
  {
    if n == 0 then Ok(ls)
    else
      var rest :- ResolveReady(ls, n - 1, ready);
      if n - 1 in ready then
        var next :- ResolveNext(rest[n - 1].next);
        Ok(rest[n - 1 := rest[n - 1].(next := next)])
      else Ok(rest)
  }

  function AddBatch(ls: seq<Level>, ledger: nat, batch: Batch, timing: Timing): (r: Result<seq<Level>, MergeError>)
    requires |ls| == NUM_LEVELS
    ensures r.Ok? ==> |r.value| == NUM_LEVELS
  {
    var spilled :- SpillDown(ls, NUM_LEVELS - 1, ledger, batch.protocol);
    var prepared :- PrepareFirstLevel(spilled[0], ledger, batch, timing.inMemory);
    var committed :- CommitLevel(prepared);
    ResolveReady(spilled[0 := committed], NUM_LEVELS, timing.ready)
  }

  function EmptyList(): (r: seq<Level>)
    ensures |r| == NUM_LEVELS
    ensures forall i :: 0 <= i < NUM_LEVELS ==> r[i] == Level(EmptyBucket, EmptyBucket, Clear)
  {
    seq(NUM_LEVELS, _ => Level(EmptyBucket, EmptyBucket, Clear))
  }

  /** Close the given ledgers, starting at `ledger`, on a list. */
  function RunFrom(ls: seq<Level>, ledger: nat, h: seq<Batch>, ts: seq<Timing>): (r: Result<seq<Level>, MergeError>)
    requires |ls| == NUM_LEVELS && |ts| == |h|
    ensures r.Ok? ==> |r.value| == NUM_LEVELS
    decreases |h|
  {
    if h == [] then Ok(ls)
    else
      var ls' :- AddBatch(ls, ledger, h[0], ts[0]);
      RunFrom(ls', ledger + 1, h[1..], ts[1..])
  }

  /** A whole run: ledger j + 1 closes with batch h[j]. */
  function Run(h: seq<Batch>, ts: seq<Timing>): (r: Result<seq<Level>, MergeError>)
    requires |ts| == |h|
    ensures r.Ok? ==> |r.value| == NUM_LEVELS
  {
    RunFrom(EmptyList(), 1, h, ts)
  }

  /** Newest-first scan of curr and snap of each level. */
  function LookupFrom(ls: seq<Level>, i: nat, k: LedgerKey): Option<BucketEntry>
    requires i <= |ls|
    decreases |ls| - i
  {
    if i == |ls| then None
    else
      var c := Find(Entries(ls[i].curr), k);
      var s := Find(Entries(ls[i].snap), k);
      if c.Some? then c else if s.Some? then s else LookupFrom(ls, i + 1, k)
  }

  function Loaded(e: Option<BucketEntry>): Option<Body> {
    if e.None? || IsTombstone(e.value) then None else Some(e.value.body)
  }

  function Lookup(ls: seq<Level>, k: LedgerKey): Option<Body> {
    Loaded(LookupFrom(ls, 0, k))
  }
}
