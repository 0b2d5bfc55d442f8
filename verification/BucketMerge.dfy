/** The merge as the source runs it: cursors over the two inputs, an output iterator
    that buffers one entry, and the loop between them. */
module BucketMerge {
  import opened Wrappers
  import opened BucketEntries

  /** Reads a bucket file front to back, one entry ahead. */
  class BucketInputIterator {
    const file: seq<BucketEntry>
    var next: nat
    var entry: Option<BucketEntry>

    ghost predicate Valid()
      reads this
    {
      && next <= |file|
      && (entry.Some? ==> next > 0 && entry.value == file[next - 1])
      && (entry.None? ==> next == |file|)
    }

    ghost function Rest(): (r: seq<BucketEntry>)
      requires Valid()
      reads this
      ensures r == [] <==> entry.None?
      ensures entry.Some? ==> r[0] == entry.value
    {
      if entry.None? then [] else file[next - 1..]
    }

    constructor (file: seq<BucketEntry>)
      ensures Valid() && Rest() == file && this.file == file
    {
      this.file := file;
      this.next := if file == [] then 0 else 1;
      this.entry := if file == [] then None else Some(file[0]);
    }

    method Advance()
      requires Valid() && entry.Some?
      modifies this
      ensures Valid() && Rest() == old(Rest())[1..]
    {
      if next < |file| {
        entry, next := Some(file[next]), next + 1;
      } else {
        entry := None;
      }
    }
  }

  class FileMergeInput {
    const oldIter: BucketInputIterator
    const newIter: BucketInputIterator

    ghost predicate Valid()
      reads oldIter, newIter
    {
      oldIter != newIter && oldIter.Valid() && newIter.Valid()
    }

    ghost function OldRest(): seq<BucketEntry>
      requires Valid()
      reads oldIter, newIter
    {
      oldIter.Rest()
    }

    ghost function NewRest(): seq<BucketEntry>
      requires Valid()
      reads oldIter, newIter
    {
      newIter.Rest()
    }

    constructor (oldIter: BucketInputIterator, newIter: BucketInputIterator)
      requires oldIter != newIter && oldIter.Valid() && newIter.Valid()
      ensures Valid() && this.oldIter == oldIter && this.newIter == newIter
    {
      this.oldIter := oldIter;
      this.newIter := newIter;
    }

    predicate IsDone()
      reads oldIter, newIter
    {
      oldIter.entry.None? && newIter.entry.None?
    }

    predicate OldFirst()
      reads oldIter, newIter
    {
      newIter.entry.None? || (oldIter.entry.Some? && KeyLess(oldIter.entry.value.key, newIter.entry.value.key))
    }

    predicate NewFirst()
      reads oldIter, newIter
    {
      oldIter.entry.None? || (newIter.entry.Some? && KeyLess(newIter.entry.value.key, oldIter.entry.value.key))
    }

    predicate EqualKeys()
      reads oldIter, newIter
    {
      && oldIter.entry.Some? && newIter.entry.Some?
      && !KeyLess(oldIter.entry.value.key, newIter.entry.value.key)
      && !KeyLess(newIter.entry.value.key, oldIter.entry.value.key)
    }

    method AdvanceOld()
      requires Valid() && oldIter.entry.Some?
      modifies oldIter
      ensures Valid() && OldRest() == old(OldRest())[1..] && NewRest() == old(NewRest())
    {
      oldIter.Advance();
    }

    method AdvanceNew()
      requires Valid() && newIter.entry.Some?
      modifies newIter
      ensures Valid() && NewRest() == old(NewRest())[1..] && OldRest() == old(OldRest())
    {
      newIter.Advance();
    }
  }

  class MemoryMergeInput {
    const oldEntries: seq<BucketEntry>
    const newEntries: seq<BucketEntry>
    var oldIdx: nat
    var newIdx: nat

    ghost predicate Valid()
      reads this
    {
      oldIdx <= |oldEntries| && newIdx <= |newEntries|
    }

    ghost function OldRest(): seq<BucketEntry>
      requires Valid()
      reads this
    {
      oldEntries[oldIdx..]
    }

    ghost function NewRest(): seq<BucketEntry>
      requires Valid()
      reads this
    {
      newEntries[newIdx..]
    }

    constructor (oldEntries: seq<BucketEntry>, newEntries: seq<BucketEntry>)
      ensures Valid() && OldRest() == oldEntries && NewRest() == newEntries
    {
      this.oldEntries := oldEntries;
      this.newEntries := newEntries;
      oldIdx, newIdx := 0, 0;
    }

    predicate IsDone()
      reads this
    {
      oldIdx >= |oldEntries| && newIdx >= |newEntries|
    }

    predicate OldFirst()
      reads this
    {
      newIdx >= |newEntries| ||
      (oldIdx < |oldEntries| && KeyLess(oldEntries[oldIdx].key, newEntries[newIdx].key))
    }

    predicate NewFirst()
      reads this
    {
      oldIdx >= |oldEntries| ||
      (newIdx < |newEntries| && KeyLess(newEntries[newIdx].key, oldEntries[oldIdx].key))
    }

    predicate EqualKeys()
      reads this
    {
      && oldIdx < |oldEntries| && newIdx < |newEntries|
      && !KeyLess(oldEntries[oldIdx].key, newEntries[newIdx].key)
      && !KeyLess(newEntries[newIdx].key, oldEntries[oldIdx].key)
    }

    method AdvanceOld()
      requires Valid() && oldIdx < |oldEntries|
      modifies this`oldIdx
      ensures Valid() && OldRest() == old(OldRest())[1..] && NewRest() == old(NewRest())
    {
      oldIdx := oldIdx + 1;
    }

    method AdvanceNew()
      requires Valid() && newIdx < |newEntries|
      modifies this`newIdx
      ensures Valid() && NewRest() == old(NewRest())[1..] && OldRest() == old(OldRest())
    {
      newIdx := newIdx + 1;
    }
  }

  /** Exactly one case applies at every unfinished step, for either kind of input. */
  lemma OneCaseApplies(f: FileMergeInput, m: MemoryMergeInput)
    requires f.Valid() && m.Valid()
    ensures !f.IsDone() ==>
              && (f.OldFirst() || f.NewFirst() || f.EqualKeys())
              && !(f.OldFirst() && f.NewFirst()) && !(f.OldFirst() && f.EqualKeys()) && !(f.NewFirst() && f.EqualKeys())
    ensures !m.IsDone() ==>
              && (m.OldFirst() || m.NewFirst() || m.EqualKeys())
              && !(m.OldFirst() && m.NewFirst()) && !(m.OldFirst() && m.EqualKeys()) && !(m.NewFirst() && m.EqualKeys())
    ensures f.OldRest() == m.OldRest() && f.NewRest() == m.NewRest() ==>
              && (f.IsDone() <==> m.IsDone()) && (f.OldFirst() <==> m.OldFirst())
              && (f.NewFirst() <==> m.NewFirst()) && (f.EqualKeys() <==> m.EqualKeys())
  {
    assert m.oldIdx < |m.oldEntries| ==> m.OldRest()[0] == m.oldEntries[m.oldIdx];
    assert m.newIdx < |m.newEntries| ==> m.NewRest()[0] == m.newEntries[m.newIdx];
  }

  /** Writes entries in order, holding the last one back so that an entry with the same
      key can still replace it. */
  class BucketOutputIterator {
    const keepTombstones: bool
    var buf: Option<BucketEntry>
    var written: seq<BucketEntry>

    ghost function Contents(): seq<BucketEntry>
      reads this
    {
      written + OptToSeq(buf)
    }

    constructor (keepTombstones: bool)
      ensures Contents() == [] && this.keepTombstones == keepTombstones
    {
      this.keepTombstones := keepTombstones;
      buf, written := None, [];
    }

    // The precondition is the release assertion of the source: entries arrive in order.
    method Put(e: BucketEntry)
      requires keepTombstones || !IsTombstone(e) ==> buf.None? || !KeyLess(e.key, buf.value.key)
      modifies this
      ensures !keepTombstones && IsTombstone(e) ==> Contents() == old(Contents()) && buf == old(buf)
      ensures keepTombstones || !IsTombstone(e) ==>
                && buf == Some(e)
                && Contents() == (if old(buf).Some? && old(buf).value.key == e.key
                                  then old(written) else old(Contents())) + [e]
    {
      if !keepTombstones && IsTombstone(e) {
        return;
      }
      if buf.Some? && KeyLess(buf.value.key, e.key) {
        written := written + [buf.value];
      }
      buf := Some(e);
    }

    method GetBucket() returns (entries: seq<BucketEntry>)
      modifies this
      ensures entries == old(Contents()) == Contents()
    {
      if buf.Some? {
        written := written + [buf.value];
        buf := None;
      }
      entries := written;
    }
  }

  datatype MergeCounters = MergeCounters(
    oldDefaultAccepted: nat, newDefaultAccepted: nat,
    newInitMergedWithOldDead: nat, oldInitMergedWithNewLive: nat,
    oldInitMergedWithNewDead: nat, newMergedWithOldNeitherInit: nat)
  {
    function Pairs(): nat {
      newInitMergedWithOldDead + oldInitMergedWithNewLive + oldInitMergedWithNewDead + newMergedWithOldNeitherInit
    }

    function Of(kind: PairKind): nat {
      match kind
      case NewInit => newInitMergedWithOldDead
      case InitThenLive => oldInitMergedWithNewLive
      case InitThenDead => oldInitMergedWithNewDead
      case NeitherInit => newMergedWithOldNeitherInit
    }
  }

  /** The four kinds of equal-key pairs that are counted. */
  datatype PairKind = NewInit | InitThenLive | InitThenDead | NeitherInit

  predicate IsPair(o: BucketEntry, n: Option<BucketEntry>, kind: PairKind) {
    n.Some? &&
    match kind
    case NewInit => n.value.InitEntry?
    case InitThenLive => o.InitEntry? && n.value.LiveEntry?
    case InitThenDead => o.InitEntry? && n.value.DeadEntry?
    case NeitherInit => !o.InitEntry? && !n.value.InitEntry?
  }

  /** How many entries of the old side form a pair of the given kind with the new side. */
  function PairsOf(o: seq<BucketEntry>, n: seq<BucketEntry>, kind: PairKind): nat {
    if o == [] then 0
    else (if IsPair(o[0], Find(n, o[0].key), kind) then 1 else 0) + PairsOf(o[1..], n, kind)
  }

  /** The pairs counted and those still to come are all pairs. */
  ghost predicate Counted(o: seq<BucketEntry>, n: seq<BucketEntry>, oRest: seq<BucketEntry>, nRest: seq<BucketEntry>,
                          mc: MergeCounters) {
    forall kind: PairKind :: mc.Of(kind) + PairsOf(oRest, nRest, kind) == PairsOf(o, n, kind)
  }

  lemma {:induction false} PairsAbove(o: seq<BucketEntry>, n: seq<BucketEntry>, kind: PairKind)
    requires n != [] && Sorted(n) && AllAbove(o, n[0].key)
    ensures PairsOf(o, n[1..], kind) == PairsOf(o, n, kind)
    decreases |o|
  {
    hide IsPair;
    if o == [] {
    } else {
      PairsAbove(o[1..], n, kind);
      assert KeyLess(n[0].key, o[0].key);
    }
  }

  lemma CountedOld(o: seq<BucketEntry>, n: seq<BucketEntry>, oRest: seq<BucketEntry>, nRest: seq<BucketEntry>,
                   mc: MergeCounters)
    requires Counted(o, n, oRest, nRest, mc) && oRest != [] && Sorted(nRest)
    requires nRest == [] || KeyLess(oRest[0].key, nRest[0].key)
    ensures Counted(o, n, oRest[1..], nRest, mc.(oldDefaultAccepted := mc.oldDefaultAccepted + 1))
  {
    if nRest != [] { AllAboveHead(nRest, oRest[0].key); }
    FindAbove(nRest, oRest[0].key, oRest[0].key);
    var mc' := mc.(oldDefaultAccepted := mc.oldDefaultAccepted + 1);
    forall kind: PairKind
      ensures mc'.Of(kind) + PairsOf(oRest[1..], nRest, kind) == PairsOf(o, n, kind)
    {
      assert mc'.Of(kind) == mc.Of(kind);
    }
  }

  lemma CountedNew(o: seq<BucketEntry>, n: seq<BucketEntry>, oRest: seq<BucketEntry>, nRest: seq<BucketEntry>,
                   mc: MergeCounters)
    requires Counted(o, n, oRest, nRest, mc) && nRest != [] && Sorted(oRest) && Sorted(nRest)
    requires oRest == [] || KeyLess(nRest[0].key, oRest[0].key)
    ensures Counted(o, n, oRest, nRest[1..], mc.(newDefaultAccepted := mc.newDefaultAccepted + 1))
  {
    if oRest != [] { AllAboveHead(oRest, nRest[0].key); }
    var mc' := mc.(newDefaultAccepted := mc.newDefaultAccepted + 1);
    forall kind: PairKind
      ensures mc'.Of(kind) + PairsOf(oRest, nRest[1..], kind) == PairsOf(o, n, kind)
    {
      PairsAbove(oRest, nRest, kind);
      assert mc'.Of(kind) == mc.Of(kind);
    }
  }

  lemma CountedPair(o: seq<BucketEntry>, n: seq<BucketEntry>, oRest: seq<BucketEntry>, nRest: seq<BucketEntry>,
                    mc: MergeCounters)
    requires Counted(o, n, oRest, nRest, mc) && oRest != [] && nRest != [] && Sorted(oRest) && Sorted(nRest)
    requires oRest[0].key == nRest[0].key
    ensures Counted(o, n, oRest[1..], nRest[1..], CountPair(mc, oRest[0], nRest[0]))
  {
    SortedTail(oRest);
    var mc' := CountPair(mc, oRest[0], nRest[0]);
    forall kind: PairKind
      ensures mc'.Of(kind) + PairsOf(oRest[1..], nRest[1..], kind) == PairsOf(o, n, kind)
    {
      PairsAbove(oRest[1..], nRest, kind);
      assert mc'.Of(kind) == mc.Of(kind) + (if IsPair(oRest[0], Some(nRest[0]), kind) then 1 else 0);
    }
  }

  method NoMerges() returns (mc: MergeCounters)
    ensures mc.oldDefaultAccepted == mc.newDefaultAccepted == mc.oldInitMergedWithNewDead == mc.Pairs() == 0
  {
    mc := MergeCounters(0, 0, 0, 0, 0, 0);
  }

  function CountPair(mc: MergeCounters, o: BucketEntry, n: BucketEntry): MergeCounters {
    if n.InitEntry? then mc.(newInitMergedWithOldDead := mc.newInitMergedWithOldDead + 1)
    else if o.InitEntry? && n.LiveEntry? then mc.(oldInitMergedWithNewLive := mc.oldInitMergedWithNewLive + 1)
    else if o.InitEntry? then mc.(oldInitMergedWithNewDead := mc.oldInitMergedWithNewDead + 1)
    else mc.(newMergedWithOldNeitherInit := mc.newMergedWithOldNeitherInit + 1)
  }

  // ---- What the loop keeps ----

  /** The whole merge is `done` followed by the merge of what is left. */
  ghost predicate Continues(whole: Result<seq<BucketEntry>, MergeError>, done: seq<BucketEntry>,
                            left: Result<seq<BucketEntry>, MergeError>) {
    if left.Ok? then whole.Ok? && whole.value == done + left.value else whole == left
  }

  ghost predicate AllBelow(done: seq<BucketEntry>, rest: seq<BucketEntry>) {
    forall i, j :: 0 <= i < |done| && 0 <= j < |rest| ==> KeyLess(done[i].key, rest[j].key)
  }

  /** `done` is what has been merged so far, and every key in it lies below everything
      still to come. */
  ghost predicate Progress(o: seq<BucketEntry>, n: seq<BucketEntry>, done: seq<BucketEntry>,
                           oRest: seq<BucketEntry>, nRest: seq<BucketEntry>, mc: MergeCounters) {
    && Sorted(oRest) && Sorted(nRest) && Sorted(done)
    && AllBelow(done, oRest) && AllBelow(done, nRest)
    && Continues(MergeEntries(o, n), done, MergeEntries(oRest, nRest))
    && |o| == |oRest| + mc.oldDefaultAccepted + mc.Pairs()
    && |n| == |nRest| + mc.newDefaultAccepted + mc.Pairs()
    && Counted(o, n, oRest, nRest, mc)
    && |done| + mc.oldInitMergedWithNewDead == mc.oldDefaultAccepted + mc.newDefaultAccepted + mc.Pairs()
  }

  lemma SortedSnoc(es: seq<BucketEntry>, e: BucketEntry)
    requires Sorted(es) && forall d :: d in es ==> KeyLess(d.key, e.key)
    ensures Sorted(es + [e])
  {
  }

  lemma TakeOld(o: seq<BucketEntry>, n: seq<BucketEntry>, done: seq<BucketEntry>,
                oRest: seq<BucketEntry>, nRest: seq<BucketEntry>, mc: MergeCounters)
    requires Progress(o, n, done, oRest, nRest, mc)
    requires oRest != [] && (nRest == [] || KeyLess(oRest[0].key, nRest[0].key))
    ensures forall d :: d in done ==> KeyLess(d.key, oRest[0].key)
    ensures Progress(o, n, done + [oRest[0]], oRest[1..], nRest,
                     mc.(oldDefaultAccepted := mc.oldDefaultAccepted + 1))
  {
    hide Counted;
    SortedTail(oRest);
    if nRest != [] { AllAboveHead(nRest, oRest[0].key); }
    SortedSnoc(done, oRest[0]);
    CountedOld(o, n, oRest, nRest, mc);
    var rest := MergeEntries(oRest[1..], nRest);
    if rest.Ok? {
      assert done + ([oRest[0]] + rest.value) == (done + [oRest[0]]) + rest.value;
    }
  }

  lemma TakeNew(o: seq<BucketEntry>, n: seq<BucketEntry>, done: seq<BucketEntry>,
                oRest: seq<BucketEntry>, nRest: seq<BucketEntry>, mc: MergeCounters)
    requires Progress(o, n, done, oRest, nRest, mc)
    requires nRest != [] && (oRest == [] || KeyLess(nRest[0].key, oRest[0].key))
    ensures forall d :: d in done ==> KeyLess(d.key, nRest[0].key)
    ensures Progress(o, n, done + [nRest[0]], oRest, nRest[1..],
                     mc.(newDefaultAccepted := mc.newDefaultAccepted + 1))
  {
    hide Counted;
    SortedTail(nRest);
    if oRest != [] { AllAboveHead(oRest, nRest[0].key); }
    SortedSnoc(done, nRest[0]);
    CountedNew(o, n, oRest, nRest, mc);
    var rest := MergeEntries(oRest, nRest[1..]);
    if rest.Ok? {
      assert done + ([nRest[0]] + rest.value) == (done + [nRest[0]]) + rest.value;
    }
  }

  /** What has been merged stays below the heads, which have the same key. */
  lemma PairInOrder(done: seq<BucketEntry>, oRest: seq<BucketEntry>, nRest: seq<BucketEntry>)
    requires Sorted(oRest) && Sorted(nRest) && Sorted(done) && AllBelow(done, oRest) && AllBelow(done, nRest)
    requires oRest != [] && nRest != []
    requires !KeyLess(oRest[0].key, nRest[0].key) && !KeyLess(nRest[0].key, oRest[0].key)
    ensures oRest[0].key == nRest[0].key
    ensures forall d :: d in done ==> KeyLess(d.key, nRest[0].key)
    ensures Sorted(oRest[1..]) && Sorted(nRest[1..])
    ensures AllBelow(done, oRest[1..]) && AllBelow(done, nRest[1..])
    ensures forall e: BucketEntry :: e.key == nRest[0].key ==>
              Sorted(done + [e]) && AllBelow(done + [e], oRest[1..]) && AllBelow(done + [e], nRest[1..])
  {
    SortedTail(oRest);
    SortedTail(nRest);
    forall e: BucketEntry | e.key == nRest[0].key
      ensures Sorted(done + [e])
    {
      SortedSnoc(done, e);
    }
  }

  lemma TakePair(o: seq<BucketEntry>, n: seq<BucketEntry>, done: seq<BucketEntry>,
                 oRest: seq<BucketEntry>, nRest: seq<BucketEntry>, mc: MergeCounters)
    requires Progress(o, n, done, oRest, nRest, mc)
    requires oRest != [] && nRest != []
    requires !KeyLess(oRest[0].key, nRest[0].key) && !KeyLess(nRest[0].key, oRest[0].key)
    ensures forall d :: d in done ==> KeyLess(d.key, nRest[0].key)
    ensures MergeEqualKeys(oRest[0], nRest[0]).Ok? && MergeEqualKeys(oRest[0], nRest[0]).value.Some?
            ==> MergeEqualKeys(oRest[0], nRest[0]).value.value.key == nRest[0].key
    ensures MergeEqualKeys(oRest[0], nRest[0]).Err? ==>
              MergeEntries(o, n) == Err(MergeEqualKeys(oRest[0], nRest[0]).error)
    ensures MergeEqualKeys(oRest[0], nRest[0]).Ok? ==>
              Progress(o, n, done + OptToSeq(MergeEqualKeys(oRest[0], nRest[0]).value), oRest[1..], nRest[1..],
                       CountPair(mc, oRest[0], nRest[0]))
  {
    hide Sorted, AllBelow, Counted;
    PairInOrder(done, oRest, nRest);
    CountedPair(o, n, oRest, nRest, mc);
    var e := MergeEqualKeys(oRest[0], nRest[0]);
    if e.Ok? {
      assert e.value.None? ==> done + OptToSeq(e.value) == done;
      var rest := MergeEntries(oRest[1..], nRest[1..]);
      if rest.Ok? {
        assert done + (OptToSeq(e.value) + rest.value) == (done + OptToSeq(e.value)) + rest.value;
      }
    }
  }

  lemma {:induction false} ElideSnoc(es: seq<BucketEntry>, e: BucketEntry, keep: bool)
    ensures Elide(es + [e], keep) == Elide(es, keep) + (if keep || !IsTombstone(e) then [e] else [])
    decreases |es|
  {
    if es == [] {
      assert es + [e] == [e];
      assert DropTombstones([e][1..]) == [];
    } else {
      assert (es + [e])[1..] == es[1..] + [e];
      ElideSnoc(es[1..], e, keep);
    }
  }

  /** The output holds the kept part of what has been merged; the buffered entry is one of it. */
  ghost predicate Emitted(out: BucketOutputIterator, done: seq<BucketEntry>)
    reads out
  {
    && out.Contents() == Elide(done, out.keepTombstones)
    && (out.buf.Some? ==> out.buf.value in done)
  }

  method Emit(out: BucketOutputIterator, ghost done: seq<BucketEntry>, e: BucketEntry)
    requires Emitted(out, done)
    requires forall d :: d in done ==> KeyLess(d.key, e.key)
    modifies out
    ensures Emitted(out, done + [e])
  {
    ElideSnoc(done, e, out.keepTombstones);
    out.Put(e);
  }

  lemma EmitsNothing(out: BucketOutputIterator)
    requires out.Contents() == [] && out.buf.None?
    ensures Emitted(out, [])
  {
  }

  lemma EmitsAll(out: BucketOutputIterator, done: seq<BucketEntry>)
    requires Emitted(out, done)
    ensures out.Contents() == Elide(done, out.keepTombstones)
  {
  }

  lemma {:induction false} ProgressStarts(o: seq<BucketEntry>, n: seq<BucketEntry>, done: seq<BucketEntry>,
                                          mc: MergeCounters)
    requires Sorted(o) && Sorted(n) && |done| == 0
    requires mc.oldDefaultAccepted == mc.newDefaultAccepted == mc.oldInitMergedWithNewDead == mc.Pairs() == 0
    ensures Progress(o, n, done, o, n, mc)
  {
    NothingContinues(done, MergeEntries(o, n));
  }

  lemma NothingContinues(done: seq<BucketEntry>, r: Result<seq<BucketEntry>, MergeError>)
    requires |done| == 0
    ensures Continues(r, done, r)
  {
    if r.Ok? {
      assert done + r.value == r.value;
    }
  }

  lemma ProgressEnds(o: seq<BucketEntry>, n: seq<BucketEntry>, done: seq<BucketEntry>, mc: MergeCounters)
    requires Progress(o, n, done, [], [], mc)
    ensures MergeEntries(o, n) == Ok(done)
    ensures |o| == mc.oldDefaultAccepted + mc.Pairs()
    ensures |n| == mc.newDefaultAccepted + mc.Pairs()
    ensures forall kind: PairKind :: mc.Of(kind) == PairsOf(o, n, kind)
    ensures |done| + mc.oldInitMergedWithNewDead == mc.oldDefaultAccepted + mc.newDefaultAccepted + mc.Pairs()
  {
    assert done + [] == done;
  }

  /** The merge loop over in-memory inputs. The counters account for every input entry
      and every output entry. */
  method MergeInternalMemory(input: MemoryMergeInput, out: BucketOutputIterator)
    returns (r: Result<MergeCounters, MergeError>)
    requires input.Valid() && Sorted(input.OldRest()) && Sorted(input.NewRest())
    requires out.Contents() == [] && out.buf.None?
    modifies input, out
    ensures input.Valid()
    ensures r.Err? <==> MergeEntries(old(input.OldRest()), old(input.NewRest())).Err?
    ensures r.Err? ==> r.error == MergeEntries(old(input.OldRest()), old(input.NewRest())).error
    ensures r.Ok? ==>
              && input.OldRest() == [] && input.NewRest() == []
              && out.Contents()
                 == Elide(MergeEntries(old(input.OldRest()), old(input.NewRest())).value, out.keepTombstones)
              && |old(input.OldRest())| == r.value.oldDefaultAccepted + r.value.Pairs()
              && |old(input.NewRest())| == r.value.newDefaultAccepted + r.value.Pairs()
              && (forall kind: PairKind ::
                    r.value.Of(kind) == PairsOf(old(input.OldRest()), old(input.NewRest()), kind))
              && |MergeEntries(old(input.OldRest()), old(input.NewRest())).value| + r.value.oldInitMergedWithNewDead
                 == r.value.oldDefaultAccepted + r.value.newDefaultAccepted + r.value.Pairs()
  {
    hide Progress, PairsOf, MergeEntries, MergeEqualKeys, CountPair, Elide, KeyLess, Sorted, Emitted;
    ghost var o, n := input.OldRest(), input.NewRest();
    ghost var done: seq<BucketEntry> := [];
    var mc := NoMerges();
    EmitsNothing(out);
    ProgressStarts(o, n, done, mc);
    while !input.IsDone()
      invariant input.Valid() && Emitted(out, done)
      invariant Progress(o, n, done, input.OldRest(), input.NewRest(), mc)
      decreases |input.OldRest()| + |input.NewRest()|
    {
      ghost var oRest, nRest := input.OldRest(), input.NewRest();
      if input.OldFirst() {
        TakeOld(o, n, done, oRest, nRest, mc);
        Emit(out, done, input.oldEntries[input.oldIdx]);
        done := done + [oRest[0]];
        mc := mc.(oldDefaultAccepted := mc.oldDefaultAccepted + 1);
        input.AdvanceOld();
      } else if input.NewFirst() {
        TakeNew(o, n, done, oRest, nRest, mc);
        Emit(out, done, input.newEntries[input.newIdx]);
        done := done + [nRest[0]];
        mc := mc.(newDefaultAccepted := mc.newDefaultAccepted + 1);
        input.AdvanceNew();
      } else {
        TakePair(o, n, done, oRest, nRest, mc);
        var merged := MergeEqualKeys(input.oldEntries[input.oldIdx], input.newEntries[input.newIdx]);
        if merged.Err? {
          return Err(merged.error);
        }
        mc := CountPair(mc, input.oldEntries[input.oldIdx], input.newEntries[input.newIdx]);
        if merged.value.Some? {
          Emit(out, done, merged.value.value);
        } else {
          assert done + OptToSeq(merged.value) == done;
        }
        done := done + OptToSeq(merged.value);
        input.AdvanceOld();
        input.AdvanceNew();
      }
    }
    ProgressEnds(o, n, done, mc);
    EmitsAll(out, done);
    r := Ok(mc);
  }

  /** The same loop over file iterators: same output, same counters. */
  method MergeInternalFile(input: FileMergeInput, out: BucketOutputIterator)
    returns (r: Result<MergeCounters, MergeError>)
    requires input.Valid() && Sorted(input.OldRest()) && Sorted(input.NewRest())
    requires out.Contents() == [] && out.buf.None?
    modifies input.oldIter, input.newIter, out
    ensures input.Valid()
    ensures r.Err? <==> MergeEntries(old(input.OldRest()), old(input.NewRest())).Err?
    ensures r.Err? ==> r.error == MergeEntries(old(input.OldRest()), old(input.NewRest())).error
    ensures r.Ok? ==>
              && input.OldRest() == [] && input.NewRest() == []
              && out.Contents()
                 == Elide(MergeEntries(old(input.OldRest()), old(input.NewRest())).value, out.keepTombstones)
              && |old(input.OldRest())| == r.value.oldDefaultAccepted + r.value.Pairs()
              && |old(input.NewRest())| == r.value.newDefaultAccepted + r.value.Pairs()
              && (forall kind: PairKind ::
                    r.value.Of(kind) == PairsOf(old(input.OldRest()), old(input.NewRest()), kind))
              && |MergeEntries(old(input.OldRest()), old(input.NewRest())).value| + r.value.oldInitMergedWithNewDead
                 == r.value.oldDefaultAccepted + r.value.newDefaultAccepted + r.value.Pairs()
  {
    hide Progress, PairsOf, MergeEntries, MergeEqualKeys, CountPair, Elide, KeyLess, Sorted, Emitted,
      BucketInputIterator.Rest,
      BucketInputIterator.Valid;
    ghost var o, n := input.OldRest(), input.NewRest();
    ghost var done: seq<BucketEntry> := [];
    var mc := NoMerges();
    EmitsNothing(out);
    ProgressStarts(o, n, done, mc);
    while !input.IsDone()
      invariant input.Valid() && Emitted(out, done)
      invariant Progress(o, n, done, input.OldRest(), input.NewRest(), mc)
      decreases |input.OldRest()| + |input.NewRest()|
    {
      ghost var oRest, nRest := input.OldRest(), input.NewRest();
      if input.OldFirst() {
        TakeOld(o, n, done, oRest, nRest, mc);
        Emit(out, done, input.oldIter.entry.value);
        done := done + [oRest[0]];
        mc := mc.(oldDefaultAccepted := mc.oldDefaultAccepted + 1);
        input.AdvanceOld();
      } else if input.NewFirst() {
        TakeNew(o, n, done, oRest, nRest, mc);
        Emit(out, done, input.newIter.entry.value);
        done := done + [nRest[0]];
        mc := mc.(newDefaultAccepted := mc.newDefaultAccepted + 1);
        input.AdvanceNew();
      } else {
        TakePair(o, n, done, oRest, nRest, mc);
        var merged := MergeEqualKeys(input.oldIter.entry.value, input.newIter.entry.value);
        if merged.Err? {
          return Err(merged.error);
        }
        mc := CountPair(mc, input.oldIter.entry.value, input.newIter.entry.value);
        if merged.value.Some? {
          Emit(out, done, merged.value.value);
        } else {
          assert done + OptToSeq(merged.value) == done;
        }
        done := done + OptToSeq(merged.value);
        input.AdvanceOld();
        input.AdvanceNew();
      }
    }
    ProgressEnds(o, n, done, mc);
    EmitsAll(out, done);
    r := Ok(mc);
  }

  /** Merging two bucket files front to back. */
  method MergeFiles(o: seq<BucketEntry>, n: seq<BucketEntry>, keepTombstones: bool)
    returns (r: Result<seq<BucketEntry>, MergeError>)
    requires Sorted(o) && Sorted(n)
    ensures r.Err? <==> MergeEntries(o, n).Err?
    ensures r.Err? ==> r.error == MergeEntries(o, n).error
    ensures r.Ok? ==> r.value == Elide(MergeEntries(o, n).value, keepTombstones)
  {
    hide MergeEntries, Elide, Sorted;
    var oi := new BucketInputIterator(o);
    var ni := new BucketInputIterator(n);
    var input := new FileMergeInput(oi, ni);
    var out := new BucketOutputIterator(keepTombstones);
    var merged := MergeInternalFile(input, out);
    if merged.Err? {
      return Err(merged.error);
    }
    var entries := out.GetBucket();
    r := Ok(entries);
  }
}
