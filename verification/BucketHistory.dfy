/** Histories of ledger closes: the plain map they describe, and what it means for a
    bucket to stand for a contiguous range of ledgers. */
module BucketHistory {
  import opened Wrappers
  import opened LedgerSchedule
  import opened BucketEntries
  import opened BucketListModel

  /** The last entry written for a key by ledgers lo + 1 .. hi. */
  function LastTouch(h: seq<Batch>, lo: nat, hi: nat, k: LedgerKey): Option<BucketEntry>
    requires hi <= |h|
    decreases hi
  {
    if hi <= lo then None
    else
      var e := Find(h[hi - 1].entries, k);
      if e.Some? then e else LastTouch(h, lo, hi - 1, k)
  }

  /** The value of a key after ledger hi. */
  function StateAt(h: seq<Batch>, hi: nat, k: LedgerKey): Option<Body>
    requires hi <= |h|
  {
    Loaded(LastTouch(h, 0, hi, k))
  }

  // ---- The plain map that the bucket list stands for ----

  function ApplyEntries(m: map<LedgerKey, Body>, es: seq<BucketEntry>): map<LedgerKey, Body>
    decreases |es|
  {
    if es == [] then m
    else
      var e := es[0];
      var m' := if e.DeadEntry? then m - {e.key} else m[e.key := e.body];
      ApplyEntries(m', es[1..])
  }

  function Replay(h: seq<Batch>): map<LedgerKey, Body> {
    if h == [] then map[] else ApplyEntries(Replay(h[..|h| - 1]), h[|h| - 1].entries)
  }

  function MapGet<K, V>(m: map<K, V>, k: K): Option<V> {
    if k in m then Some(m[k]) else None
  }

  lemma {:induction false} ApplyEntriesGet(m: map<LedgerKey, Body>, es: seq<BucketEntry>, k: LedgerKey)
    requires Sorted(es)
    ensures MapGet(ApplyEntries(m, es), k) == if Find(es, k).Some? then Loaded(Find(es, k)) else MapGet(m, k)
    decreases |es|
  {
    if es == [] {
    } else {
      var e := es[0];
      var m' := if e.DeadEntry? then m - {e.key} else m[e.key := e.body];
      SortedTail(es);
      ApplyEntriesGet(m', es[1..], k);
      if k == e.key {
        FindAbove(es[1..], k, k);
      }
    }
  }

  lemma {:induction false} StateIsReplay(h: seq<Batch>, k: LedgerKey)
    requires forall j :: 0 <= j < |h| ==> Sorted(h[j].entries)
    ensures StateAt(h, |h|, k) == MapGet(Replay(h), k)
    decreases |h|
  {
    if h == [] {
    } else {
      var h0 := h[..|h| - 1];
      StateIsReplay(h0, k);
      ApplyEntriesGet(Replay(h0), h[|h| - 1].entries, k);
      LastTouchPrefix(h0, h, 0, |h0|, k);
    }
  }

  // ---- Well-formed histories ----

  /** Sorted batches at protocols that never decrease and are free of shadows, whose
      INIT entries only create keys that are absent at that point. LIVE and DEAD
      entries are unrestricted. */
  ghost predicate WellFormed(h: seq<Batch>) {
    && |h| < UINT32_RANGE
    && (forall j :: 0 <= j < |h| ==> Sorted(h[j].entries) && h[j].protocol >= FIRST_PROTOCOL_SHADOWS_REMOVED)
    && (forall i, j :: 0 <= i <= j < |h| ==> h[i].protocol <= h[j].protocol)
    && (forall j :: 0 <= j < |h| ==> InitsCreate(h, j))
  }

  ghost predicate InitsCreate(h: seq<Batch>, j: nat)
    requires j < |h|
  {
    forall e :: e in h[j].entries && e.InitEntry? ==> StateAt(h, j, e.key) == None
  }

  lemma {:induction false} LastTouchPrefix(h0: seq<Batch>, h: seq<Batch>, lo: nat, hi: nat, k: LedgerKey)
    requires h0 <= h && hi <= |h0|
    ensures LastTouch(h, lo, hi, k) == LastTouch(h0, lo, hi, k)
    decreases hi
  {
    if hi <= lo {
    } else {
      LastTouchPrefix(h0, h, lo, hi - 1, k);
    }
  }

  lemma {:induction false} LastTouchSplit(h: seq<Batch>, lo: nat, mid: nat, hi: nat, k: LedgerKey)
    requires lo <= mid <= hi <= |h|
    ensures LastTouch(h, lo, hi, k)
         == if LastTouch(h, mid, hi, k).Some? then LastTouch(h, mid, hi, k) else LastTouch(h, lo, mid, k)
    decreases hi
  {
    if hi <= mid {
    } else {
      LastTouchSplit(h, lo, mid, hi - 1, k);
    }
  }

  lemma StateAfterRange(h: seq<Batch>, lo: nat, hi: nat, k: LedgerKey)
    requires lo <= hi <= |h|
    ensures StateAt(h, hi, k)
         == if LastTouch(h, lo, hi, k).Some? then Loaded(LastTouch(h, lo, hi, k)) else StateAt(h, lo, k)
  {
    LastTouchSplit(h, 0, lo, hi, k);
  }

  lemma WellFormedPrefix(h0: seq<Batch>, h: seq<Batch>)
    requires WellFormed(h) && h0 <= h
    ensures WellFormed(h0)
  {
    forall j | 0 <= j < |h0|
      ensures InitsCreate(h0, j)
    {
      assert InitsCreate(h, j);
      forall e | e in h0[j].entries && e.InitEntry?
        ensures StateAt(h0, j, e.key) == None
      {
        LastTouchPrefix(h0, h, 0, j, e.key);
      }
    }
  }

  // ---- What a bucket stands for ----

  /** Ledger j + 1 creates the key only if it is absent, and updates or deletes it only if it
      is present. */
  ghost predicate ProperAt(h: seq<Batch>, j: nat, k: LedgerKey)
    requires j < |h|
  {
    var e := Find(h[j].entries, k);
    e.Some? ==> (e.value.InitEntry? <==> StateAt(h, j, k).None?)
  }

  ghost predicate Proper(h: seq<Batch>, lo: nat, hi: nat, k: LedgerKey)
    requires hi <= |h|
  {
    forall j :: lo <= j < hi ==> ProperAt(h, j, k)
  }

  /** What ledgers lo + 1 .. hi together did to a key: created, updated or deleted it, or
      nothing that shows afterwards. */
  function Net(h: seq<Batch>, lo: nat, hi: nat, k: LedgerKey): Option<BucketEntry>
    requires lo <= hi <= |h|
  {
    if LastTouch(h, lo, hi, k).None? then None
    else
      match (StateAt(h, lo, k), StateAt(h, hi, k))
      case (None, None) => None
      case (None, Some(body)) => Some(InitEntry(k, body))
      case (Some(_), Some(body)) => Some(LiveEntry(k, body))
      case (Some(_), None) => Some(DeadEntry(k))
  }

  /** The entry a bucket holds for a key agrees with the last touch of that key in the
      bucket's ledgers. A missing entry means the key was not touched there, or was
      absent before and after. INIT means the key was absent before. If the ledgers treated
      the key properly the entry is exactly what they did to it. */
  ghost predicate EntryStandsFor(e: Option<BucketEntry>, h: seq<Batch>, lo: nat, hi: nat, k: LedgerKey)
    requires lo <= hi <= |h|
  {
    && (Proper(h, lo, hi, k) ==> e == Net(h, lo, hi, k))
    && var t := LastTouch(h, lo, hi, k);
       match e
       case None => t.None? || (t.value.DeadEntry? && StateAt(h, lo, k).None?)
       case Some(DeadEntry(_)) => t.Some? && t.value.DeadEntry?
       case Some(LiveEntry(_, body)) => t.Some? && !t.value.DeadEntry? && t.value.body == body
       case Some(InitEntry(_, body)) =>
         t.Some? && !t.value.DeadEntry? && t.value.body == body && StateAt(h, lo, k).None?
  }

  lemma ProperPrefix(h0: seq<Batch>, h: seq<Batch>, lo: nat, hi: nat, k: LedgerKey)
    requires h0 <= h && lo <= hi <= |h0|
    ensures Proper(h, lo, hi, k) <==> Proper(h0, lo, hi, k)
    ensures Net(h, lo, hi, k) == Net(h0, lo, hi, k)
  {
    hide LastTouch;
    forall j | 0 <= j <= hi
      ensures StateAt(h, j, k) == StateAt(h0, j, k)
      ensures j < hi ==> (ProperAt(h, j, k) <==> ProperAt(h0, j, k))
    {
      LastTouchPrefix(h0, h, 0, j, k);
    }
    LastTouchPrefix(h0, h, lo, hi, k);
  }

  /** What two adjacent ranges did combines to what their union did. */
  lemma NetCombines(h: seq<Batch>, lo: nat, mid: nat, hi: nat, k: LedgerKey)
    requires lo <= mid <= hi <= |h|
    ensures Proper(h, lo, hi, k) ==> Proper(h, lo, mid, k) && Proper(h, mid, hi, k)
    ensures Combine(Net(h, lo, mid, k), Net(h, mid, hi, k)) == Ok(Net(h, lo, hi, k))
  {
    hide LastTouch;
    LastTouchSplit(h, lo, mid, hi, k);
    StateAfterRange(h, lo, mid, k);
    StateAfterRange(h, mid, hi, k);
  }

  /** A bucket stands for exactly the ledgers lo + 1 .. hi: it is the empty bucket when
      there are none, and otherwise has the protocol of the newest of them. */
  ghost predicate StandsFor(b: Bucket, h: seq<Batch>, lo: nat, hi: nat) {
    && lo <= hi <= |h|
    && (lo == hi ==> b.EmptyBucket?)
    && (lo < hi ==> b.Bucket? && b.version == h[hi - 1].protocol)
    && Sorted(Entries(b))
    && (forall k :: EntryStandsFor(Find(Entries(b), k), h, lo, hi, k))
  }

  lemma StandsForPrefix(b: Bucket, h0: seq<Batch>, h: seq<Batch>, lo: nat, hi: nat)
    requires StandsFor(b, h0, lo, hi) && h0 <= h
    ensures StandsFor(b, h, lo, hi)
  {
    forall k
      ensures EntryStandsFor(Find(Entries(b), k), h, lo, hi, k)
    {
      assert EntryStandsFor(Find(Entries(b), k), h0, lo, hi, k);
      LastTouchPrefix(h0, h, lo, hi, k);
      LastTouchPrefix(h0, h, 0, lo, k);
      ProperPrefix(h0, h, lo, hi, k);
    }
  }

  lemma EmptyStandsFor(h: seq<Batch>, lo: nat)
    requires lo <= |h|
    ensures StandsFor(EmptyBucket, h, lo, lo)
  {
  }

  lemma FreshIsNet(h: seq<Batch>, j: nat, k: LedgerKey)
    requires j < |h|
    ensures Proper(h, j, j + 1, k) ==> Find(h[j].entries, k) == Net(h, j, j + 1, k)
  {
    assert LastTouch(h, j, j, k) == None;
    StateAfterRange(h, j, j + 1, k);
    if Proper(h, j, j + 1, k) {
      assert ProperAt(h, j, k);
    }
  }

  lemma FreshStandsFor(h: seq<Batch>, j: nat)
    requires WellFormed(h) && j < |h|
    ensures StandsFor(Fresh(h[j].protocol, h[j].entries), h, j, j + 1)
  {
    forall k
      ensures EntryStandsFor(Find(h[j].entries, k), h, j, j + 1, k)
    {
      assert InitsCreate(h, j);
      assert LastTouch(h, j, j, k) == None;
      assert LastTouch(h, j, j + 1, k) == Find(h[j].entries, k);
      FreshIsNet(h, j, k);
    }
  }

  /** The equal-key table is exactly what composing two adjacent ranges needs, and on
      such a pair it never reports a malformed bucket. */
  lemma CombineStandsFor(older: Option<BucketEntry>, newer: Option<BucketEntry>,
                         h: seq<Batch>, lo: nat, mid: nat, hi: nat, k: LedgerKey)
    requires lo <= mid <= hi <= |h|
    requires EntryStandsFor(older, h, lo, mid, k)
    requires EntryStandsFor(newer, h, mid, hi, k)
    ensures Combine(older, newer).Ok?
    ensures EntryStandsFor(Combine(older, newer).value, h, lo, hi, k)
  {
    hide LastTouch, Proper, Net;
    LastTouchSplit(h, lo, mid, hi, k);
    StateAfterRange(h, lo, mid, k);
    NetCombines(h, lo, mid, hi, k);
  }

  /** Dropping a tombstone is sound for a range that reaches back to the first ledger. */
  lemma ElisionStandsFor(e: Option<BucketEntry>, h: seq<Batch>, hi: nat, k: LedgerKey)
    requires hi <= |h|
    requires EntryStandsFor(e, h, 0, hi, k)
    ensures EntryStandsFor(if e.Some? && IsTombstone(e.value) then None else e, h, 0, hi, k)
  {
    assert LastTouch(h, 0, 0, k) == None;
  }

  /** Merging the buckets of two adjacent ranges never fails and stands for their union. */
  lemma MergeStandsFor(older: Bucket, newer: Bucket, h: seq<Batch>, lo: nat, mid: nat, hi: nat,
                       keep: bool, maxVersion: nat)
    requires WellFormed(h)
    requires StandsFor(older, h, lo, mid)
    requires StandsFor(newer, h, mid, hi)
    requires mid < hi
    requires keep || lo == 0
    requires maxVersion >= h[hi - 1].protocol
    ensures MergeBuckets(older, newer, keep, maxVersion).Ok?
    ensures MergeBuckets(older, newer, keep, maxVersion) == MergeBuckets(older, newer, keep, Version(newer))
    ensures StandsFor(MergeBuckets(older, newer, keep, maxVersion).value, h, lo, hi)
  {
    var o, n := Entries(older), Entries(newer);
    forall k
      ensures Combine(Find(o, k), Find(n, k)).Ok?
      ensures EntryStandsFor(Combine(Find(o, k), Find(n, k)).value, h, lo, hi, k)
    {
      assert EntryStandsFor(Find(o, k), h, lo, mid, k);
      assert EntryStandsFor(Find(n, k), h, mid, hi, k);
      CombineStandsFor(Find(o, k), Find(n, k), h, lo, mid, hi, k);
    }
    MergeSucceeds(o, n);
    MergeSorted(o, n);
    var merged := MergeEntries(o, n).value;
    var kept := Elide(merged, keep);
    forall k
      ensures EntryStandsFor(Find(kept, k), h, lo, hi, k)
      ensures Sorted(kept)
    {
      MergeFind(o, n, k);
      assert EntryStandsFor(Find(merged, k), h, lo, hi, k);
      if !keep {
        DropTombstonesFind(merged, k);
        ElisionStandsFor(Find(merged, k), h, hi, k);
      }
    }
    assert Sorted(kept) by { if !keep { DropTombstonesFind(merged, LedgerKey(0, 0)); } }
    assert h[hi - 1].protocol >= FIRST_PROTOCOL_SHADOWS_REMOVED;
    assert lo < mid ==> Version(older) <= Version(newer);
  }
}
