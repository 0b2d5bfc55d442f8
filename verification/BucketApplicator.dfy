/** Catch-up: loading the live offers of a bucket list into the database, bucket by
    bucket, newest first, in bounded chunks. */
module BucketApplicator {
  import opened Wrappers
  import opened LedgerSchedule
  import opened BucketEntries
  import opened BucketListModel
  import opened BucketHistory
  import opened BucketListInvariant
  import opened BucketListTheorems

  const OFFER: nat := 2
  const LEDGER_ENTRY_BATCH_COMMIT_SIZE: nat := 0xfff

  // ---- Where the entries of one type lie in a bucket file ----

  // Positions count entries; a missing end means the end of the file.
  datatype Range = Range(start: nat, end: Option<nat>)

  predicate InRange(r: Option<Range>, i: nat) {
    r.Some? && r.value.start <= i && (r.value.end.Some? ==> i < r.value.end.value)
  }

  /** The first i kinds lie in the ranges recorded; the last kind's range is still open. */
  ghost predicate Ranges(ks: seq<nat>, i: nat, starts: map<nat, nat>, ends: map<nat, nat>) {
    && i <= |ks|
    && (forall t :: t in starts ==> i > 0 && starts[t] < i && t <= ks[i - 1])
    && (forall t :: t in ends <==> t in starts && t != ks[i - 1])
    && (forall t :: t in ends ==> ends[t] < i)
    && (forall j :: 0 <= j < i ==> ks[j] in starts && starts[ks[j]] <= j)
    && (forall j :: 0 <= j < i && ks[j] in ends ==> j < ends[ks[j]])
    && (forall t, j :: t in ends && starts[t] <= j < ends[t] ==> ks[j] == t)
    && (forall j :: i > 0 && starts[ks[i - 1]] <= j < i ==> ks[j] == ks[i - 1])
  }

  lemma NewKind(ks: seq<nat>, i: nat, starts: map<nat, nat>, ends: map<nat, nat>)
    requires Ranges(ks, i, starts, ends) && 0 < i < |ks| && ks[i - 1] < ks[i]
    ensures Ranges(ks, i + 1, starts[ks[i] := i], ends[ks[i - 1] := i])
  {
  }

  lemma SameKind(ks: seq<nat>, i: nat, starts: map<nat, nat>, ends: map<nat, nat>)
    requires Ranges(ks, i, starts, ends) && 0 < i < |ks| && ks[i - 1] == ks[i]
    ensures Ranges(ks, i + 1, starts, ends)
  {
  }

  /** One pass over the types of the entries, recording where each starts and ends. */
  method RangeOfKind(ks: seq<nat>, kind: nat) returns (r: Option<Range>)
    requires forall i, j :: 0 <= i <= j < |ks| ==> ks[i] <= ks[j]
    ensures forall i :: 0 <= i < |ks| ==> (InRange(r, i) <==> ks[i] == kind)
    ensures r.Some? ==> r.value.start < |ks|
  {
    var starts: map<nat, nat>, ends: map<nat, nat> := map[], map[];
    var lastTypeSeen: Option<nat> := None;
    var i := 0;
    while i < |ks|
      invariant 0 <= i <= |ks|
      invariant lastTypeSeen == if i == 0 then None else Some(ks[i - 1])
      invariant i == 0 ==> starts == map[] && ends == map[]
      invariant i > 0 ==> Ranges(ks, i, starts, ends)
    {
      hide Ranges;
      var t := ks[i];
      if lastTypeSeen.None? {
        starts := starts[t := i];
        FirstKind(ks);
      } else if t != lastTypeSeen.value {
        NewKind(ks, i, starts, ends);
        ends := ends[lastTypeSeen.value := i];
        starts := starts[t := i];
      } else {
        SameKind(ks, i, starts, ends);
      }
      lastTypeSeen := Some(t);
      i := i + 1;
    }
    if kind !in starts {
      return None;
    }
    r := Some(Range(starts[kind], if kind in ends then Some(ends[kind]) else None));
  }

  lemma FirstKind(ks: seq<nat>)
    requires ks != []
    ensures Ranges(ks, 1, map[ks[0] := 0], map[])
  {
  }

  method TypeRange(es: seq<BucketEntry>, kind: nat) returns (r: Option<Range>)
    requires Sorted(es)
    ensures forall i :: 0 <= i < |es| ==> (InRange(r, i) <==> es[i].key.kind == kind)
    ensures r.Some? ==> r.value.start < |es|
  {
    KindsAscend(es);
    r := RangeOfKind(seq(|es|, i requires 0 <= i < |es| => es[i].key.kind), kind);
  }

  lemma KindsAscend(es: seq<BucketEntry>)
    requires Sorted(es)
    ensures forall i, j :: 0 <= i <= j < |es| ==> es[i].key.kind <= es[j].key.kind
  {
    forall i, j | 0 <= i <= j < |es|
      ensures es[i].key.kind <= es[j].key.kind
    {
      if i < j { assert KeyLess(es[i].key, es[j].key); }
    }
  }

  // ---- What applying a bucket means ----

  datatype Applied = Applied(seen: set<LedgerKey>, db: map<LedgerKey, Body>)

  predicate ShouldApplyEntry(e: BucketEntry) {
    e.key.kind == OFFER
  }

  function ApplyOne(e: BucketEntry, a: Applied): Applied {
    if !ShouldApplyEntry(e) then a
    else if e.DeadEntry? then a.(seen := a.seen + {e.key})
    else if e.key in a.seen then a
    else Applied(a.seen + {e.key}, a.db[e.key := e.body])
  }

  function ApplyBucket(es: seq<BucketEntry>, a: Applied): Applied
    decreases |es|
  {
    if es == [] then a else ApplyBucket(es[1..], ApplyOne(es[0], a))
  }

  /** The state that all applicators of one catch-up share. */
  class Catchup {
    var seenKeys: set<LedgerKey>
    var db: map<LedgerKey, Body>
    ghost var writes: seq<LedgerKey>

    ghost function State(): Applied
      reads this
    {
      Applied(seenKeys, db)
    }

    /** The database holds offers only, all of them seen and each written once. */
    ghost predicate WritesOnce()
      reads this
    {
      && (set k | k in writes) == db.Keys
      && (forall i, j :: 0 <= i < j < |writes| ==> writes[i] != writes[j])
      && (forall k :: k in db ==> k in seenKeys && k.kind == OFFER)
    }

    constructor ()
      ensures State() == Applied({}, map[]) && writes == [] && WritesOnce()
    {
      seenKeys, db, writes := {}, map[], [];
    }

    method See(k: LedgerKey)
      requires WritesOnce()
      modifies this
      ensures WritesOnce() && writes == old(writes)
      ensures State() == Applied(old(seenKeys) + {k}, old(db))
    {
      seenKeys := seenKeys + {k};
    }

    method Write(k: LedgerKey, body: Body)
      requires WritesOnce() && k !in seenKeys && k.kind == OFFER
      modifies this
      ensures WritesOnce() && writes == old(writes) + [k]
      ensures State() == Applied(old(seenKeys) + {k}, old(db)[k := body])
    {
      seenKeys := seenKeys + {k};
      db := db[k := body];
      writes := writes + [k];
    }
  }

  class Applicator {
    const entries: seq<BucketEntry>
    const upperBound: Option<nat>
    var iter: nat
    var count: nat
    var offersRemaining: bool

    ghost predicate Valid()
      reads this
    {
      && Sorted(entries) && iter <= |entries|
      && (forall i :: iter <= i < |entries| ==>
            (ShouldApplyEntry(entries[i]) <==> offersRemaining && (upperBound.Some? ==> i < upperBound.value)))
    }

    /** What is left to do. */
    ghost function Rest(): seq<BucketEntry>
      requires iter <= |entries|
      reads this
    {
      entries[iter..]
    }

    predicate HasWork()
      reads this
    {
      iter < |entries| && offersRemaining
    }

    constructor (b: Bucket)
      requires Sorted(Entries(b))
      ensures Valid() && entries == Entries(b)
      ensures forall a :: ApplyBucket(Rest(), a) == ApplyBucket(entries, a)
    {
      var es := Entries(b);
      var range := TypeRange(es, OFFER);
      entries := es;
      count := 0;
      if range.Some? {
        iter, upperBound, offersRemaining := range.value.start, range.value.end, true;
      } else {
        iter, upperBound, offersRemaining := 0, None, b.EmptyBucket?;
      }
      new;
      if range.Some? {
        forall a
          ensures ApplyBucket(Rest(), a) == ApplyBucket(entries, a)
        {
          SkipOthers(entries, iter, a);
        }
      }
    }

    /** One chunk of work. Wherever the batch limit cuts, what has been done plus what
        is left amounts to applying the whole bucket. */
    method Advance(c: Catchup) returns (n: nat)
      requires Valid() && c.WritesOnce()
      modifies this, c
      ensures Valid() && c.WritesOnce()
      ensures ApplyBucket(Rest(), c.State()) == old(ApplyBucket(Rest(), c.State()))
      ensures old(HasWork()) ==> |Rest()| < old(|Rest()|) || !offersRemaining
      ensures n <= LEDGER_ENTRY_BATCH_COMMIT_SIZE + 1 && (HasWork() ==> n == LEDGER_ENTRY_BATCH_COMMIT_SIZE + 1)
      ensures |c.writes| == old(|c.writes|) + n && count == old(count) + n
    {
      hide ApplyBucket, Sorted, Catchup.WritesOnce;
      n := 0;
      while iter < |entries|
        invariant Valid() && c.WritesOnce()
        invariant ApplyBucket(Rest(), c.State()) == old(ApplyBucket(Rest(), c.State()))
        invariant n <= LEDGER_ENTRY_BATCH_COMMIT_SIZE && count == old(count) && |c.writes| == old(|c.writes|) + n
        invariant old(iter) <= iter && offersRemaining == old(offersRemaining)
        decreases |entries| - iter
      {
        // The iterator's position is the end of the entry it has loaded.
        if upperBound.Some? && iter + 1 > upperBound.value {
          offersRemaining := false;
          break;
        }
        var e := entries[iter];
        assert Rest()[1..] == entries[iter + 1..];
        ApplyStep(Rest(), c.State());
        if ShouldApplyEntry(e) {
          if !e.DeadEntry? {
            if e.key in c.seenKeys {
              iter := iter + 1;
              continue;
            }
          } else {
            c.See(e.key);
            iter := iter + 1;
            continue;
          }
          c.Write(e.key, e.body);
          n := n + 1;
          if n > LEDGER_ENTRY_BATCH_COMMIT_SIZE {
            iter := iter + 1;
            break;
          }
        }
        iter := iter + 1;
      }
      count := count + n;
    }
  }

  lemma ApplyStep(es: seq<BucketEntry>, a: Applied)
    requires es != []
    ensures ApplyBucket(es, a) == ApplyBucket(es[1..], ApplyOne(es[0], a))
  {
  }

  lemma {:induction false} SkipOthers(es: seq<BucketEntry>, n: nat, a: Applied)
    requires n <= |es|
    requires forall i :: 0 <= i < n ==> !ShouldApplyEntry(es[i])
    ensures ApplyBucket(es, a) == ApplyBucket(es[n..], a)
    decreases n
  {
    if n == 0 {
    } else {
      SkipOthers(es[1..], n - 1, a);
      assert es[1..][n - 1..] == es[n..];
    }
  }

  lemma {:induction false} NothingToApply(es: seq<BucketEntry>, a: Applied)
    requires forall i :: 0 <= i < |es| ==> !ShouldApplyEntry(es[i])
    ensures ApplyBucket(es, a) == a
    decreases |es|
  {
    if es == [] {
    } else {
      NothingToApply(es[1..], a);
    }
  }

  /** Apply one bucket, in as many chunks as it takes. */
  method ApplyWholeBucket(b: Bucket, c: Catchup)
    requires Sorted(Entries(b)) && c.WritesOnce()
    modifies c
    ensures c.WritesOnce()
    ensures c.State() == ApplyBucket(Entries(b), old(c.State()))
  {
    var applicator := new Applicator(b);
    while applicator.HasWork()
      invariant applicator.Valid() && fresh(applicator) && c.WritesOnce()
      invariant ApplyBucket(applicator.Rest(), c.State()) == ApplyBucket(Entries(b), old(c.State()))
      decreases applicator.offersRemaining, |applicator.Rest()|
    {
      var n := applicator.Advance(c);
    }
    NothingToApply(applicator.Rest(), c.State());
  }

  // ---- All buckets, newest first ----

  /** After the buckets before position p: a key has been seen exactly when one of them
      has an entry for it, and then the database holds what the newest such entry says. */
  ghost predicate AppliedBefore(ls: seq<Level>, p: nat, a: Applied, k: LedgerKey)
    requires p <= 2 * |ls|
  {
    && (k in a.seen <==> FirstHit(ls, p, k).Some?)
    && MapGet(a.db, k) == Loaded(FirstHit(ls, p, k))
  }

  /** The newest entry for a key among the buckets before position p. */
  function FirstHit(ls: seq<Level>, p: nat, k: LedgerKey): Option<BucketEntry>
    requires p <= 2 * |ls|
  {
    if p == 0 then None
    else if FirstHit(ls, p - 1, k).Some? then FirstHit(ls, p - 1, k)
    else Find(Entries(BucketAt(ls, p - 1)), k)
  }

  /** Applying a sorted bucket decides each of its unseen offer keys and no other key. */
  lemma {:induction false} ApplyBucketByKey(es: seq<BucketEntry>, a: Applied, k: LedgerKey)
    requires Sorted(es) && k.kind == OFFER
    requires MapGet(a.db, k).Some? ==> k in a.seen
    ensures var a' := ApplyBucket(es, a);
            && (k in a'.seen <==> k in a.seen || Find(es, k).Some?)
            && MapGet(a'.db, k) == if k in a.seen then MapGet(a.db, k) else Loaded(Find(es, k))
    decreases |es|
  {
    if es == [] {
    } else {
      SortedTail(es);
      if k == es[0].key { FindAbove(es[1..], k, k); }
      ApplyBucketByKey(es[1..], ApplyOne(es[0], a), k);
    }
  }

  lemma {:induction false} FirstHitIsLookup(ls: seq<Level>, i: nat, k: LedgerKey)
    requires i <= |ls|
    ensures LookupFrom(ls, 0, k)
         == if FirstHit(ls, 2 * i, k).Some? then FirstHit(ls, 2 * i, k) else LookupFrom(ls, i, k)
    decreases i
  {
    hide Find, BucketAt;
    if i == 0 {
    } else {
      FirstHitIsLookup(ls, i - 1, k);
      FirstHitLevel(ls, i - 1, k);
    }
  }

  lemma FirstHitLevel(ls: seq<Level>, i: nat, k: LedgerKey)
    requires i < |ls|
    ensures var c, s := Find(Entries(ls[i].curr), k), Find(Entries(ls[i].snap), k);
            FirstHit(ls, 2 * i + 2, k) == if FirstHit(ls, 2 * i, k).Some? then FirstHit(ls, 2 * i, k)
                                          else if c.Some? then c else s
  {
    hide Find;
    assert BucketAt(ls, 2 * i) == ls[i].curr && BucketAt(ls, 2 * i + 1) == ls[i].snap;
    assert FirstHit(ls, 2 * i + 2, k) == if FirstHit(ls, 2 * i + 1, k).Some? then FirstHit(ls, 2 * i + 1, k)
                                         else Find(Entries(BucketAt(ls, 2 * i + 1)), k);
  }

  /** Catch-up from a bucket list loads exactly the live offers that a lookup returns,
      and writes each of them once. */
  method ApplyBuckets(ls: seq<Level>) returns (c: Catchup)
    requires forall p :: 0 <= p < 2 * |ls| ==> Sorted(Entries(BucketAt(ls, p)))
    ensures fresh(c) && c.WritesOnce()
    ensures forall k: LedgerKey :: k.kind == OFFER ==> MapGet(c.db, k) == Lookup(ls, k)
    ensures forall k :: k in c.db ==> k.kind == OFFER
  {
    hide ApplyBucket, Find, BucketAt, LookupFrom;
    c := new Catchup();
    var p := 0;
    while p < 2 * |ls|
      invariant 0 <= p <= 2 * |ls| && fresh(c) && c.WritesOnce()
      invariant forall k: LedgerKey :: k.kind == OFFER ==> AppliedBefore(ls, p, c.State(), k)
    {
      ghost var before := c.State();
      ApplyWholeBucket(BucketAt(ls, p), c);
      forall k: LedgerKey | k.kind == OFFER
        ensures AppliedBefore(ls, p + 1, c.State(), k)
      {
        assert AppliedBefore(ls, p, before, k);
        ApplyBucketByKey(Entries(BucketAt(ls, p)), before, k);
      }
      p := p + 1;
    }
    forall k: LedgerKey | k.kind == OFFER
      ensures MapGet(c.db, k) == Lookup(ls, k)
    {
      assert AppliedBefore(ls, p, c.State(), k);
      FirstHitIsLookup(ls, |ls|, k);
      LookupPastEnd(ls, k);
    }
  }

  lemma LookupPastEnd(ls: seq<Level>, k: LedgerKey)
    ensures LookupFrom(ls, |ls|, k) == None
  {
  }

  /** Catch-up from any reachable bucket list rebuilds the offers of the plain map. */
  method CatchUp(ls: seq<Level>, ghost h: seq<Batch>) returns (c: Catchup)
    requires WellFormed(h) && Invariant(ls, h)
    ensures fresh(c) && c.WritesOnce()
    ensures forall k: LedgerKey :: k.kind == OFFER ==> MapGet(c.db, k) == MapGet(Replay(h), k)
    ensures forall k :: k in c.db ==> k.kind == OFFER
  {
    hide NewestInCurr, NewestInSnap, LookupFrom, BucketAt, Replay;
    forall p | 0 <= p < 2 * |ls|
      ensures Sorted(Entries(BucketAt(ls, p)))
    {
      BucketAtStandsFor(ls, h, p);
    }
    c := ApplyBuckets(ls);
    forall k: LedgerKey | k.kind == OFFER
      ensures MapGet(c.db, k) == MapGet(Replay(h), k)
    {
      LookupFromIsState(ls, h, 0, k);
      RangesOrdered(|h|, 0);
      StateIsReplay(h, k);
    }
  }
}
