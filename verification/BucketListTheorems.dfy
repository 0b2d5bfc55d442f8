/** What every reachable bucket list guarantees to its users. */
module BucketListTheorems {
  import opened Wrappers
  import opened LedgerSchedule
  import opened BucketEntries
  import opened BucketListModel
  import opened BucketHistory
  import opened BucketListInvariant

  // ---- Lookups refine the plain map ----

  lemma HitDecides(b: Bucket, h: seq<Batch>, lo: nat, hi: nat, k: LedgerKey)
    requires StandsFor(b, h, lo, hi)
    ensures var e := Find(Entries(b), k);
            StateAt(h, hi, k) == if e.Some? then Loaded(e) else StateAt(h, lo, k)
  {
    assert EntryStandsFor(Find(Entries(b), k), h, lo, hi, k);
    StateAfterRange(h, lo, hi, k);
  }

  lemma {:induction false} LookupFromIsState(ls: seq<Level>, h: seq<Batch>, i: nat, k: LedgerKey)
    requires Invariant(ls, h) && i <= NUM_LEVELS
    ensures NewestInCurr(|h|, i) <= |h|
    ensures Loaded(LookupFrom(ls, i, k)) == StateAt(h, NewestInCurr(|h|, i), k)
    decreases NUM_LEVELS - i
  {
    hide NewestInCurr, NewestInSnap, StandsFor, Period;
    LastLevel(|h|);
    if i < NUM_LEVELS {
      assert LevelInvariant(ls, i, h);
      LookupFromIsState(ls, h, i + 1, k);
      RangeWithin(ls[i].curr, h, NewestInSnap(|h|, i), NewestInCurr(|h|, i));
      HitDecides(ls[i].curr, h, NewestInSnap(|h|, i), NewestInCurr(|h|, i), k);
      HitDecides(ls[i].snap, h, NewestInCurr(|h|, i + 1), NewestInSnap(|h|, i), k);
    } else {
      assert LastTouch(h, 0, 0, k) == None;
    }
  }

  /** For every run and every key, the newest-first scan returns what replaying all
      batches on a plain map gives. */
  lemma LookupIsReplay(h: seq<Batch>, ts: seq<Timing>, k: LedgerKey)
    requires WellFormed(h) && |ts| == |h|
    ensures Run(h, ts).Ok?
    ensures Lookup(Run(h, ts).value, k) == MapGet(Replay(h), k)
  {
    hide NewestInCurr, Run;
    RunKeepsInvariant(h, ts);
    LookupFromIsState(Run(h, ts).value, h, 0, k);
    RangesOrdered(|h|, 0);
    StateIsReplay(h, k);
  }

  // ---- Every ledger is in exactly one bucket ----

  /** The buckets in scan order: curr0, snap0, curr1, snap1, ... */
  function BucketAt(ls: seq<Level>, p: nat): Bucket
    requires p < 2 * |ls|
  {
    if p % 2 == 0 then ls[p / 2].curr else ls[p / 2].snap
  }

  function NewestAt(ledger: nat, p: nat): nat {
    if p % 2 == 0 then NewestInCurr(ledger, p / 2) else NewestInSnap(ledger, p / 2)
  }

  ghost predicate Holds(ledger: nat, p: nat, j: nat) {
    NewestAt(ledger, p + 1) < j <= NewestAt(ledger, p)
  }

  lemma BucketAtStandsFor(ls: seq<Level>, h: seq<Batch>, p: nat)
    requires Invariant(ls, h) && p < 2 * NUM_LEVELS
    ensures StandsFor(BucketAt(ls, p), h, NewestAt(|h|, p + 1), NewestAt(|h|, p))
  {
    hide NewestInCurr, NewestInSnap, StandsFor, NextInvariant;
    assert LevelInvariant(ls, p / 2, h);
  }

  lemma {:induction false} NewestDescends(ledger: nat, p: nat, q: nat)
    requires p <= q <= 2 * NUM_LEVELS
    ensures NewestAt(ledger, q) <= NewestAt(ledger, p)
    decreases q - p
  {
    hide NewestInCurr, NewestInSnap;
    if p == q {
    } else {
      RangesOrdered(ledger, p / 2);
      NewestDescends(ledger, p + 1, q);
    }
  }

  lemma {:induction false} HolderExists(ledger: nat, j: nat, p: nat) returns (q: nat)
    requires p <= 2 * NUM_LEVELS && 1 <= j <= NewestAt(ledger, p)
    ensures q < 2 * NUM_LEVELS && Holds(ledger, q, j)
    decreases 2 * NUM_LEVELS - p
  {
    hide NewestInCurr, NewestInSnap;
    LastLevel(ledger);
    if NewestAt(ledger, p + 1) < j {
      q := p;
    } else {
      q := HolderExists(ledger, j, p + 1);
    }
  }

  /** The ranges of the buckets partition the closed ledgers. */
  lemma RangesPartition(ledger: nat, j: nat)
    requires 1 <= j <= ledger
    ensures exists p :: 0 <= p < 2 * NUM_LEVELS && Holds(ledger, p, j)
    ensures forall p, q ::
              0 <= p < 2 * NUM_LEVELS && 0 <= q < 2 * NUM_LEVELS && Holds(ledger, p, j) && Holds(ledger, q, j) ==>
                p == q
  {
    hide NewestInCurr, NewestInSnap, NewestAt;
    RangesOrdered(ledger, 0);
    assert NewestAt(ledger, 0) == ledger by { FirstNewest(ledger); }
    var p := HolderExists(ledger, j, 0);
    forall p, q | 0 <= p < 2 * NUM_LEVELS && 0 <= q < 2 * NUM_LEVELS && Holds(ledger, p, j) && Holds(ledger, q, j)
      ensures p == q
    {
      if p < q {
        NewestDescends(ledger, p + 1, q);
      } else if q < p {
        NewestDescends(ledger, q + 1, p);
      }
    }
  }

  lemma FirstNewest(ledger: nat)
    ensures NewestAt(ledger, 0) == NewestInCurr(ledger, 0) == ledger
  {
    RangesOrdered(ledger, 0);
  }

  lemma {:induction false} TouchedInRange(h: seq<Batch>, lo: nat, hi: nat, k: LedgerKey, j: nat)
    requires hi <= |h| && 1 <= j <= |h|
    requires Find(h[j - 1].entries, k).Some?
    requires forall i :: 0 <= i < |h| && i != j - 1 ==> Find(h[i].entries, k).None?
    ensures LastTouch(h, lo, hi, k) == if lo < j <= hi then Find(h[j - 1].entries, k) else None
    decreases hi
  {
    if hi <= lo || hi == j {
    } else {
      TouchedInRange(h, lo, hi - 1, k, j);
    }
  }

  /** A key written by one ledger only, and not as a deletion, is in exactly the bucket
      that holds that ledger, with the value written there. */
  lemma NothingLostOrDuplicated(h: seq<Batch>, ts: seq<Timing>, k: LedgerKey, j: nat, p: nat)
    requires WellFormed(h) && |ts| == |h| && 1 <= j <= |h| && p < 2 * NUM_LEVELS
    requires Find(h[j - 1].entries, k).Some? && !Find(h[j - 1].entries, k).value.DeadEntry?
    requires forall i :: 0 <= i < |h| && i != j - 1 ==> Find(h[i].entries, k).None?
    ensures Run(h, ts).Ok?
    ensures var e := Find(Entries(BucketAt(Run(h, ts).value, p)), k);
            if Holds(|h|, p, j) then e.Some? && Loaded(e) == Loaded(Find(h[j - 1].entries, k)) else e.None?
  {
    hide NewestInCurr, NewestInSnap, NewestAt, Run, Invariant, BucketAt;
    RunKeepsInvariant(h, ts);
    var ls := Run(h, ts).value;
    BucketAtStandsFor(ls, h, p);
    var lo, hi := NewestAt(|h|, p + 1), NewestAt(|h|, p);
    assert EntryStandsFor(Find(Entries(BucketAt(ls, p)), k), h, lo, hi, k);
    TouchedInRange(h, lo, hi, k, j);
  }

  // ---- The lifecycle invariant ----

  /** The next older entry for a key, below position p. */
  function LookupBelow(ls: seq<Level>, p: nat, k: LedgerKey): Option<BucketEntry>
    requires p < 2 * |ls|
  {
    if p % 2 == 0 && Find(Entries(ls[p / 2].snap), k).Some? then Find(Entries(ls[p / 2].snap), k)
    else LookupFrom(ls, p / 2 + 1, k)
  }

  lemma LookupBelowIsState(ls: seq<Level>, h: seq<Batch>, p: nat, k: LedgerKey)
    requires Invariant(ls, h) && p < 2 * NUM_LEVELS
    ensures NewestAt(|h|, p + 1) <= |h|
    ensures Loaded(LookupBelow(ls, p, k)) == StateAt(h, NewestAt(|h|, p + 1), k)
  {
    hide NewestInCurr, NewestInSnap, StandsFor, NextInvariant, LookupFrom, Find, LastTouch;
    var i := p / 2;
    assert LevelInvariant(ls, i, h);
    LookupFromIsState(ls, h, i + 1, k);
    RangeWithin(ls[i].snap, h, NewestInCurr(|h|, i + 1), NewestInSnap(|h|, i));
    HitDecides(ls[i].snap, h, NewestInCurr(|h|, i + 1), NewestInSnap(|h|, i), k);
  }

  /** In every reachable list the nearest older entry under an INIT is DEAD or missing. */
  lemma NothingLiveUnderInit(h: seq<Batch>, ts: seq<Timing>, p: nat, k: LedgerKey)
    requires WellFormed(h) && |ts| == |h| && p < 2 * NUM_LEVELS
    ensures Run(h, ts).Ok?
    ensures var ls := Run(h, ts).value;
            var e := Find(Entries(BucketAt(ls, p)), k);
            e.Some? && e.value.InitEntry? ==>
              LookupBelow(ls, p, k).None? || LookupBelow(ls, p, k).value.DeadEntry?
  {
    hide NewestInCurr, NewestInSnap, NewestAt, Run, Invariant, BucketAt, LookupBelow;
    RunKeepsInvariant(h, ts);
    var ls := Run(h, ts).value;
    BucketAtStandsFor(ls, h, p);
    LookupBelowIsState(ls, h, p, k);
    assert EntryStandsFor(Find(Entries(BucketAt(ls, p)), k), h, NewestAt(|h|, p + 1), NewestAt(|h|, p), k);
  }

  // ---- Protocol versions ----

  /** Bucket versions never increase from younger to older non-empty buckets, and the
      youngest carries the current protocol. */
  lemma VersionsDescend(h: seq<Batch>, ts: seq<Timing>, p: nat, q: nat)
    requires WellFormed(h) && |ts| == |h| && p <= q < 2 * NUM_LEVELS
    ensures Run(h, ts).Ok?
    ensures var ls := Run(h, ts).value;
            && (BucketAt(ls, p).Bucket? && BucketAt(ls, q).Bucket? ==>
                  BucketAt(ls, q).version <= BucketAt(ls, p).version <= h[|h| - 1].protocol)
            && (h != [] ==> BucketAt(ls, 0).Bucket? && BucketAt(ls, 0).version == h[|h| - 1].protocol)
  {
    hide NewestInCurr, NewestInSnap, NewestAt, Run, Invariant, BucketAt;
    RunKeepsInvariant(h, ts);
    var ls := Run(h, ts).value;
    BucketAtStandsFor(ls, h, p);
    BucketAtStandsFor(ls, h, q);
    NewestDescends(|h|, p, q);
    BucketAtStandsFor(ls, h, 0);
    FirstNewest(|h|);
    if h != [] {
      FirstNonEmpty(|h|);
    }
  }

  lemma FirstNonEmpty(ledger: nat)
    requires ledger >= 1
    ensures NewestAt(ledger, 1) < NewestAt(ledger, 0)
  {
    hide LevelShouldSpill;
    RangesAdvance(ledger, 0);
    RangesOrdered(ledger, 0);
    RangesOrdered(ledger - 1, 0);
  }
}
