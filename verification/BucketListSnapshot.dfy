/** Loading keys from snapshots of the bucket list. */
module BucketListSnapshot {
  import opened Wrappers
  import opened BucketEntries
  import opened BucketListModel

  datatype LedgerEntry = LedgerEntry(key: LedgerKey, body: Body)

  datatype Snapshot = Snapshot(ledgerSeq: nat, levels: seq<Level>)

  ghost predicate Distinct(keys: seq<LedgerKey>) {
    forall i, j :: 0 <= i < j < |keys| ==> keys[i] != keys[j]
  }

  ghost predicate DistinctKeys(es: seq<LedgerEntry>) {
    forall i, j :: 0 <= i < j < |es| ==> es[i].key != es[j].key
  }

  /** One bucket: every key it knows is removed from the wanted keys, and its entry is
      loaded unless it is a tombstone. */
  method LoadKeysFromBucket(b: Bucket, keys: seq<LedgerKey>) returns (rest: seq<LedgerKey>, found: seq<LedgerEntry>)
    requires Distinct(keys)
    ensures Distinct(rest) && DistinctKeys(found)
    ensures forall k :: k in rest <==> k in keys && Find(Entries(b), k).None?
    ensures forall e :: e in found <==> e.key in keys && Loaded(Find(Entries(b), e.key)) == Some(e.body)
  {
    rest, found := [], [];
    var i := 0;
    while i < |keys|
      invariant 0 <= i <= |keys|
      invariant Distinct(rest) && DistinctKeys(found)
      invariant forall k :: k in rest <==> k in keys[..i] && Find(Entries(b), k).None?
      invariant forall e :: e in found <==> e.key in keys[..i] && Loaded(Find(Entries(b), e.key)) == Some(e.body)
    {
      var k := keys[i];
      assert keys[..i + 1] == keys[..i] + [k];
      assert k !in keys[..i];
      var e := Find(Entries(b), k);
      if e.None? {
        rest := rest + [k];
      } else if !IsTombstone(e.value) {
        found := found + [LedgerEntry(k, e.value.body)];
      }
      i := i + 1;
    }
    assert keys[..i] == keys;
  }

  /** Scanning has reached level i: keys still wanted have not been met, every other key
      has been decided, once. */
  ghost predicate Scanned(ls: seq<Level>, i: nat, inKeys: seq<LedgerKey>, keys: seq<LedgerKey>,
                          entries: seq<LedgerEntry>)
    requires i <= |ls|
  {
    && Distinct(keys) && DistinctKeys(entries)
    && (forall k :: k in keys ==> k in inKeys && Lookup(ls, k) == Loaded(LookupFrom(ls, i, k)))
    && Decided(ls, inKeys, keys, entries)
  }

  ghost predicate Decided(ls: seq<Level>, inKeys: seq<LedgerKey>, keys: seq<LedgerKey>, entries: seq<LedgerEntry>) {
    forall e :: e in entries <==> e.key in inKeys && e.key !in keys && Lookup(ls, e.key) == Some(e.body)
  }

  lemma DecideBucket(ls: seq<Level>, inKeys: seq<LedgerKey>, keys: seq<LedgerKey>, entries: seq<LedgerEntry>,
                     b: Bucket, rest: seq<LedgerKey>, found: seq<LedgerEntry>)
    requires Distinct(keys) && DistinctKeys(entries) && Decided(ls, inKeys, keys, entries)
    requires forall k :: k in keys ==> k in inKeys
    requires forall k :: k in keys && Find(Entries(b), k).Some? ==> Lookup(ls, k) == Loaded(Find(Entries(b), k))
    requires DistinctKeys(found)
    requires forall k :: k in rest <==> k in keys && Find(Entries(b), k).None?
    requires forall e :: e in found <==> e.key in keys && Loaded(Find(Entries(b), e.key)) == Some(e.body)
    ensures DistinctKeys(entries + found)
    ensures Decided(ls, inKeys, rest, entries + found)
  {
    hide Find, Lookup;
    var all := entries + found;
    forall e
      ensures e in all <==> e.key in inKeys && e.key !in rest && Lookup(ls, e.key) == Some(e.body)
    {
      assert e in all <==> e in entries || e in found;
      if e.key in keys {
        assert e !in entries;
      }
    }
    forall i, j | 0 <= i < j < |all|
      ensures all[i].key != all[j].key
    {
      if i < |entries| <= j {
        assert all[i] in entries && all[j] in found;
      }
    }
  }

  /** Loads, for every requested key, exactly the value a single load would return, and
      each key at most once. */
  method LoadKeys(ls: seq<Level>, inKeys: seq<LedgerKey>) returns (entries: seq<LedgerEntry>)
    requires Distinct(inKeys)
    ensures DistinctKeys(entries)
    ensures forall e :: e in entries <==> e.key in inKeys && Lookup(ls, e.key) == Some(e.body)
  {
    hide Find, Lookup, Distinct, DistinctKeys, Decided;
    var keys := inKeys;
    entries := [];
    StartScan(ls, inKeys);
    var i := 0;
    while i < |ls|
      invariant 0 <= i <= |ls|
      invariant Scanned(ls, i, inKeys, keys, entries)
    {
      UnfoldLookup(ls, i);
      var rest, found := LoadKeysFromBucket(ls[i].curr, keys);
      DecideBucket(ls, inKeys, keys, entries, ls[i].curr, rest, found);
      keys, entries := rest, entries + found;
      if keys == [] {
        EndScan(ls, inKeys, keys, entries);
        return;
      }
      rest, found := LoadKeysFromBucket(ls[i].snap, keys);
      DecideBucket(ls, inKeys, keys, entries, ls[i].snap, rest, found);
      keys, entries := rest, entries + found;
      i := i + 1;
      if keys == [] {
        EndScan(ls, inKeys, keys, entries);
        return;
      }
    }
    EndScan(ls, inKeys, keys, entries);
  }

  lemma StartScan(ls: seq<Level>, inKeys: seq<LedgerKey>)
    requires Distinct(inKeys)
    ensures Scanned(ls, 0, inKeys, inKeys, [])
  {
  }

  lemma UnfoldLookup(ls: seq<Level>, i: nat)
    requires i < |ls|
    ensures forall k ::
              LookupFrom(ls, i, k) == if Find(Entries(ls[i].curr), k).Some? then Find(Entries(ls[i].curr), k)
                                      else if Find(Entries(ls[i].snap), k).Some? then Find(Entries(ls[i].snap), k)
                                      else LookupFrom(ls, i + 1, k)
  {
  }

  lemma EndScan(ls: seq<Level>, inKeys: seq<LedgerKey>, keys: seq<LedgerKey>, entries: seq<LedgerEntry>)
    requires DistinctKeys(entries) && Decided(ls, inKeys, keys, entries)
    requires keys == [] || forall k :: k in keys ==> Lookup(ls, k).None?
    ensures DistinctKeys(entries)
    ensures forall e :: e in entries <==> e.key in inKeys && Lookup(ls, e.key) == Some(e.body)
  {
    hide Lookup;
    forall e
      ensures e in entries <==> e.key in inKeys && Lookup(ls, e.key) == Some(e.body)
    {
      if e.key in keys {
        assert Lookup(ls, e.key).None?;
      }
    }
  }

  /** The snapshot manager's answer: the current snapshot, a kept historical one, or
      nothing for a ledger that is no longer available. */
  method LoadKeysAt(current: Snapshot, historical: map<nat, Snapshot>, inKeys: seq<LedgerKey>, ledgerSeq: Option<nat>)
    returns (r: Option<seq<LedgerEntry>>)
    requires Distinct(inKeys)
    ensures r.None? <==> ledgerSeq.Some? && ledgerSeq.value != current.ledgerSeq && ledgerSeq.value !in historical
    ensures r.Some? ==>
              var s := if ledgerSeq.None? || ledgerSeq.value == current.ledgerSeq then current
                       else historical[ledgerSeq.value];
              && DistinctKeys(r.value)
              && forall e :: e in r.value <==> e.key in inKeys && Lookup(s.levels, e.key) == Some(e.body)
  {
    hide Lookup;
    if ledgerSeq.None? || ledgerSeq.value == current.ledgerSeq {
      var entries := LoadKeys(current.levels, inKeys);
      return Some(entries);
    }
    if ledgerSeq.value !in historical {
      return None;
    }
    var entries := LoadKeys(historical[ledgerSeq.value].levels, inKeys);
    r := Some(entries);
  }
}
