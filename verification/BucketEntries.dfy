/** Bucket entries, sorted buckets, and the single-pass merge of two of them. */
module BucketEntries {
  import opened Wrappers

  // Keys compare by entry type first, then by the identifying fields of the type.
  datatype LedgerKey = LedgerKey(kind: nat, id: nat)

  predicate KeyLess(a: LedgerKey, b: LedgerKey) {
    a.kind < b.kind || (a.kind == b.kind && a.id < b.id)
  }

  type Body = int

  datatype BucketEntry =
    | LiveEntry(key: LedgerKey, body: Body)
    | InitEntry(key: LedgerKey, body: Body)
    | DeadEntry(key: LedgerKey)

  predicate IsTombstone(e: BucketEntry) {
    e.DeadEntry?
  }

  /** Strictly sorted, hence at most one entry for a key. */
  ghost predicate Sorted(es: seq<BucketEntry>) {
    forall i, j :: 0 <= i < j < |es| ==> KeyLess(es[i].key, es[j].key)
  }

  function Find(es: seq<BucketEntry>, k: LedgerKey): (r: Option<BucketEntry>)
    ensures r.Some? ==> r.value in es && r.value.key == k
    ensures r.None? ==> forall e :: e in es ==> e.key != k
  {
    if es == [] then None
    else if es[0].key == k then Some(es[0])
    else Find(es[1..], k)
  }

  datatype MergeError = OldNonDeadNewInit | VersionExceedsMax | ShadowedProtocol

  /** Two entries for one key. INIT on top of anything but DEAD is malformed,
      INIT then DEAD leaves nothing, and the outcome is INIT only if the old entry was. */
  function MergeEqualKeys(old': BucketEntry, new': BucketEntry): Result<Option<BucketEntry>, MergeError> {
    if new'.InitEntry? then
      if !old'.DeadEntry? then Err(OldNonDeadNewInit)
      else Ok(Some(LiveEntry(new'.key, new'.body)))
    else if old'.InitEntry? then
      if new'.LiveEntry? then Ok(Some(InitEntry(new'.key, new'.body)))
      else Ok(None)
    else Ok(Some(new'))
  }

  function Combine(old': Option<BucketEntry>, new': Option<BucketEntry>): Result<Option<BucketEntry>, MergeError> {
    if old'.None? then Ok(new')
    else if new'.None? then Ok(old')
    else MergeEqualKeys(old'.value, new'.value)
  }

  function OptToSeq<T>(o: Option<T>): seq<T> {
    if o.Some? then [o.value] else []
  }

  /** The merge as a recursion over both inputs. */
  function MergeEntries(old': seq<BucketEntry>, new': seq<BucketEntry>): Result<seq<BucketEntry>, MergeError>
    decreases |old'| + |new'|
  {
    if old' == [] && new' == [] then
      Ok([])
    else if new' == [] || (old' != [] && KeyLess(old'[0].key, new'[0].key)) then
      var rest :- MergeEntries(old'[1..], new');
      Ok([old'[0]] + rest)
    else if old' == [] || KeyLess(new'[0].key, old'[0].key) then
      var rest :- MergeEntries(old', new'[1..]);
      Ok([new'[0]] + rest)
    else
      var e :- MergeEqualKeys(old'[0], new'[0]);
      var rest :- MergeEntries(old'[1..], new'[1..]);
      Ok(OptToSeq(e) + rest)
  }

  function DropTombstones(es: seq<BucketEntry>): (r: seq<BucketEntry>)
  {
    if es == [] then []
    else if IsTombstone(es[0]) then DropTombstones(es[1..])
    else [es[0]] + DropTombstones(es[1..])
  }

  function Elide(es: seq<BucketEntry>, keepTombstones: bool): seq<BucketEntry> {
    if keepTombstones then es else DropTombstones(es)
  }

  // ---- Lemmas ----

  ghost predicate AllAbove(es: seq<BucketEntry>, k: LedgerKey) {
    forall e :: e in es ==> KeyLess(k, e.key)
  }

  lemma SortedTail(es: seq<BucketEntry>)
    requires Sorted(es) && es != []
    ensures Sorted(es[1..])
    ensures AllAbove(es[1..], es[0].key)
  {
  }

  lemma SortedCons(e: BucketEntry, es: seq<BucketEntry>)
    requires Sorted(es) && AllAbove(es, e.key)
    ensures Sorted([e] + es)
  {
  }

  lemma FindCons(e: BucketEntry, es: seq<BucketEntry>, k: LedgerKey)
    ensures Find([e] + es, k) == if e.key == k then Some(e) else Find(es, k)
  {
    assert ([e] + es)[1..] == es;
  }

  lemma FindAbove(es: seq<BucketEntry>, bound: LedgerKey, k: LedgerKey)
    requires AllAbove(es, bound)
    requires k == bound || KeyLess(k, bound)
    ensures Find(es, k) == None
  {
  }

  /** Merging keeps every key above a bound that both inputs respect. */
  lemma {:induction false} MergeAbove(old': seq<BucketEntry>, new': seq<BucketEntry>, bound: LedgerKey)
    requires AllAbove(old', bound) && AllAbove(new', bound)
    requires MergeEntries(old', new').Ok?
    ensures AllAbove(MergeEntries(old', new').value, bound)
    decreases |old'| + |new'|
  {
    if old' == [] && new' == [] {
    } else if new' == [] || (old' != [] && KeyLess(old'[0].key, new'[0].key)) {
      MergeAbove(old'[1..], new', bound);
    } else if old' == [] || KeyLess(new'[0].key, old'[0].key) {
      MergeAbove(old', new'[1..], bound);
    } else {
      MergeAbove(old'[1..], new'[1..], bound);
    }
  }

  lemma {:induction false} MergeSorted(old': seq<BucketEntry>, new': seq<BucketEntry>)
    requires Sorted(old') && Sorted(new')
    requires MergeEntries(old', new').Ok?
    ensures Sorted(MergeEntries(old', new').value)
    decreases |old'| + |new'|
  {
    if old' == [] && new' == [] {
    } else if new' == [] || (old' != [] && KeyLess(old'[0].key, new'[0].key)) {
      SortedTail(old');
      MergeSorted(old'[1..], new');
      if new' != [] { SortedTail(new'); AllAboveHead(new', old'[0].key); }
      MergeAbove(old'[1..], new', old'[0].key);
      SortedCons(old'[0], MergeEntries(old'[1..], new').value);
    } else if old' == [] || KeyLess(new'[0].key, old'[0].key) {
      SortedTail(new');
      MergeSorted(old', new'[1..]);
      if old' != [] { SortedTail(old'); AllAboveHead(old', new'[0].key); }
      MergeAbove(old', new'[1..], new'[0].key);
      SortedCons(new'[0], MergeEntries(old', new'[1..]).value);
    } else {
      SortedTail(old');
      SortedTail(new');
      MergeSorted(old'[1..], new'[1..]);
      assert old'[0].key == new'[0].key;
      MergeAbove(old'[1..], new'[1..], old'[0].key);
      var e := MergeEqualKeys(old'[0], new'[0]).value;
      var rest := MergeEntries(old'[1..], new'[1..]).value;
      if e.Some? {
        SortedCons(e.value, rest);
      } else {
        assert OptToSeq(e) + rest == rest;
      }
    }
  }

  lemma AllAboveHead(es: seq<BucketEntry>, k: LedgerKey)
    requires Sorted(es) && es != [] && KeyLess(k, es[0].key)
    ensures AllAbove(es, k)
  {
  }

  /** Looking a key up in a merge gives the combination of the two lookups, and the
      merge fails exactly when some key's combination does. */
  lemma {:induction false} MergeFind(old': seq<BucketEntry>, new': seq<BucketEntry>, k: LedgerKey)
    requires Sorted(old') && Sorted(new')
    requires MergeEntries(old', new').Ok?
    ensures Combine(Find(old', k), Find(new', k)) == Ok(Find(MergeEntries(old', new').value, k))
    decreases |old'| + |new'|
  {
    if old' == [] && new' == [] {
    } else if new' == [] || (old' != [] && KeyLess(old'[0].key, new'[0].key)) {
      SortedTail(old');
      if new' != [] { AllAboveHead(new', old'[0].key); }
      if k == old'[0].key { FindAbove(new', k, k); }
      MergeFind(old'[1..], new', k);
      FindCons(old'[0], MergeEntries(old'[1..], new').value, k);
    } else if old' == [] || KeyLess(new'[0].key, old'[0].key) {
      SortedTail(new');
      if old' != [] { AllAboveHead(old', new'[0].key); }
      if k == new'[0].key { FindAbove(old', k, k); }
      MergeFind(old', new'[1..], k);
      FindCons(new'[0], MergeEntries(old', new'[1..]).value, k);
    } else {
      SortedTail(old');
      SortedTail(new');
      MergeFind(old'[1..], new'[1..], k);
      var e := MergeEqualKeys(old'[0], new'[0]).value;
      var rest := MergeEntries(old'[1..], new'[1..]).value;
      MergeAbove(old'[1..], new'[1..], old'[0].key);
      if e.Some? {
        FindCons(e.value, rest, k);
      } else {
        assert OptToSeq(e) + rest == rest;
        if k == old'[0].key { FindAbove(rest, k, k); }
      }
    }
  }

  lemma {:induction false} MergeSucceeds(old': seq<BucketEntry>, new': seq<BucketEntry>)
    requires Sorted(old') && Sorted(new')
    requires forall k :: Combine(Find(old', k), Find(new', k)).Ok?
    ensures MergeEntries(old', new').Ok?
    decreases |old'| + |new'|
  {
    if old' == [] && new' == [] {
    } else if new' == [] || (old' != [] && KeyLess(old'[0].key, new'[0].key)) {
      SortedTail(old');
      forall k ensures Combine(Find(old'[1..], k), Find(new', k)).Ok? {
        assert Combine(Find(old', k), Find(new', k)).Ok?;
        if k == old'[0].key { FindAbove(old'[1..], k, k); }
      }
      MergeSucceeds(old'[1..], new');
    } else if old' == [] || KeyLess(new'[0].key, old'[0].key) {
      SortedTail(new');
      forall k ensures Combine(Find(old', k), Find(new'[1..], k)).Ok? {
        assert Combine(Find(old', k), Find(new', k)).Ok?;
        if k == new'[0].key { FindAbove(new'[1..], k, k); }
      }
      MergeSucceeds(old', new'[1..]);
    } else {
      SortedTail(old');
      SortedTail(new');
      forall k ensures Combine(Find(old'[1..], k), Find(new'[1..], k)).Ok? {
        assert Combine(Find(old', k), Find(new', k)).Ok?;
        if k == old'[0].key { FindAbove(old'[1..], k, k); FindAbove(new'[1..], k, k); }
      }
      assert Combine(Find(old', old'[0].key), Find(new', old'[0].key)).Ok?;
      MergeSucceeds(old'[1..], new'[1..]);
    }
  }

  /** Elision removes exactly the tombstones. */
  lemma {:induction false} DropTombstonesFind(es: seq<BucketEntry>, k: LedgerKey)
    requires Sorted(es)
    ensures Find(DropTombstones(es), k)
         == if Find(es, k).Some? && IsTombstone(Find(es, k).value) then None else Find(es, k)
    ensures Sorted(DropTombstones(es))
    ensures forall e :: e in DropTombstones(es) ==> e in es
  {
    if es == [] {
    } else {
      SortedTail(es);
      DropTombstonesFind(es[1..], k);
      if IsTombstone(es[0]) {
        if k == es[0].key { FindAbove(es[1..], k, k); }
      } else {
        SortedCons(es[0], DropTombstones(es[1..]));
        FindCons(es[0], DropTombstones(es[1..]), k);
      }
    }
  }
}
