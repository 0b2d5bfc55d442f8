/** The bookkeeping of finished merges: which key gave which output, which outputs use
    an input, and which keys produced an output. */
module BucketMergeMap {
  import opened Wrappers

  datatype Hash = Hash(bits: nat)

  datatype MergeKey = MergeKey(keepTombstones: bool, inputCurr: Hash, inputSnap: Hash, inputShadows: seq<Hash>)

  datatype Merge = Merge(key: MergeKey, output: Hash)

  function MergeKeyHashes(k: MergeKey): set<Hash> {
    {k.inputCurr, k.inputSnap} + (set i | 0 <= i < |k.inputShadows| :: k.inputShadows[i])
  }

  /** A bucket is an input of a merge as its `curr`, its snap or one of its shadows. */
  ghost predicate HasInput(k: MergeKey, i: Hash) {
    i == k.inputCurr || i == k.inputSnap || i in k.inputShadows
  }

  lemma HashesAreInputs()
    ensures forall k, i :: i in MergeKeyHashes(k) <==> HasInput(k, i)
  {
  }

  // ---- Views of a history of recorded merges ----

  /** The keys of the merges that produced an output, in order, repeats included. */
  function Producing(h: seq<Merge>, o: Hash): seq<MergeKey> {
    if h == [] then []
    else Producing(h[..|h| - 1], o) + (if h[|h| - 1].output == o then [h[|h| - 1].key] else [])
  }

  /** How many of the merges have the given input. */
  function Uses(ks: seq<MergeKey>, i: Hash): nat {
    if ks == [] then 0
    else Uses(ks[..|ks| - 1], i) + (if i in MergeKeyHashes(ks[|ks| - 1]) then 1 else 0)
  }

  /** Key to output; the first output recorded for a key stays. */
  function KeyView(h: seq<Merge>): map<MergeKey, Hash> {
    if h == [] then map[]
    else
      var m, last := KeyView(h[..|h| - 1]), h[|h| - 1];
      if last.key in m then m else m[last.key := last.output]
  }

  function Without(h: seq<Merge>, o: Hash): seq<Merge> {
    if h == [] then []
    else Without(h[..|h| - 1], o) + (if h[|h| - 1].output == o then [] else [h[|h| - 1]])
  }

  /** A key that produced o never produced anything else. */
  ghost predicate OnlyProduces(h: seq<Merge>, o: Hash) {
    forall m, m' :: m in h && m' in h && m.output == o && m'.key == m.key ==> m'.output == o
  }

  ghost predicate OutputsAreFunctional(h: seq<Merge>) {
    forall m, m' :: m in h && m' in h && m.key == m'.key ==> m.output == m'.output
  }

  // ---- Facts about the views ----

  lemma {:induction false} ProducingWithout(h: seq<Merge>, o: Hash, p: Hash)
    ensures Producing(Without(h, o), p) == if p == o then [] else Producing(h, p)
  {
    if h == [] {
    } else {
      var h0, last := h[..|h| - 1], h[|h| - 1];
      ProducingWithout(h0, o, p);
      if last.output != o {
        var w := Without(h0, o);
        assert Without(h, o) == w + [last];
        assert (w + [last])[..|w + [last]| - 1] == w;
      } else {
        assert Without(h, o) == Without(h0, o);
      }
    }
  }

  lemma {:induction false} ProducingMember(h: seq<Merge>, o: Hash, k: MergeKey)
    ensures k in Producing(h, o) <==> Merge(k, o) in h
  {
    if h == [] {
    } else {
      ProducingMember(h[..|h| - 1], o, k);
      assert h == h[..|h| - 1] + [h[|h| - 1]];
    }
  }

  lemma {:induction false} WithoutMember(h: seq<Merge>, o: Hash, m: Merge)
    ensures m in Without(h, o) <==> m in h && m.output != o
  {
    if h == [] {
    } else {
      WithoutMember(h[..|h| - 1], o, m);
      assert h == h[..|h| - 1] + [h[|h| - 1]];
    }
  }

  lemma {:induction false} KeyViewMember(h: seq<Merge>, k: MergeKey)
    ensures k in KeyView(h) <==> exists m :: m in h && m.key == k
    ensures k in KeyView(h) ==> Merge(k, KeyView(h)[k]) in h
  {
    if h == [] {
    } else {
      var h0, last := h[..|h| - 1], h[|h| - 1];
      KeyViewMember(h0, k);
      KeyViewMember(h0, last.key);
      assert h == h0 + [last];
    }
  }

  /** Merge `n` is the first of the history that has its key. */
  ghost predicate FirstOfKey(h: seq<Merge>, n: nat) {
    n < |h| && forall j :: 0 <= j < n ==> h[j].key != h[n].key
  }

  /** The key view gives a key the output of the first merge recorded for it. */
  lemma {:induction false} KeyViewFirst(h: seq<Merge>, n: nat)
    requires FirstOfKey(h, n)
    ensures h[n].key in KeyView(h) && KeyView(h)[h[n].key] == h[n].output
  {
    var h0, last := h[..|h| - 1], h[|h| - 1];
    if n == |h| - 1 {
      KeyViewMember(h0, last.key);
    } else {
      KeyViewFirst(h0, n);
    }
  }

  /** Forgetting o keeps the first recorded output of every key that never produced o. */
  lemma {:induction false} KeyViewWithout(h: seq<Merge>, o: Hash, k: MergeKey)
    requires Merge(k, o) !in h
    ensures k in KeyView(Without(h, o)) <==> k in KeyView(h)
    ensures k in KeyView(h) ==> KeyView(Without(h, o))[k] == KeyView(h)[k]
  {
    if h == [] {
    } else {
      var h0, last := h[..|h| - 1], h[|h| - 1];
      assert forall m :: m in h0 ==> m in h;
      assert last in h;
      KeyViewWithout(h0, o, k);
      assert h0 + [last] == h;
      KeyViewSnoc(h0, last, k);
      if last.output != o {
        KeyViewSnoc(Without(h0, o), last, k);
      } else {
        assert last == Merge(last.key, o);
        assert Without(h, o) == Without(h0, o);
      }
    }
  }

  lemma KeyViewSnoc(h: seq<Merge>, m: Merge, k: MergeKey)
    ensures k in KeyView(h + [m]) <==> k in KeyView(h) || k == m.key
    ensures k in KeyView(h) ==> KeyView(h + [m])[k] == KeyView(h)[k]
    ensures k !in KeyView(h) && k == m.key ==> KeyView(h + [m])[k] == m.output
  {
    assert (h + [m])[..|h + [m]| - 1] == h;
  }

  /** Erasing the keys that produced o leaves the key view of the remaining history
      exactly when those keys never produced anything else. */
  lemma ForgetKeepsKeysIff(h: seq<Merge>, o: Hash)
    ensures KeyView(h) - (set k | k in Producing(h, o)) == KeyView(Without(h, o)) <==> OnlyProduces(h, o)
  {
    var dropped := set k | k in Producing(h, o);
    var after, view := KeyView(h) - dropped, KeyView(Without(h, o));
    if OnlyProduces(h, o) {
      forall k
        ensures k in after <==> k in view
        ensures k in after ==> after[k] == view[k]
      {
        ProducingMember(h, o, k);
        if Merge(k, o) in h {
          KeyViewMember(Without(h, o), k);
          if k in view {
            WithoutMember(h, o, Merge(k, view[k]));
            assert false;
          }
        } else {
          KeyViewWithout(h, o, k);
        }
      }
      assert after == view;
    } else {
      var m, m' :| m in h && m' in h && m.output == o && m'.key == m.key && m'.output != o;
      ProducingMember(h, o, m.key);
      WithoutMember(h, o, m');
      KeyViewMember(Without(h, o), m.key);
      assert m.key in view && m.key !in after;
    }
  }

  lemma FunctionalOnlyProduces(h: seq<Merge>, o: Hash)
    requires OutputsAreFunctional(h)
    ensures OnlyProduces(h, o)
    ensures OutputsAreFunctional(Without(h, o))
  {
    forall m, m' | m in Without(h, o) && m' in Without(h, o) && m.key == m'.key
      ensures m.output == m'.output
    {
      WithoutMember(h, o, m);
      WithoutMember(h, o, m');
    }
  }

  /** A concrete history whose key view is damaged: one key, two outputs. */
  lemma ForgetCanLoseAKey(k: MergeKey)
    ensures var h := [Merge(k, Hash(1)), Merge(k, Hash(2))];
            && KeyView(Without(h, Hash(2))) == map[k := Hash(1)]
            && k !in KeyView(h) - (set x | x in Producing(h, Hash(2)))
  {
    var h := [Merge(k, Hash(1)), Merge(k, Hash(2))];
    assert h[..1] == [Merge(k, Hash(1))] && h[..1][..0] == [];
    assert Without(h, Hash(2)) == Without(h[..1], Hash(2)) == [Merge(k, Hash(1))];
    ProducingMember(h, Hash(2), k);
  }

  lemma {:induction false} UsesRemove(ks: seq<MergeKey>, n: nat, i: Hash)
    requires n < |ks|
    ensures Uses(ks, i) == Uses(ks[..n] + ks[n + 1..], i) + (if i in MergeKeyHashes(ks[n]) then 1 else 0)
    decreases |ks|
  {
    hide MergeKeyHashes;
    var last := |ks| - 1;
    if n == last {
      assert ks[..n] + ks[n + 1..] == ks[..last];
    } else {
      UsesRemove(ks[..last], n, i);
      var r := ks[..n] + ks[n + 1..];
      assert ks[..last][..n] == ks[..n];
      assert ks[..last][n + 1..] == ks[n + 1..][..last - n - 1];
      assert r[..|r| - 1] == ks[..last][..n] + ks[..last][n + 1..];
      assert r[|r| - 1] == ks[last];
    }
  }

  lemma {:induction false} UsesPositive(ks: seq<MergeKey>, i: Hash)
    ensures Uses(ks, i) > 0 <==> exists k :: k in ks && i in MergeKeyHashes(k)
  {
    if ks == [] {
    } else {
      UsesPositive(ks[..|ks| - 1], i);
      assert ks == ks[..|ks| - 1] + [ks[|ks| - 1]];
    }
  }

  lemma MultisetRemove<T>(ks: seq<T>, n: nat)
    requires n < |ks|
    ensures multiset(ks) == multiset(ks[..n] + ks[n + 1..]) + multiset{ks[n]}
  {
    assert ks == ks[..n] + ([ks[n]] + ks[n + 1..]);
  }

  lemma RemoveMembers<T>(ks: seq<T>, n: nat)
    requires n < |ks|
    ensures forall k :: k in ks <==> k in ks[..n] + ks[n + 1..] || k == ks[n]
  {
    assert ks == ks[..n] + ([ks[n]] + ks[n + 1..]);
  }

  lemma ProducingSnoc(h: seq<Merge>, m: Merge, o: Hash)
    ensures Producing(h + [m], o) == Producing(h, o) + (if m.output == o then [m.key] else [])
  {
    assert (h + [m])[..|h + [m]| - 1] == h;
  }

  lemma UsesSnoc(ks: seq<MergeKey>, k: MergeKey, i: Hash)
    ensures Uses(ks + [k], i) == Uses(ks, i) + (if i in MergeKeyHashes(k) then 1 else 0)
  {
    assert (ks + [k])[..|ks + [k]| - 1] == ks;
  }

  // ---- The three maps ----

  /** The values a multimap holds under a key. */
  function At<K, V>(m: map<K, multiset<V>>, k: K): multiset<V> {
    if k in m then m[k] else multiset{}
  }

  /** How often a multimap holds a value under a key. */
  function Count<K, V>(m: map<K, multiset<V>>, k: K, v: V): nat {
    if k in m then m[k][v] else 0
  }

  function Insert<K(!new), V(!new)>(m: map<K, multiset<V>>, k: K, v: V): (r: map<K, multiset<V>>)
    ensures forall j, w :: Count(r, j, w) == Count(m, j, w) + (if j == k && w == v then 1 else 0)
  {
    m[k := At(m, k) + multiset{v}]
  }

  function EraseOne<K(!new), V(!new)>(m: map<K, multiset<V>>, k: K, v: V): (r: map<K, multiset<V>>)
    requires v in At(m, k)
    ensures forall j, w :: Count(r, j, w) == Count(m, j, w) - (if j == k && w == v then 1 else 0)
  {
    m[k := At(m, k) - multiset{v}]
  }

  lemma NoMembers<T(!new)>(ks: seq<T>)
    requires forall k :: multiset(ks)[k] == 0
    ensures ks == []
  {
    assert multiset(ks) == multiset{};
    assert |multiset(ks)| == |ks|;
  }

  class BucketMergeMap {
    var mergeKeyToOutput: map<MergeKey, Hash>
    var inputToOutput: map<Hash, multiset<Hash>>
    var outputToMergeKey: map<Hash, multiset<MergeKey>>
    // The merges recorded and not forgotten.
    ghost var history: seq<Merge>

    ghost predicate Valid()
      reads this
    {
      && (forall o, k :: Count(outputToMergeKey, o, k) == multiset(Producing(history, o))[k])
      && (forall i, o :: Count(inputToOutput, i, o) == Uses(Producing(history, o), i))
      && (forall k :: k in mergeKeyToOutput ==> Merge(k, mergeKeyToOutput[k]) in history)
    }

    ghost predicate KeysExact()
      reads this
    {
      mergeKeyToOutput == KeyView(history)
    }

    constructor ()
      ensures Valid() && KeysExact() && history == []
    {
      mergeKeyToOutput, inputToOutput, outputToMergeKey := map[], map[], map[];
      history := [];
    }

    method AddInputs(inputs: set<Hash>, output: Hash)
      modifies this`inputToOutput
      ensures forall i, o :: Count(inputToOutput, i, o)
                == Count(old(inputToOutput), i, o) + (if i in inputs && o == output then 1 else 0)
    {
      var left := inputs;
      while left != {}
        invariant left <= inputs
        invariant forall i, o :: Count(inputToOutput, i, o)
                    == Count(old(inputToOutput), i, o) + (if i in inputs && i !in left && o == output then 1 else 0)
        decreases left
      {
        var i :| i in left;
        inputToOutput := Insert(inputToOutput, i, output);
        left := left - {i};
      }
    }

    method RemoveInputs(inputs: set<Hash>, output: Hash)
      requires forall i :: i in inputs ==> Count(inputToOutput, i, output) > 0
      modifies this`inputToOutput
      ensures forall i, o :: Count(inputToOutput, i, o)
                == Count(old(inputToOutput), i, o) - (if i in inputs && o == output then 1 else 0)
    {
      var left := inputs;
      while left != {}
        invariant left <= inputs
        invariant forall i, o :: Count(inputToOutput, i, o)
                    == Count(old(inputToOutput), i, o) - (if i in inputs && i !in left && o == output then 1 else 0)
        decreases left
      {
        var i :| i in left;
        assert Count(inputToOutput, i, output) > 0;
        if output in At(inputToOutput, i) {
          inputToOutput := EraseOne(inputToOutput, i, output);
        }
        left := left - {i};
      }
    }

    method RecordMerge(input: MergeKey, output: Hash)
      requires Valid()
      modifies this
      ensures Valid() && history == old(history) + [Merge(input, output)]
      ensures old(KeysExact()) ==> KeysExact()
    {
      hide Uses, Producing, MergeKeyHashes, Count, Insert;
      ghost var h := history;
      if input !in mergeKeyToOutput {
        mergeKeyToOutput := mergeKeyToOutput[input := output];
      }
      ghost var uses, keys := inputToOutput, outputToMergeKey;
      outputToMergeKey := Insert(outputToMergeKey, output, input);
      AddInputs(MergeKeyHashes(input), output);
      history := h + [Merge(input, output)];
      assert history[..|history| - 1] == h;
      forall o, k
        ensures Count(outputToMergeKey, o, k) == multiset(Producing(history, o))[k]
      {
        assert Count(keys, o, k) == multiset(Producing(h, o))[k];
        ProducingSnoc(h, Merge(input, output), o);
      }
      forall i, o
        ensures Count(inputToOutput, i, o) == Uses(Producing(history, o), i)
      {
        assert Count(uses, i, o) == Uses(Producing(h, o), i);
        ProducingSnoc(h, Merge(input, output), o);
        UsesSnoc(Producing(h, o), input, i);
        assert Producing(h, o) + [] == Producing(h, o);
      }
    }

    /** While the merges producing o are being dropped, `ks` are the ones still there. */
    ghost predicate Dropping(h: seq<Merge>, o: Hash, ks: seq<MergeKey>)
      reads this
    {
      && (forall p, k :: Count(outputToMergeKey, p, k) == multiset(if p == o then ks else Producing(h, p))[k])
      && (forall i, p :: Count(inputToOutput, i, p) == Uses(if p == o then ks else Producing(h, p), i))
    }

    method ForgetOne(mk: MergeKey, ghost h: seq<Merge>, o: Hash, ghost ks: seq<MergeKey>, ghost n: nat)
      requires Dropping(h, o, ks) && n < |ks| && ks[n] == mk
      modifies this`inputToOutput, this`outputToMergeKey
      ensures Dropping(h, o, ks[..n] + ks[n + 1..])
    {
      hide Uses, Producing, MergeKeyHashes, EraseOne;
      ghost var rest := ks[..n] + ks[n + 1..];
      ghost var uses, keys := inputToOutput, outputToMergeKey;
      MultisetRemove(ks, n);
      forall i
        ensures Uses(ks, i) == Uses(rest, i) + (if i in MergeKeyHashes(mk) then 1 else 0)
        ensures Count(uses, i, o) == Uses(ks, i)
      {
        UsesRemove(ks, n, i);
      }
      RemoveInputs(MergeKeyHashes(mk), o);
      assert Count(keys, o, mk) == multiset(ks)[mk];
      outputToMergeKey := EraseOne(outputToMergeKey, o, mk);
      forall p, k
        ensures Count(outputToMergeKey, p, k) == multiset(if p == o then rest else Producing(h, p))[k]
      {
        assert Count(keys, p, k) == multiset(if p == o then ks else Producing(h, p))[k];
      }
      forall i, p
        ensures Count(inputToOutput, i, p) == Uses(if p == o then rest else Producing(h, p), i)
      {
        assert Count(uses, i, p) == Uses(if p == o then ks else Producing(h, p), i);
      }
    }

    /** Drops every merge producing an output: afterwards the two multimaps are the views
        of the remaining history, and the dropped keys are gone from the key map. That
        map stays exact exactly when those keys never produced anything else. */
    method ForgetAllMergesProducing(o: Hash) returns (ret: set<MergeKey>)
      requires Valid()
      modifies this
      ensures Valid() && history == Without(old(history), o)
      ensures forall k :: k in ret <==> Merge(k, o) in old(history)
      ensures mergeKeyToOutput == old(mergeKeyToOutput) - ret
      ensures forall k :: k in mergeKeyToOutput ==> mergeKeyToOutput[k] != o
      ensures old(KeysExact()) ==> (KeysExact() <==> OnlyProduces(old(history), o))
    {
      hide Uses, Producing, MergeKeyHashes, KeyView, Without, Count;
      ghost var h := history;
      ret := DropAll(o);
      forall p
        ensures Producing(Without(h, o), p) == if p == o then [] else Producing(h, p)
      {
        ProducingWithout(h, o, p);
      }
      forall k
        ensures k in ret <==> Merge(k, o) in h
      {
        ProducingMember(h, o, k);
      }
      assert ret == set k | k in Producing(h, o);
      ForgetKeepsKeysIff(h, o);
      history := Without(h, o);
      forall k | k in mergeKeyToOutput
        ensures Merge(k, mergeKeyToOutput[k]) in history && mergeKeyToOutput[k] != o
      {
        WithoutMember(h, o, Merge(k, mergeKeyToOutput[k]));
      }
    }

    method DropAll(o: Hash) returns (ret: set<MergeKey>)
      requires Valid()
      modifies this`mergeKeyToOutput, this`inputToOutput, this`outputToMergeKey
      ensures Dropping(history, o, [])
      ensures forall k :: k in ret <==> k in Producing(history, o)
      ensures mergeKeyToOutput == old(mergeKeyToOutput) - ret
    {
      hide Uses, Producing, MergeKeyHashes, Count;
      ghost var ks := Producing(history, o);
      ret := {};
      while At(outputToMergeKey, o) != multiset{}
        invariant Dropping(history, o, ks)
        invariant forall k :: k in ret || k in ks <==> k in Producing(history, o)
        invariant mergeKeyToOutput == old(mergeKeyToOutput) - ret
        decreases |ks|
      {
        var mk :| mk in At(outputToMergeKey, o);
        ghost var n := StillListed(history, o, ks, mk);
        RemoveMembers(ks, n);
        ForgetOne(mk, history, o, ks, n);
        ret := ret + {mk};
        mergeKeyToOutput := mergeKeyToOutput - {mk};
        ks := ks[..n] + ks[n + 1..];
      }
      NoneListed(history, o, ks);
    }

    lemma StillListed(h: seq<Merge>, o: Hash, ks: seq<MergeKey>, mk: MergeKey) returns (n: nat)
      requires Dropping(h, o, ks) && mk in At(outputToMergeKey, o)
      ensures n < |ks| && ks[n] == mk
    {
      hide Uses, Producing;
      assert Count(outputToMergeKey, o, mk) == multiset(ks)[mk];
      assert mk in multiset(ks);
      n :| 0 <= n < |ks| && ks[n] == mk;
    }

    lemma NoneListed(h: seq<Merge>, o: Hash, ks: seq<MergeKey>)
      requires Dropping(h, o, ks) && At(outputToMergeKey, o) == multiset{}
      ensures ks == []
    {
      hide Uses, Producing;
      forall k
        ensures multiset(ks)[k] == 0
      {
        assert Count(outputToMergeKey, o, k) == multiset(ks)[k];
      }
      NoMembers(ks);
    }

    /** Only merges recorded and not forgotten are found. */
    method FindMergeFor(input: MergeKey) returns (output: Option<Hash>)
      requires Valid()
      ensures output.Some? ==> Merge(input, output.value) in history
      ensures KeysExact() && output.None? ==> forall o :: Merge(input, o) !in history
      ensures KeysExact() && OutputsAreFunctional(history) ==>
                forall o :: output == Some(o) <==> Merge(input, o) in history
      ensures KeysExact() ==>
                forall n: nat :: FirstOfKey(history, n) && history[n].key == input ==> output == Some(history[n].output)
    {
      KeyViewMember(history, input);
      forall n: nat | FirstOfKey(history, n)
        ensures history[n].key in KeyView(history) && KeyView(history)[history[n].key] == history[n].output
      {
        KeyViewFirst(history, n);
      }
      output := if input in mergeKeyToOutput then Some(mergeKeyToOutput[input]) else None;
    }

    method GetOutputsUsingInput(input: Hash) returns (outputs: set<Hash>)
      requires Valid()
      ensures forall o :: o in outputs <==> exists m :: m in history && m.output == o && HasInput(m.key, input)
    {
      hide Uses, Producing, MergeKeyHashes, HasInput;
      HashesAreInputs();
      outputs := set o | o in At(inputToOutput, input);
      forall o
        ensures o in outputs <==> exists m :: m in history && m.output == o && HasInput(m.key, input)
      {
        assert Count(inputToOutput, input, o) == Uses(Producing(history, o), input);
        UsesPositive(Producing(history, o), input);
        forall k
          ensures k in Producing(history, o) <==> Merge(k, o) in history
        {
          ProducingMember(history, o, k);
        }
        if o in outputs {
          var k :| k in Producing(history, o) && input in MergeKeyHashes(k);
          assert Merge(k, o) in history;
        }
        if m :| m in history && m.output == o && HasInput(m.key, input) {
          assert m == Merge(m.key, o);
          assert m.key in Producing(history, o);
        }
      }
    }
  }
}
