/** The binary fuse filter: population by repeated attempts, and membership. The keyed
    hash is a parameter. */
module FuseFilter {
  import opened DivMod
  import opened Bits
  import opened FuseGeometry
  import opened FuseTables
  import opened FusePlacement
  import opened FuseFill
  import opened FusePeeling
  import opened FuseAssign
  import opened FuseAttempt
  import opened FuseSeeds

  const MAX_KEYS: nat := 0xffff_ffff

  class BinaryFuse {
    const g: Shape
    const bits: nat
    const sip: Sip
    var seed: seq<byte>
    const prints: array<nat>

    ghost predicate Valid()
      reads this, prints
    {
      && bits in {8, 16, 32}
      && prints.Length == g.ArrayLength()
      && Words(prints[..], bits)
      && |seed| == SEED_BYTES
    }

    constructor (g: Shape, bits: nat, sip: Sip, seed: seq<byte>)
      requires bits in {8, 16, 32} && |seed| == SEED_BYTES
      ensures Valid() && fresh(prints)
      ensures this.g == g && this.bits == bits && this.sip == sip && this.seed == seed
      ensures forall s :: 0 <= s < prints.Length ==> prints[s] == 0
    {
      hide Pow2;
      this.g, this.bits, this.sip, this.seed := g, bits, sip, seed;
      prints := new nat[g.ArrayLength()](_ => 0);
    }

    function Contain(key: uint64): bool
      requires Valid()
      reads this, prints
    {
      var hash := sip(key, seed);
      var f := Fingerprint(hash) % Pow2(bits);
      var slots := HashBatch(g, hash);
      SlotsAreConsecutive(g, hash);
      Xor(f, Xor(Xor(prints[slots.h0], prints[slots.h1]), prints[slots.h2])) == 0
    }

    /** A key is reported exactly when its slots combine to its fingerprint. */
    lemma ContainIffSolved(key: uint64)
      requires Valid()
      ensures Contain(key) <==> Solved(g, prints[..], bits, sip(key, seed))
    {
      hide Xor, Fingerprint, HashBatch, BinaryFuseHash, Pow2;
      var hash := sip(key, seed);
      SegmentCapSuffices(g, hash);
      XorZeroMeansEqual(Fingerprint(hash) % Pow2(bits),
                        Xor(Xor(prints[Slot(g, 0, hash)], prints[Slot(g, 1, hash)]), prints[Slot(g, 2, hash)]));
    }

    /** A key is reported exactly when its three slots combine to the two halves of its hash,
        each cut to the width of the filter. */
    lemma ContainIffHalves(key: uint64)
      requires Valid()
      ensures var hash, s := sip(key, seed), HashBatch(g, sip(key, seed));
              && s.h0 < prints.Length && s.h1 < prints.Length && s.h2 < prints.Length
              && (Contain(key) <==> Xor(Xor(prints[s.h0], prints[s.h1]), prints[s.h2])
                                    == Xor(hash % Pow2(bits), (hash / TWO_32) % Pow2(bits)))
    {
      hide Xor, Fingerprint, HashBatch, Pow2;
      var hash := sip(key, seed);
      SlotsAreConsecutive(g, hash);
      FingerprintHalves(hash, bits);
      var s := HashBatch(g, hash);
      XorZeroMeansEqual(Fingerprint(hash) % Pow2(bits), Xor(Xor(prints[s.h0], prints[s.h1]), prints[s.h2]));
    }

    /** Where the slots of a key are zero, as in a new filter, it is reported exactly when the
        halves of its hash agree; a key with the hash 1 is not. */
    lemma ContainInZeros(key: uint64)
      requires Valid() && forall s :: 0 <= s < prints.Length ==> prints[s] == 0
      ensures Contain(key) <==> sip(key, seed) % Pow2(bits) == (sip(key, seed) / TWO_32) % Pow2(bits)
      ensures sip(key, seed) == 1 ==> !Contain(key)
    {
      hide Xor, HashBatch, Pow2, Contain;
      var hash := sip(key, seed);
      ContainIffHalves(key);
      XorZero(0);
      XorZeroMeansEqual(hash % Pow2(bits), (hash / TWO_32) % Pow2(bits));
      PowMonotone(1, bits);
      PowDouble(0);
      PowZero();
      DivModUnique(1, Pow2(bits), 0, 1);
      DivModUnique(0, Pow2(bits), 0, 0);
    }

    /** The seed in use is that of attempt i, and that attempt is the one that succeeds. */
    ghost predicate SeedOfAttempt(keys: seq<uint64>, rngSeed: seq<byte>, i: nat)
      requires |rngSeed| == SEED_BYTES
      reads this
    {
      SucceedsAt(g, Tried(g, sip, keys, rngSeed), i) && seed == SeedAt(rngSeed, i)
    }

    lemma AttemptSeed(keys: seq<uint64>, rngSeed: seq<byte>, i: nat)
      requires |rngSeed| == SEED_BYTES
      requires SucceedsAt(g, Tried(g, sip, keys, rngSeed), i) && seed == SeedAt(rngSeed, i)
      ensures SeedOfAttempt(keys, rngSeed, i)
    {
    }

    /** No key has the slot among its three. */
    ghost predicate Unused(keys: seq<uint64>, s: nat)
      reads this
    {
      forall k :: k in keys ==> !Touches(g, sip(k, seed), s)
    }

    lemma UnusedNotWritten(keys: seq<uint64>, hash: uint64, found: nat, s: nat)
      requires hash in Hashes(sip, keys, seed) && found <= 2 && Unused(keys, s)
      ensures s != Slot(g, found, hash)
    {
      hide Slot;
      var i :| 0 <= i < |keys| && sip(keys[i], seed) == hash;
      assert !Touches(g, sip(keys[i], seed), s);
    }

    lemma SameKeys(keys: seq<uint64>, keys': seq<uint64>)
      requires forall k :: k in keys <==> k in keys'
      ensures forall s :: Unused(keys, s) <==> Unused(keys', s)
    {
      hide Touches;
    }

    /** The end of a successful attempt: the stacked hashes get their fingerprints. */
    method Assign(keys: seq<uint64>, order: array<uint64>, reverseH: array<nat>, size: nat)
      requires Valid() && prints != reverseH && size <= order.Length && size <= reverseH.Length
      requires Stacked(g, order[..size], reverseH[..size])
      requires forall h :: h in Hashes(sip, keys, seed) <==> h in order[..size]
      modifies prints
      ensures Valid()
      ensures forall k :: k in keys ==> Contain(k)
      ensures forall s :: 0 <= s < prints.Length && Unused(keys, s) ==> prints[s] == old(prints[s])
    {
      hide Pow2, Words, Contain, Solved, Slot, Unused, Hashes, Touches, Geometry.ArrayLength;
      ghost var stack, found := order[..size], reverseH[..size];
      AssignFingerprints(g, bits, order, reverseH, size, prints);
      AllContained(keys, stack);
      forall s | 0 <= s < prints.Length && Unused(keys, s)
        ensures prints[s] == old(prints[s])
      {
        forall j | 0 <= j < size
          ensures s != Slot(g, found[j], stack[j])
        {
          UnusedNotWritten(keys, stack[j], found[j], s);
        }
      }
    }

    /** A populated filter reports every key it was given. It uses the seed of the attempt
        that succeeds, and slots that belong to no key are as they were. Population stops without a
        filter when there are too many keys, when the seed bytes run out, or when a past
        overflow or a zero hash has wiped the sentinel out. The hashes that the attempts keep,
        and what they leave behind, decide which of the last three happens; where the seeds
        tried hash the keys apart, the hashes themselves decide. */
    method Populate(keys0: seq<uint64>, rngSeed: seq<byte>) returns (outcome: Outcome, keys: seq<uint64>)
      requires Valid() && |rngSeed| == SEED_BYTES
      modifies this, prints
      ensures Valid()
      ensures outcome == Populated ==> forall k :: k in keys0 ==> Contain(k)
      ensures outcome == TooManyKeys <==> |keys0| > MAX_KEYS
      ensures outcome == OutOfRange <==> |keys0| == MAX_KEYS
      ensures |keys0| < MAX_KEYS ==>
                && (outcome == Populated <==> Populates(g, Tried(g, sip, keys0, rngSeed)))
                && (outcome == SentinelLost <==> LosesSentinel(g, Tried(g, sip, keys0, rngSeed)))
                && (outcome == SeedExhausted <==> Exhausts(g, Tried(g, sip, keys0, rngSeed)))
      ensures |keys0| < MAX_KEYS && TriedDistinct(g, Drawn(sip, keys0, rngSeed)) ==>
                && (outcome == Populated <==> Populates(g, Drawn(sip, keys0, rngSeed)))
                && (outcome == SentinelLost <==> LosesSentinel(g, Drawn(sip, keys0, rngSeed)))
                && (outcome == SeedExhausted <==> Exhausts(g, Drawn(sip, keys0, rngSeed)))
      ensures outcome == Populated ==> exists i: nat :: SeedOfAttempt(keys0, rngSeed, i)
      ensures outcome == Populated ==>
                forall s :: 0 <= s < prints.Length && Unused(keys0, s) ==> prints[s] == old(prints[s])
      ensures outcome != Populated ==> prints[..] == old(prints[..])
      ensures forall k :: k in keys <==> k in keys0
    {
      hide Pow2, Words, Contain, Ready, SeedOfAttempt, Unused, TriedDistinct, Tried, Drawn, Populates, LosesSentinel,
        Exhausts, Geometry.ArrayLength;
      keys := keys0;
      if |keys| > MAX_KEYS {
        outcome := TooManyKeys;
        return;
      }
      var size := |keys|;
      seed := rngSeed;
      // The length size + 1 is computed in 32 bits, and the sentinel is written with a
      // bounds check.
      if size >= (size + 1) % TWO_32 {
        outcome := OutOfRange;
        return;
      }
      var order := new uint64[size + 1](_ => 0);
      var alone := new nat[g.ArrayLength()];
      var counts := new nat[g.ArrayLength()](_ => 0);
      var hashes := new nat[g.ArrayLength()](_ => 0);
      var reverseH := new nat[size];
      order[size] := 1;
      MakeReady(g, size, alone, counts, hashes, order, reverseH);
      outcome, keys := Attempts(keys0, alone, counts, hashes, order, reverseH);
    }

    method Attempts(keys0: seq<uint64>, alone: array<nat>, counts: array<nat>, hashes: array<nat>,
                    order: array<uint64>, reverseH: array<nat>) returns (outcome: Outcome, keys: seq<uint64>)
      requires Valid() && Ready(g, |keys0|, alone, counts, hashes, order, reverseH) && order[|keys0|] != 0
      requires prints !in {alone, counts, hashes, reverseH}
      modifies this, prints, alone, counts, hashes, order, reverseH
      ensures Valid()
      ensures outcome == Populated ==> forall k :: k in keys0 ==> Contain(k)
      ensures outcome in {Populated, SentinelLost, SeedExhausted}
      ensures
                && (outcome == Populated <==> Populates(g, Tried(g, sip, keys0, old(seed))))
                && (outcome == SentinelLost <==> LosesSentinel(g, Tried(g, sip, keys0, old(seed))))
                && (outcome == SeedExhausted <==> Exhausts(g, Tried(g, sip, keys0, old(seed))))
      ensures TriedDistinct(g, Drawn(sip, keys0, old(seed))) ==>
                && (outcome == Populated <==> Populates(g, Drawn(sip, keys0, old(seed))))
                && (outcome == SentinelLost <==> LosesSentinel(g, Drawn(sip, keys0, old(seed))))
                && (outcome == SeedExhausted <==> Exhausts(g, Drawn(sip, keys0, old(seed))))
      ensures outcome == Populated ==> exists i: nat :: SeedOfAttempt(keys0, old(seed), i)
      ensures outcome == Populated ==>
                forall s :: 0 <= s < prints.Length && Unused(keys0, s) ==> prints[s] == old(prints[s])
      ensures outcome != Populated ==> prints[..] == old(prints[..])
      ensures forall k :: k in keys <==> k in keys0
    {
      hide Pow2, Words, Contain, Ready, Unused, SeedOfAttempt, SucceedsAt, Stacked, Solved, Slot, Crowded, Hashes,
        Bumped, SortUnique, Peelable, Solvable, AllDistinct, Tracks, TriedDistinct, Populates, LosesSentinel,
        Exhausts, Uncovers, SeedAt, Kept, PlacedOrder, LeadingBits, Tried, Drawn, LeftBehind, NextKeys,
        Geometry.ArrayLength;
      ghost var rngSeed := seed;
      ReadyFacts(g, |keys0|, alone, counts, hashes, order, reverseH);
      keys := keys0;
      var size := |keys|;
      var blockBits := BlockBits(g);
      var loop := 0;
      TracksFirst(g, sip, keys0, rngSeed);
      while true
        invariant 0 <= loop <= LAST_ATTEMPT
        invariant Valid()
        invariant size == |keys| < order.Length
        invariant Ready(g, size, alone, counts, hashes, order, reverseH)
        invariant forall k :: k in keys <==> k in keys0
        invariant Tracks(g, sip, keys0, rngSeed, keys, seed, loop, order[size] == 0)
        invariant prints[..] == old(prints[..])
        decreases LAST_ATTEMPT - loop
      {
        if order[size] == 0 {
          SentinelGone(g, sip, keys0, rngSeed, keys, seed, loop);
          outcome := SentinelLost;
          OutcomeExplained(g, sip, keys0, rngSeed, outcome);
          return;
        }
        var hs := Hashes(sip, keys, seed);
        ReadyFacts(g, size, alone, counts, hashes, order, reverseH);
        var error, duplicates, stacksize, kept := Attempt(g, hs, blockBits, alone, counts, hashes, order, reverseH);
        if stacksize + duplicates == size {
          Succeeds(g, sip, keys0, rngSeed, keys, seed, loop);
          Assign(keys, order, reverseH, stacksize);
          AttemptSeed(keys0, rngSeed, loop);
          SameKeys(keys, keys0);
          outcome := Populated;
          OutcomeExplained(g, sip, keys0, rngSeed, outcome);
          return;
        }
        if loop / 16 >= SEED_BYTES {
          RunsOut(g, sip, keys0, rngSeed, keys, seed);
          outcome := SeedExhausted;
          OutcomeExplained(g, sip, keys0, rngSeed, outcome);
          return;
        }
        ghost var keys1, seed1, order1 := keys, seed, order[..];
        if error {
          seed := Bumped(seed, loop / 16);
        }
        if duplicates > 0 {
          keys := SortUnique(keys);
          size := |keys|;
        }
        Reset(g, size, alone, counts, hashes, order, reverseH);
        seed := Bumped(seed, loop / 16);
        if !error {
          WhyLost(g, keys1, keys, hs, duplicates, order1);
        }
        TracksNext(g, sip, keys0, rngSeed, keys1, seed1, loop, error, keys, seed, order[size] == 0);
        loop := loop + 1;
      }
    }

    lemma AllContained(keys: seq<uint64>, stack: seq<uint64>)
      requires Valid()
      requires forall h :: h in Hashes(sip, keys, seed) ==> h in stack
      requires forall j :: 0 <= j < |stack| ==> Solved(g, prints[..], bits, stack[j])
      ensures forall k :: k in keys ==> Contain(k)
    {
      hide Contain, Solved, Words, Pow2, Geometry.ArrayLength;
      forall k | k in keys
        ensures Contain(k)
      {
        var i :| 0 <= i < |keys| && keys[i] == k;
        assert Hashes(sip, keys, seed)[i] in stack;
        ContainIffSolved(k);
      }
    }
  }
}
