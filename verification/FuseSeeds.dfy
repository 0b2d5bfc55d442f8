/** The seeds population tries in turn, and what their hashes decide. The keyed hash is a
    parameter. */
module FuseSeeds {
  import opened Bits
  import opened FuseGeometry
  import opened FuseTables
  import opened FusePlacement
  import opened FuseFill
  import opened FusePeeling
  import opened FuseAttempt

  const SEED_BYTES: nat := 16

  datatype Outcome = Populated | TooManyKeys | OutOfRange | SentinelLost | SeedExhausted

  type Sip = (uint64, seq<byte>) -> uint64

  function Hashes(sip: Sip, keys: seq<uint64>, seed: seq<byte>): (hs: seq<uint64>)
    ensures |hs| == |keys|
    ensures forall i :: 0 <= i < |keys| ==> hs[i] == sip(keys[i], seed)
  {
    seq(|keys|, i requires 0 <= i < |keys| => sip(keys[i], seed))
  }

  // ---- Sorting the keys and dropping repetitions ----

  predicate Increasing(s: seq<uint64>) {
    forall i, j :: 0 <= i < j < |s| ==> s[i] < s[j]
  }

  function Insert(x: uint64, s: seq<uint64>): (r: seq<uint64>)
    requires Increasing(s)
    ensures Increasing(r) && |r| <= |s| + 1
    ensures forall y :: y in r <==> y == x || y in s
  {
    if s == [] then [x]
    else if x < s[0] then [x] + s
    else if x == s[0] then s
    else
      var rest := Insert(x, s[1..]);
      InsertBehind(x, s, rest);
      [s[0]] + rest
  }

  lemma InsertBehind(x: uint64, s: seq<uint64>, rest: seq<uint64>)
    requires s != [] && Increasing(s) && x > s[0] && Increasing(rest)
    requires forall y :: y in rest <==> y == x || y in s[1..]
    ensures Increasing([s[0]] + rest)
    ensures forall y :: y in [s[0]] + rest <==> y == x || y in s
  {
    assert s == [s[0]] + s[1..];
    forall i | 0 <= i < |rest|
      ensures rest[i] > s[0]
    {
      assert rest[i] in rest;
      if rest[i] != x {
        var j :| 0 <= j < |s[1..]| && s[1..][j] == rest[i];
        assert s[j + 1] == rest[i];
      }
    }
  }

  function SortUnique(keys: seq<uint64>): (r: seq<uint64>)
    ensures Increasing(r) && |r| <= |keys|
    ensures forall y :: y in r <==> y in keys
  {
    if keys == [] then []
    else
      assert keys == [keys[0]] + keys[1..];
      Insert(keys[0], SortUnique(keys[1..]))
  }

  function Bumped(seed: seq<byte>, i: nat): (r: seq<byte>)
    requires i < |seed|
    ensures |r| == |seed|
  {
    var next: byte := if seed[i] == 255 then 0 else seed[i] + 1;
    seed[i := next]
  }

  // ---- What a row of attempts comes to ----

  const LAST_ATTEMPT: nat := SEED_BYTES * 16

  /** What decides an attempt: the hashes it keeps, and whether the sort after it would
      bring a zero to the place of the sentinel. */
  datatype Try = Try(kept: seq<uint64>, uncovers: bool)

  /** Hashes are left unpeeled, and the sentinel stays. */
  ghost predicate Fails(g: Shape, t: Try) {
    !Crowded(g, t.kept) && !Peelable(g, t.kept) && !t.uncovers
  }

  /** Every attempt before i fails and is followed by another. */
  ghost predicate Reached(g: Shape, at: seq<Try>, i: nat)
    requires i <= |at|
  {
    forall j :: 0 <= j < i ==> Fails(g, at[j])
  }

  /** Some attempt can be solved, and none before it overflows or uncovers a zero. */
  ghost predicate Populates(g: Shape, at: seq<Try>) {
    exists i :: 0 <= i < |at| && Solvable(g, at[i].kept)
             && forall j :: 0 <= j < i ==> !Crowded(g, at[j].kept) && !at[j].uncovers
  }

  /** Attempt i is the one that succeeds. */
  ghost predicate SucceedsAt(g: Shape, at: seq<Try>, i: nat) {
    i < |at| && Reached(g, at, i) && Solvable(g, at[i].kept)
  }

  /** An attempt other than the last is reached, cannot be solved, and overflows or uncovers
      a zero. */
  ghost predicate LosesSentinel(g: Shape, at: seq<Try>) {
    exists i :: 0 <= i < |at| - 1 && Reached(g, at, i) && !Solvable(g, at[i].kept)
             && (Crowded(g, at[i].kept) || at[i].uncovers)
  }

  /** The last attempt is reached and cannot be solved. */
  ghost predicate Exhausts(g: Shape, at: seq<Try>)
    requires at != []
  {
    Reached(g, at, |at| - 1) && !Solvable(g, at[|at| - 1].kept)
  }

  /** No attempt that is reached holds two equal hashes. */
  ghost predicate TriedDistinct(g: Shape, at: seq<Try>) {
    forall i :: 0 <= i < |at| && Reached(g, at, i) ==> AllDistinct(at[i].kept)
  }

  /** Exactly one of the three descriptions fits. */
  lemma OneOutcome(g: Shape, at: seq<Try>)
    requires at != []
    ensures Populates(g, at) || LosesSentinel(g, at) || Exhausts(g, at)
    ensures !(Populates(g, at) && LosesSentinel(g, at))
    ensures !(Populates(g, at) && Exhausts(g, at))
    ensures !(LosesSentinel(g, at) && Exhausts(g, at))
  {
    hide Crowded, Peelable;
    if i :| 0 <= i < |at| - 1 && !Fails(g, at[i]) {
      var j := FirstDecided(g, at, i);
      assert Solvable(g, at[j].kept) || !Solvable(g, at[j].kept);
    } else {
      assert Reached(g, at, |at| - 1);
      assert Solvable(g, at[|at| - 1].kept) || !Solvable(g, at[|at| - 1].kept);
    }
  }

  lemma {:induction false} FirstDecided(g: Shape, at: seq<Try>, i: nat) returns (j: nat)
    requires i < |at| && !Fails(g, at[i])
    ensures j <= i && !Fails(g, at[j]) && Reached(g, at, j)
    decreases i
  {
    hide Fails;
    if k :| 0 <= k < i && !Fails(g, at[k]) {
      j := FirstDecided(g, at, k);
    } else {
      j := i;
    }
  }

  // ---- The attempts of a population ----

  /** The seed of attempt i, for as long as no table has overflowed. */
  function SeedAt(rngSeed: seq<byte>, i: nat): (r: seq<byte>)
    requires |rngSeed| == SEED_BYTES && i <= LAST_ATTEMPT
    ensures |r| == SEED_BYTES
  {
    if i == 0 then rngSeed else Bumped(SeedAt(rngSeed, i - 1), (i - 1) / 16)
  }

  /** How often byte j of the seed has been incremented before attempt i. */
  function Turns(i: nat, j: nat): nat {
    if i <= 16 * j then 0 else if i >= 16 * j + 16 then 16 else i - 16 * j
  }

  /** Sixteen attempts increment one byte of the seed, the next sixteen the next. */
  lemma {:induction false} SeedBytes(rngSeed: seq<byte>, i: nat, j: nat)
    requires |rngSeed| == SEED_BYTES && i <= LAST_ATTEMPT && j < SEED_BYTES
    ensures SeedAt(rngSeed, i)[j] == (rngSeed[j] + Turns(i, j)) % 256
    decreases i
  {
    hide Turns;
    if i == 0 {
      NoTurns(j);
    } else {
      SeedBytes(rngSeed, i - 1, j);
      NextTurn(i, j);
      NextByte(rngSeed[j] + Turns(i - 1, j), SeedAt(rngSeed, i - 1)[j]);
    }
  }

  lemma NoTurns(j: nat)
    ensures Turns(0, j) == 0
  {
  }

  lemma NextTurn(i: nat, j: nat)
    requires i > 0
    ensures Turns(i, j) == Turns(i - 1, j) + (if j == (i - 1) / 16 then 1 else 0)
  {
  }

  lemma NextByte(n: nat, b: byte)
    requires b == n % 256
    ensures (n + 1) % 256 == if b == 255 then 0 else b + 1
  {
  }

  /** No attempt uses the seed of another. */
  lemma SeedsDiffer(rngSeed: seq<byte>, i: nat, k: nat)
    requires |rngSeed| == SEED_BYTES && i < k <= LAST_ATTEMPT
    ensures SeedAt(rngSeed, i) != SeedAt(rngSeed, k)
  {
    hide SeedAt;
    var j := i / 16;
    SeedBytes(rngSeed, i, j);
    SeedBytes(rngSeed, k, j);
    assert Turns(i, j) < Turns(k, j) <= 16;
  }

  /** The hashes below the sentinel once they are placed. */
  ghost function PlacedBy(g: Shape, hs: seq<uint64>): (r: seq<uint64>)
    ensures multiset(r) == multiset(hs)
  {
    PlacedOrder(hs, LeadingBits(g.segmentCount, 1))
  }

  /** The keys after a failed attempt: sorted without repetition if a repetition was found. */
  ghost function NextKeys(g: Shape, keys: seq<uint64>, hs: seq<uint64>): (r: seq<uint64>)
    ensures |r| <= |keys|
  {
    if |Kept(g, PlacedBy(g, hs))| < |hs| then SortUnique(keys) else keys
  }

  /** The sort shortens the keys, and the entry that is then above them is zero. */
  ghost predicate Uncovers(g: Shape, keys: seq<uint64>, hs: seq<uint64>) {
    var n, left := |NextKeys(g, keys, hs)|, LeftBehind(g, PlacedBy(g, hs));
    n < |keys| && n < |left| && left[n] == 0
  }

  /** The keys of attempt i. */
  ghost function KeysAt(g: Shape, sip: Sip, keys: seq<uint64>, rngSeed: seq<byte>, i: nat): seq<uint64>
    requires |rngSeed| == SEED_BYTES && i <= LAST_ATTEMPT
  {
    if i == 0 then keys
    else
      var before := KeysAt(g, sip, keys, rngSeed, i - 1);
      NextKeys(g, before, Hashes(sip, before, SeedAt(rngSeed, i - 1)))
  }

  ghost function TryOf(g: Shape, keys: seq<uint64>, hs: seq<uint64>): Try {
    Try(Kept(g, PlacedBy(g, hs)), Uncovers(g, keys, hs))
  }

  ghost function TryAt(g: Shape, sip: Sip, keys: seq<uint64>, rngSeed: seq<byte>, i: nat): Try
    requires |rngSeed| == SEED_BYTES && i <= LAST_ATTEMPT
  {
    var now := KeysAt(g, sip, keys, rngSeed, i);
    TryOf(g, now, Hashes(sip, now, SeedAt(rngSeed, i)))
  }

  /** The attempts as they come. */
  ghost function Tried(g: Shape, sip: Sip, keys: seq<uint64>, rngSeed: seq<byte>): (r: seq<Try>)
    requires |rngSeed| == SEED_BYTES
    ensures |r| == LAST_ATTEMPT + 1
    ensures forall i :: 0 <= i <= LAST_ATTEMPT ==> r[i] == TryAt(g, sip, keys, rngSeed, i)
  {
    seq(LAST_ATTEMPT + 1, i requires 0 <= i <= LAST_ATTEMPT => TryAt(g, sip, keys, rngSeed, i))
  }

  /** The hashes of all keys under the seed of each attempt. */
  ghost function Drawn(sip: Sip, keys: seq<uint64>, rngSeed: seq<byte>): (r: seq<Try>)
    requires |rngSeed| == SEED_BYTES
    ensures |r| == LAST_ATTEMPT + 1
    ensures forall i :: 0 <= i <= LAST_ATTEMPT ==> r[i] == Try(Hashes(sip, keys, SeedAt(rngSeed, i)), false)
  {
    seq(LAST_ATTEMPT + 1, i requires 0 <= i <= LAST_ATTEMPT => Try(Hashes(sip, keys, SeedAt(rngSeed, i)), false))
  }

  // ---- When a zero is uncovered ----

  lemma {:induction false} StackMembers(g: Shape, queue: seq<nat>, left: seq<uint64>, stack: seq<uint64>)
    ensures forall x :: x in StackFrom(g, queue, left, stack) ==> x in left || x in stack
    decreases |left|, |queue|
  {
    hide Touches, Total, QueueAfter, Toucher;
    if queue == [] {
    } else {
      var rest, index := queue[..|queue| - 1], queue[|queue| - 1];
      var i := Toucher(g, left, index);
      if Total(g, left, index).count == 1 && i < |left| {
        StackMembers(g, QueueAfter(g, rest, left, left[i], index), Without(left, i), stack + [left[i]]);
      } else {
        StackMembers(g, rest, left, stack);
      }
    }
  }

  lemma LeftBehindMembers(g: Shape, hs: seq<uint64>)
    ensures forall x :: x in LeftBehind(g, PlacedBy(g, hs)) ==> x in hs
  {
    hide Kept, StackFrom, PlacedBy, LoneSlots;
    var placed := PlacedBy(g, hs);
    Survivors(g, hs, placed);
    SameMembers(hs, placed);
    StackMembers(g, LoneSlots(g, Kept(g, placed), g.ArrayLength()), Kept(g, placed), []);
  }

  /** Keys that differ are all kept by the sort. */
  lemma SortKeepsDistinct(keys: seq<uint64>)
    requires AllDistinct(keys)
    ensures |SortUnique(keys)| == |keys|
  {
    hide SortUnique;
    var r := SortUnique(keys);
    NothingRepeated(r, keys, |keys| - |r|);
  }

  /** Only a zero hash can be uncovered, and only where a key is repeated. */
  lemma UncoversOnlyZero(g: Shape, keys: seq<uint64>, hs: seq<uint64>)
    requires Uncovers(g, keys, hs)
    ensures 0 in hs && !AllDistinct(keys)
  {
    hide LeftBehind, PlacedBy, SortUnique, Kept, AllDistinct;
    LeftBehindMembers(g, hs);
    if AllDistinct(keys) {
      SortKeepsDistinct(keys);
    }
  }

  lemma {:induction false} KeysStayDistinct(g: Shape, sip: Sip, keys: seq<uint64>, rngSeed: seq<byte>, i: nat)
    requires |rngSeed| == SEED_BYTES && i <= LAST_ATTEMPT && AllDistinct(keys)
    ensures AllDistinct(KeysAt(g, sip, keys, rngSeed, i))
    decreases i
  {
    hide Hashes, Kept, PlacedBy, SortUnique, SeedAt;
    if i == 0 {
    } else {
      KeysStayDistinct(g, sip, keys, rngSeed, i - 1);
    }
  }

  /** Keys that are all different never uncover a zero, whatever their hashes. */
  lemma DistinctKeysCovered(g: Shape, sip: Sip, keys: seq<uint64>, rngSeed: seq<byte>)
    requires |rngSeed| == SEED_BYTES && AllDistinct(keys)
    ensures forall i :: 0 <= i <= LAST_ATTEMPT ==> !Tried(g, sip, keys, rngSeed)[i].uncovers
  {
    hide KeysAt, Tried, Uncovers, AllDistinct, Hashes, SeedAt, Kept;
    forall i | 0 <= i <= LAST_ATTEMPT
      ensures !TryAt(g, sip, keys, rngSeed, i).uncovers
    {
      KeysStayDistinct(g, sip, keys, rngSeed, i);
      var now := KeysAt(g, sip, keys, rngSeed, i);
      var hs := Hashes(sip, now, SeedAt(rngSeed, i));
      if Uncovers(g, now, hs) {
        UncoversOnlyZero(g, now, hs);
        assert false;
      }
    }
  }

  // ---- Distinct hashes ----

  ghost predicate SameVerdict(g: Shape, a: Try, b: Try) {
    && (Crowded(g, a.kept) <==> Crowded(g, b.kept)) && (Peelable(g, a.kept) <==> Peelable(g, b.kept))
    && a.uncovers == b.uncovers
  }

  lemma DistinctKept(g: Shape, keys: seq<uint64>, hs: seq<uint64>)
    requires AllDistinct(hs)
    ensures NextKeys(g, keys, hs) == keys && SameVerdict(g, TryOf(g, keys, hs), Try(hs, false))
  {
    hide Kept, PlacedBy, LeftBehind, Crowded, Peelable, AllDistinct, SortUnique;
    Survivors(g, hs, PlacedBy(g, hs));
  }

  /** While the hashes are all different, attempts keep the keys and all of their hashes. */
  lemma {:induction false} DistinctTogether(g: Shape, sip: Sip, keys: seq<uint64>, rngSeed: seq<byte>, i: nat)
    requires |rngSeed| == SEED_BYTES && i <= LAST_ATTEMPT && TriedDistinct(g, Drawn(sip, keys, rngSeed))
    ensures Reached(g, Tried(g, sip, keys, rngSeed), i) <==> Reached(g, Drawn(sip, keys, rngSeed), i)
    ensures Reached(g, Drawn(sip, keys, rngSeed), i) ==>
              && KeysAt(g, sip, keys, rngSeed, i) == keys
              && SameVerdict(g, Tried(g, sip, keys, rngSeed)[i], Drawn(sip, keys, rngSeed)[i])
    decreases i
  {
    hide Crowded, Peelable, Hashes, Tried, Drawn, SeedAt, TriedDistinct, AllDistinct, TryOf, NextKeys;
    var tried, drawn := Tried(g, sip, keys, rngSeed), Drawn(sip, keys, rngSeed);
    if i == 0 {
    } else {
      DistinctTogether(g, sip, keys, rngSeed, i - 1);
      if Reached(g, drawn, i - 1) {
        DistinctHere(g, drawn, i - 1);
        DistinctKept(g, keys, drawn[i - 1].kept);
      }
    }
    if Reached(g, drawn, i) {
      DistinctHere(g, drawn, i);
      DistinctKept(g, keys, drawn[i].kept);
    }
  }

  lemma DistinctHere(g: Shape, at: seq<Try>, i: nat)
    requires TriedDistinct(g, at) && i < |at| && Reached(g, at, i)
    ensures AllDistinct(at[i].kept)
  {
  }

  /** Where the seeds tried hash the keys apart, the hashes themselves decide. */
  lemma DistinctDecides(g: Shape, sip: Sip, keys: seq<uint64>, rngSeed: seq<byte>)
    requires |rngSeed| == SEED_BYTES && TriedDistinct(g, Drawn(sip, keys, rngSeed))
    ensures Populates(g, Tried(g, sip, keys, rngSeed)) <==> Populates(g, Drawn(sip, keys, rngSeed))
    ensures LosesSentinel(g, Tried(g, sip, keys, rngSeed)) <==> LosesSentinel(g, Drawn(sip, keys, rngSeed))
    ensures Exhausts(g, Tried(g, sip, keys, rngSeed)) <==> Exhausts(g, Drawn(sip, keys, rngSeed))
  {
    hide Crowded, Peelable, Tried, Drawn, SeedAt, TriedDistinct, AllDistinct, KeysAt, Reached, Populates, TryAt;
    var tried, drawn := Tried(g, sip, keys, rngSeed), Drawn(sip, keys, rngSeed);
    forall i | 0 <= i <= LAST_ATTEMPT
      ensures Reached(g, tried, i) <==> Reached(g, drawn, i)
      ensures Reached(g, drawn, i) ==> SameVerdict(g, tried[i], drawn[i])
    {
      DistinctTogether(g, sip, keys, rngSeed, i);
    }
    OneOutcome(g, tried);
    OneOutcome(g, drawn);
  }

  // ---- What the loop knows ----

  /** The state at the start of attempt `loop`; `lost` says that the sentinel is gone. */
  ghost predicate Tracks(g: Shape, sip: Sip, keys0: seq<uint64>, rngSeed: seq<byte>, keys: seq<uint64>,
                         seed: seq<byte>, loop: nat, lost: bool)
    requires |rngSeed| == SEED_BYTES && loop <= LAST_ATTEMPT
  {
    if lost then LosesSentinel(g, Tried(g, sip, keys0, rngSeed))
    else
      && keys == KeysAt(g, sip, keys0, rngSeed, loop) && seed == SeedAt(rngSeed, loop)
      && Reached(g, Tried(g, sip, keys0, rngSeed), loop)
  }

  lemma TracksFirst(g: Shape, sip: Sip, keys0: seq<uint64>, rngSeed: seq<byte>)
    requires |rngSeed| == SEED_BYTES
    ensures Tracks(g, sip, keys0, rngSeed, keys0, rngSeed, 0, false)
  {
    hide Tried;
  }

  /** A failed attempt carries the loop's knowledge on. */
  lemma TracksNext(g: Shape, sip: Sip, keys0: seq<uint64>, rngSeed: seq<byte>, keys: seq<uint64>, seed: seq<byte>,
                   loop: nat, error: bool, keys': seq<uint64>, seed': seq<byte>, lost: bool)
    requires |rngSeed| == SEED_BYTES && loop < LAST_ATTEMPT
    requires Tracks(g, sip, keys0, rngSeed, keys, seed, loop, false)
    requires !Solvable(g, Kept(g, PlacedBy(g, Hashes(sip, keys, seed))))
    requires error <==> Crowded(g, Kept(g, PlacedBy(g, Hashes(sip, keys, seed))))
    requires lost <==> error || Uncovers(g, keys, Hashes(sip, keys, seed))
    requires !error ==> keys' == NextKeys(g, keys, Hashes(sip, keys, seed))
    requires !error ==> |seed| == SEED_BYTES && seed' == Bumped(seed, loop / 16)
    ensures Tracks(g, sip, keys0, rngSeed, keys', seed', loop + 1, lost)
  {
    hide Crowded, Peelable, Hashes, Bumped, Kept, PlacedBy, Tried, Uncovers, NextKeys;
    var tried := Tried(g, sip, keys0, rngSeed);
    assert tried[loop] == TryOf(g, keys, Hashes(sip, keys, seed));
    if !lost {
      assert Reached(g, tried, loop + 1);
    }
  }

  lemma Succeeds(g: Shape, sip: Sip, keys0: seq<uint64>, rngSeed: seq<byte>, keys: seq<uint64>, seed: seq<byte>,
                 loop: nat)
    requires |rngSeed| == SEED_BYTES && loop <= LAST_ATTEMPT
    requires Tracks(g, sip, keys0, rngSeed, keys, seed, loop, false)
    requires Solvable(g, Kept(g, PlacedBy(g, Hashes(sip, keys, seed))))
    ensures Populates(g, Tried(g, sip, keys0, rngSeed))
    ensures SucceedsAt(g, Tried(g, sip, keys0, rngSeed), loop) && seed == SeedAt(rngSeed, loop)
  {
    hide Crowded, Peelable, Hashes, Kept, PlacedBy, Tried, Solvable, Uncovers;
    assert Solvable(g, Tried(g, sip, keys0, rngSeed)[loop].kept);
  }

  lemma SentinelGone(g: Shape, sip: Sip, keys0: seq<uint64>, rngSeed: seq<byte>, keys: seq<uint64>, seed: seq<byte>,
                     loop: nat)
    requires |rngSeed| == SEED_BYTES && loop <= LAST_ATTEMPT
    requires Tracks(g, sip, keys0, rngSeed, keys, seed, loop, true)
    ensures LosesSentinel(g, Tried(g, sip, keys0, rngSeed))
  {
  }

  lemma RunsOut(g: Shape, sip: Sip, keys0: seq<uint64>, rngSeed: seq<byte>, keys: seq<uint64>, seed: seq<byte>)
    requires |rngSeed| == SEED_BYTES
    requires Tracks(g, sip, keys0, rngSeed, keys, seed, LAST_ATTEMPT, false)
    requires !Solvable(g, Kept(g, PlacedBy(g, Hashes(sip, keys, seed))))
    ensures Exhausts(g, Tried(g, sip, keys0, rngSeed))
  {
    hide Solvable, Reached, Hashes, Kept, PlacedBy, Tried, Uncovers;
  }

  /** The outcome is the one that the attempts describe. */
  ghost predicate Explains(g: Shape, at: seq<Try>, outcome: Outcome)
    requires at != []
  {
    && (outcome == Populated <==> Populates(g, at))
    && (outcome == SentinelLost <==> LosesSentinel(g, at))
    && (outcome == SeedExhausted <==> Exhausts(g, at))
  }

  lemma OutcomeExplained(g: Shape, sip: Sip, keys0: seq<uint64>, rngSeed: seq<byte>, outcome: Outcome)
    requires |rngSeed| == SEED_BYTES && outcome in {Populated, SentinelLost, SeedExhausted}
    requires outcome == Populated ==> Populates(g, Tried(g, sip, keys0, rngSeed))
    requires outcome == SentinelLost ==> LosesSentinel(g, Tried(g, sip, keys0, rngSeed))
    requires outcome == SeedExhausted ==> Exhausts(g, Tried(g, sip, keys0, rngSeed))
    ensures Explains(g, Tried(g, sip, keys0, rngSeed), outcome)
    ensures TriedDistinct(g, Drawn(sip, keys0, rngSeed)) ==> Explains(g, Drawn(sip, keys0, rngSeed), outcome)
  {
    hide Tried, Drawn, TriedDistinct, Populates, LosesSentinel, Exhausts;
    OneOutcome(g, Tried(g, sip, keys0, rngSeed));
    if TriedDistinct(g, Drawn(sip, keys0, rngSeed)) {
      DistinctDecides(g, sip, keys0, rngSeed);
    }
  }

  /** Without an overflow, the entry above the next keys is zero exactly when a zero is
      uncovered. */
  lemma WhyLost(g: Shape, keys: seq<uint64>, keys': seq<uint64>, hs: seq<uint64>, duplicates: nat, order: seq<uint64>)
    requires |hs| == |keys| < |order| && |Kept(g, PlacedBy(g, hs))| + duplicates == |hs|
    requires keys' == if duplicates > 0 then SortUnique(keys) else keys
    requires order[|keys|] != 0 && order[..|hs|] == LeftBehind(g, PlacedBy(g, hs))
    ensures keys' == NextKeys(g, keys, hs) && |keys'| <= |keys|
    ensures order[|keys'|] == 0 <==> Uncovers(g, keys, hs)
  {
    hide SortUnique, Kept, PlacedBy, LeftBehind;
    if |keys'| < |keys| {
      assert order[|keys'|] == order[..|hs|][|keys'|];
    }
  }
}
