/** Giving every stacked hash its fingerprint, from the top of the stack down. */
module FuseAssign {
  import opened Bits
  import opened FuseGeometry
  import opened FuseTables
  import opened FusePeeling

  function Fingerprint(hash: uint64): nat {
    Xor(hash, hash / TWO_32)
  }

  /** A truncated fingerprint combines the low bits of the two halves of a hash. */
  lemma FingerprintHalves(hash: uint64, bits: nat)
    ensures Fingerprint(hash) % Pow2(bits) == Xor(hash % Pow2(bits), (hash / TWO_32) % Pow2(bits))
  {
    hide Xor, Pow2;
    XorMod(hash, hash / TWO_32, bits);
  }

  /** A fingerprint table of words of the given number of bits. */
  ghost predicate Words(prints: seq<nat>, bits: nat) {
    forall s :: 0 <= s < |prints| ==> prints[s] < Pow2(bits)
  }

  /** The three slots of a hash combine to its truncated fingerprint. */
  ghost predicate Solved(g: Shape, prints: seq<nat>, bits: nat, hash: uint64)
    requires |prints| == g.ArrayLength()
  {
    Xor(Xor(prints[Slot(g, 0, hash)], prints[Slot(g, 1, hash)]), prints[Slot(g, 2, hash)])
      == Fingerprint(hash) % Pow2(bits)
  }

  /** The value given to slot `found` of a hash. */
  function Completion(g: Shape, prints: seq<nat>, bits: nat, hash: uint64, found: nat): nat
    requires |prints| == g.ArrayLength() && found <= 2
  {
    Xor(Xor(Fingerprint(hash) % Pow2(bits), prints[Slot(g, Mod3(found + 1), hash)]),
        prints[Slot(g, Mod3(found + 2), hash)])
  }

  lemma AssignSolves(g: Shape, prints: seq<nat>, bits: nat, hash: uint64, found: nat)
    requires |prints| == g.ArrayLength() && found <= 2 && Words(prints, bits)
    ensures var prints' := prints[Slot(g, found, hash) := Completion(g, prints, bits, hash, found)];
            Solved(g, prints', bits, hash) && Words(prints', bits)
  {
    hide Xor, Slot, Pow2, Fingerprint;
    SlotsDiffer(g, hash);
    var f := Fingerprint(hash) % Pow2(bits);
    var x, y := prints[Slot(g, Mod3(found + 1), hash)], prints[Slot(g, Mod3(found + 2), hash)];
    // The value written completes the combination, whichever slot it is written to.
    var v := Xor(Xor(f, x), y);
    XorCancel(Xor(f, x), y);
    XorCancel(f, x);
    XorSwap(v, x, y);
    XorComm(y, v);
    XorComm(Xor(x, y), v);
    XorAssoc(v, x, y);
    XorBound(f, x, bits);
    XorBound(Xor(f, x), y, bits);
  }

  /** Writing a slot a hash does not touch leaves the hash solved. */
  lemma AssignKeeps(g: Shape, prints: seq<nat>, bits: nat, hash: uint64, s: nat, v: nat)
    requires |prints| == g.ArrayLength() && s < |prints|
    requires Solved(g, prints, bits, hash) && !Touches(g, hash, s)
    ensures Solved(g, prints[s := v], bits, hash)
  {
    hide Xor, Slot, Pow2, Fingerprint;
  }

  /** After the pass every hash on the stack is solved: the slot written for one is touched
      by none of those above it. */
  method AssignFingerprints(g: Shape, bits: nat, order: array<uint64>, reverseH: array<nat>, size: nat,
                            prints: array<nat>)
    requires prints != reverseH && prints.Length == g.ArrayLength()
    requires size <= order.Length && size <= reverseH.Length
    requires Stacked(g, order[..size], reverseH[..size])
    requires Words(prints[..], bits)
    modifies prints
    ensures Words(prints[..], bits)
    ensures forall j :: 0 <= j < size ==> Solved(g, prints[..], bits, order[j])
    ensures forall s ::
              0 <= s < prints.Length && (forall j :: 0 <= j < size ==> s != Slot(g, reverseH[j], order[j])) ==>
                prints[s] == old(prints[s])
  {
    hide Xor, Slot, Pow2, Fingerprint, Words, Solved, Touches, Geometry.ArrayLength;
    ghost var stack, found' := order[..size], reverseH[..size];
    var i := size;
    while i > 0
      invariant 0 <= i <= size
      invariant Words(prints[..], bits)
      invariant forall j :: i <= j < size ==> Solved(g, prints[..], bits, stack[j])
      invariant forall s ::
                  0 <= s < prints.Length && (forall j :: i <= j < size ==> s != Slot(g, found'[j], stack[j])) ==>
                    prints[s] == old(prints[s])
    {
      i := i - 1;
      ghost var before := prints[..];
      var hash, found := order[i], reverseH[i];
      assert hash == stack[i] && found == found'[i];
      var h012 := [Slot(g, 0, hash), Slot(g, 1, hash), Slot(g, 2, hash), Slot(g, 0, hash), Slot(g, 1, hash)];
      var s := h012[found];
      var v := Xor(Xor(Fingerprint(hash) % Pow2(bits), prints[h012[found + 1]]), prints[h012[found + 2]]);
      AssignSolves(g, before, bits, hash, found);
      forall j | i < j < size
        ensures Solved(g, before[s := v], bits, stack[j])
      {
        AssignKeeps(g, before, bits, stack[j], s, v);
      }
      prints[s] := v;
      assert prints[..] == before[s := v];
    }
  }
}
