/** Bit arrays stored in bytes, as C code tests and sets them. */
module Bits {

  /** `1 << k`. */
  function Mask(k: nat): bv8
    requires k < 8
  {
    if k == 0 then 1 else if k == 1 then 2 else if k == 2 then 4 else if k == 3 then 8
    else if k == 4 then 16 else if k == 5 then 32 else if k == 6 then 64 else 128
  }

  predicate Bit(bits: seq<bv8>, b: nat)
    requires b / 8 < |bits|
  {
    bits[b / 8] & Mask(b % 8) != 0
  }

  function WithBit(bits: seq<bv8>, b: nat): seq<bv8>
    requires b / 8 < |bits|
  {
    bits[b / 8 := bits[b / 8] | Mask(b % 8)]
  }

  lemma MasksApart(c: bv8, j: nat, k: nat)
    requires j < 8 && k < 8
    ensures (c | Mask(k)) & Mask(j) != 0 <==> (c & Mask(j) != 0 || j == k)
  {
  }

  /** Setting one block's flag leaves every other flag alone. */
  lemma WithBitSets(bits: seq<bv8>, b: nat, c: nat)
    requires b / 8 < |bits| && c / 8 < |bits|
    ensures Bit(WithBit(bits, b), c) <==> (Bit(bits, c) || c == b)
  {
    MasksApart(bits[b / 8], c % 8, b % 8);
  }

  /** `bitmask <<= 1`. */
  lemma MaskShifts(k: nat)
    requires k < 7
    ensures Mask(k) << 1 == Mask(k + 1)
  {
  }
}
