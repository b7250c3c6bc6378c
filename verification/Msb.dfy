/** Most significant bits and the ceiling of log base 2 (async/msb.h). */
module Msb {
  import opened BuddyBlocks
  import opened Powers

  /** bytemsb[b]: the number of bits of a byte, 0 for 0. */
  function ByteMsb(b: nat): (r: nat)
    ensures BitLength(b, r)
  {
    if b == 0 then 0 else 1 + ByteMsb(b / 2)
  }

  /** r is the number of significant bits of v. */
  ghost predicate BitLength(v: nat, r: nat) {
    if v == 0 then r == 0 else r > 0 && Pow2(r - 1) <= v < Pow2(r)
  }

  /** async/msb.h:44-57. */
  function Fls32(v: nat): (r: nat)
    requires v < 0x1_0000_0000
    ensures BitLength(v, r)
  {
    if v >= 0x1_0000 then
      if v >= 0x100_0000 then
        Shift24(v);
        Shifted(v, 24, ByteMsb(v / 0x100_0000));
        24 + ByteMsb(v / 0x100_0000)
      else
        Shift16(v);
        Shifted(v, 16, ByteMsb(v / 0x1_0000));
        16 + ByteMsb(v / 0x1_0000)
    else if v >= 0x100 then
      Shift8(v);
      Shifted(v, 8, ByteMsb(v / 0x100));
      8 + ByteMsb(v / 0x100)
    else
      ByteMsb(v)
  }

  /** async/msb.h:68-76. */
  function Fls64(v: nat): (r: nat)
    requires v < 0x1_0000_0000_0000_0000
    ensures BitLength(v, r)
  {
    if v >= 0x1_0000_0000 then
      Shift32(v);
      Shifted(v, 32, Fls32(v / 0x1_0000_0000));
      32 + Fls32(v / 0x1_0000_0000)
    else
      Fls32(v)
  }

  /** Halving k times brings v below q exactly if v is below q * 2^k. */
  lemma Between(v: nat, k: nat)
    ensures Up(v, k) * Pow2(k) <= v < (Up(v, k) + 1) * Pow2(k)
  {
    UpBelow(v, Up(v, k), k);
    UpBelow(v, Up(v, k) + 1, k);
    LowPow2(Up(v, k), k);
    LowPow2(Up(v, k) + 1, k);
  }

  lemma Pow8()
    ensures Pow2(8) == 0x100
  {
    assert Pow2(4) == 16;
    Pow2Add(4, 4);
  }

  lemma Shift8(v: nat)
    ensures Up(v, 8) == v / 0x100
  {
    Pow8();
    Between(v, 8);
  }

  lemma Shift16(v: nat)
    ensures Up(v, 16) == v / 0x1_0000
  {
    Shift8(v);
    Shift8(v / 0x100);
    UpAdd(v, 8, 8);
  }

  lemma Shift24(v: nat)
    ensures Up(v, 24) == v / 0x100_0000
  {
    Shift16(v);
    Shift8(v / 0x1_0000);
    UpAdd(v, 16, 8);
  }

  lemma Shift32(v: nat)
    ensures Up(v, 32) == v / 0x1_0000_0000
  {
    Shift16(v);
    Shift16(v / 0x1_0000);
    UpAdd(v, 16, 16);
  }

  /** v has at most r bits exactly if r shifts leave nothing. */
  lemma Fits(v: nat, r: nat)
    ensures v < Pow2(r) <==> Up(v, r) == 0
  {
    UpBelow(v, 1, r);
    LowPow2(1, r);
  }

  /** Shifting out k bits takes k off the bit length. */
  lemma Shifted(v: nat, k: nat, r: nat)
    requires BitLength(Up(v, k), r) && Up(v, k) > 0
    ensures BitLength(v, k + r)
  {
    UpAdd(v, k, r);
    UpAdd(v, k, r - 1);
    Fits(v, k + r);
    Fits(v, k + r - 1);
    Fits(Up(v, k), r);
    Fits(Up(v, k), r - 1);
    assert Up(0, k) == 0 by { Fits(0, k); }
  }

  /** async/msb.h:79-83: -1 for 0. */
  function Log2c(v: nat): (r: int)
    requires v < 0x1_0000_0000_0000_0000
    ensures v == 0 ==> r == -1
    ensures v > 0 ==> r >= 0 && v <= Pow2(r) && forall k: nat :: v <= Pow2(k) ==> r <= k
  {
    if v == 0 then -1
    else
      var r := Fls64(v - 1);
      LeastPower(v, r);
      r
  }

  lemma {:induction false} Pow2Grows(a: nat, b: nat)
    requires a <= b
    ensures Pow2(a) <= Pow2(b)
    decreases b - a
  {
    if a < b { Pow2Grows(a, b - 1); }
  }

  lemma LeastPower(v: nat, r: nat)
    requires v > 0 && BitLength(v - 1, r)
    ensures forall k: nat :: v <= Pow2(k) ==> r <= k
  {
    forall k: nat | v <= Pow2(k) ensures r <= k {
      if k < r { Pow2Grows(k, r - 1); }
    }
  }
}
