/** Machine words and MSB-first bit strings shared by the firmware and host models. */
module Bytes {
  type byte = b: int | 0 <= b < 256
  type bit = b: int | 0 <= b <= 1

  const WORD32: nat := 0x1_0000_0000
  const WORD16: nat := 0x1_0000
  type uint32 = n: nat | n < WORD32
  type uint16 = n: nat | n < WORD16

  function Min(a: nat, b: nat): nat { if a < b then a else b }

  /** 2 to the power n. */
  function Pow2(n: nat): (p: nat)
    ensures p >= 1
  {
    if n == 0 then 1 else 2 * Pow2(n - 1)
  }

  /** The n low bits of v, most significant first. */
  function ToBits(v: nat, n: nat): (bits: seq<bit>)
    ensures |bits| == n
  {
    if n == 0 then [] else ToBits(v / 2, n - 1) + [v % 2]
  }

  /** The number an MSB-first bit string denotes. */
  function Val(bits: seq<bit>): (v: nat)
    ensures v < Pow2(|bits|)
  {
    if bits == [] then 0 else 2 * Val(bits[..|bits| - 1]) + bits[|bits| - 1]
  }

  lemma {:induction false} ValOfBits(v: nat, n: nat)
    requires v < Pow2(n)
    ensures Val(ToBits(v, n)) == v
  {
    if n > 0 {
      ValOfBits(v / 2, n - 1);
      assert ToBits(v, n)[..n - 1] == ToBits(v / 2, n - 1);
    }
  }

  lemma {:induction false} BitsOfVal(bits: seq<bit>)
    ensures ToBits(Val(bits), |bits|) == bits
  {
    if bits != [] {
      BitsOfVal(bits[..|bits| - 1]);
      assert Val(bits) / 2 == Val(bits[..|bits| - 1]);
    }
  }

  lemma {:induction false} Pow2Add(m: nat, n: nat)
    ensures Pow2(m + n) == Pow2(m) * Pow2(n)
  {
    if n > 0 {
      Pow2Add(m, n - 1);
    }
  }

  /** The bits of a word split at any position. */
  lemma {:induction false} ToBitsConcat(hi: nat, m: nat, lo: nat, n: nat)
    requires lo < Pow2(n)
    ensures ToBits(hi * Pow2(n) + lo, m + n) == ToBits(hi, m) + ToBits(lo, n)
  {
    if n == 0 {
      assert ToBits(lo, n) == [];
    } else {
      var w := hi * Pow2(n) + lo;
      assert w == 2 * (hi * Pow2(n - 1)) + lo;
      assert w / 2 == hi * Pow2(n - 1) + lo / 2 && w % 2 == lo % 2;
      ToBitsConcat(hi, m, lo / 2, n - 1);
    }
  }

  /** bytes_to_bits: eight bits per byte, most significant first. */
  function BytesToBits(bs: seq<byte>): (bits: seq<bit>)
    ensures |bits| == 8 * |bs|
  {
    if bs == [] then [] else BytesToBits(bs[..|bs| - 1]) + ToBits(bs[|bs| - 1], 8)
  }

  lemma {:induction false} BytesToBitsConcat(a: seq<byte>, b: seq<byte>)
    ensures BytesToBits(a + b) == BytesToBits(a) + BytesToBits(b)
  {
    if b == [] {
      assert a + b == a;
    } else {
      BytesToBitsConcat(a, b[..|b| - 1]);
      assert (a + b)[..|a + b| - 1] == a + b[..|b| - 1];
    }
  }

  // ---- the register files of the capture programs --------------------------------------------

  /** A byte register that counts n events. */
  function Low8(n: nat): byte { n % 256 }

  lemma Low8Steps(n: nat)
    ensures Low8(n + 1) == (Low8(n) + 1) % 256
  {}

  /** The files are 16 and 30 registers long. */
  predicate FileLength(slots: nat) { slots == 16 || slots == 30 }

  /** Where the indirect pointer stands after n stores: it runs to the end of the file before it
      wraps. */
  function PtrAt(n: nat, unwrapped: bool, slots: nat): nat
    requires FileLength(slots)
  {
    if unwrapped && n % slots == 0 then slots else n % slots
  }

  lemma PtrSteps(n: nat, slots: nat)
    requires FileLength(slots)
    ensures PtrAt(n, false, slots) == n % slots && PtrAt(n + 1, true, slots) == PtrAt(n, false, slots) + 1
    ensures PtrAt(n, false, slots) == if PtrAt(n, true, slots) == slots then 0 else PtrAt(n, true, slots)
  {
    Next16(n);
    Next30(n);
  }

  lemma Next16(n: nat)
    ensures (n + 1) % 16 == if n % 16 == 15 then 0 else n % 16 + 1
  {}

  lemma Next30(n: nat)
    ensures (n + 1) % 30 == if n % 30 == 29 then 0 else n % 30 + 1
  {}

  lemma DistinctSlots(a: nat, b: nat, slots: nat)
    requires FileLength(slots) && a < b < a + slots
    ensures a % slots != b % slots
  {
    if slots == 16 {
      assert b - a == 16 * (b / 16 - a / 16) + (b % 16 - a % 16);
    } else {
      assert b - a == 30 * (b / 30 - a / 30) + (b % 30 - a % 30);
    }
  }
}
