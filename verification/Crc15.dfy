/** CAN's CRC-15 (polynomial 0x4599, Bosch CAN 2.0 Part A section 3.1.1) as
    scripts/can_rle_decode.py computes it, and how strong a check it is. */
module Crc15 {
  import opened Bytes

  const POLY: bv15 := 0x4599

  /** The top bit of the register, (crc >> 14) & 1. */
  predicate Top(crc: bv15) { crc & 0x4000 != 0 }

  /** (crc << 1) & 0x7FFF. */
  function Left(crc: bv15): bv15 { crc + crc }

  function Sum(r: bv15, s: bv15): bv15 { r ^ s }

  /** No set bit in common. */
  predicate Apart(r: bv15, mask: bv15) { r & mask == 0 }

  /** One bit enters the register. */
  function Shift(crc: bv15, b: bool): bv15 {
    if b != Top(crc) then Sum(Left(crc), POLY) else Left(crc)
  }

  function Feed(crc: bv15, bits: seq<bit>): bv15 {
    if bits == [] then crc else Shift(Feed(crc, bits[..|bits| - 1]), bits[|bits| - 1] == 1)
  }

  function Crc(bits: seq<bit>): bv15 { Feed(0, bits) }

  lemma FeedSnoc(crc: bv15, bits: seq<bit>, b: bit)
    ensures Feed(crc, bits + [b]) == Shift(Feed(crc, bits), b == 1)
    ensures Feed(crc, []) == crc
  {
    hide Shift;
    assert (bits + [b])[..|bits|] == bits;
  }

  /** can_crc15. */
  method CanCrc15(bits: seq<bit>) returns (crc: bv15)
    ensures crc == Crc(bits)
  {
    hide Feed, Top, Left, Sum;
    crc := 0;
    FeedSnoc(0, [], 0);
    for i := 0 to |bits|
      invariant crc == Feed(0, bits[..i])
    {
      FeedSnoc(0, bits[..i], bits[i]);
      assert bits[..i + 1] == bits[..i] + [bits[i]];
      var inb := (bits[i] == 1) != Top(crc);
      crc := Left(crc);
      if inb {
        crc := Sum(crc, POLY);
      }
    }
    assert bits[..|bits|] == bits;
  }

  lemma {:induction false} FeedConcat(crc: bv15, a: seq<bit>, b: seq<bit>)
    ensures Feed(crc, a + b) == Feed(Feed(crc, a), b)
    decreases |b|
  {
    hide Shift;
    if b == [] {
      assert a + b == a;
    } else {
      FeedConcat(crc, a, b[..|b| - 1]);
      assert (a + b)[..|a + b| - 1] == a + b[..|b| - 1];
    }
  }

  // ---- linearity -------------------------------------------------------------------------

  function Flip(a: bit, b: bit): bit { if a == b then 0 else 1 }

  function Xor(a: seq<bit>, b: seq<bit>): (c: seq<bit>)
    requires |a| == |b|
    ensures |c| == |a|
  {
    seq(|a|, i requires 0 <= i < |a| => Flip(a[i], b[i]))
  }

  lemma LeftOfSum(r: bv15, s: bv15)
    ensures Left(Sum(r, s)) == Sum(Left(r), Left(s))
  {}

  lemma TopOfSum(r: bv15, s: bv15)
    ensures Top(Sum(r, s)) == (Top(r) != Top(s))
  {}

  lemma SumAssoc(x: bv15, y: bv15, z: bv15)
    ensures Sum(Sum(x, y), z) == Sum(x, Sum(y, z))
  {}

  lemma SumComm(x: bv15, y: bv15)
    ensures Sum(x, y) == Sum(y, x) && Sum(x, x) == 0 && Sum(0, x) == x
  {}

  lemma SumPoly(x: bv15, y: bv15)
    ensures Sum(Sum(x, POLY), Sum(y, POLY)) == Sum(x, y)
    ensures Sum(Sum(x, POLY), y) == Sum(Sum(x, y), POLY) && Sum(x, Sum(y, POLY)) == Sum(Sum(x, y), POLY)
  {
    SumAssoc(x, y, POLY);
    SumAssoc(x, POLY, y);
    SumComm(y, POLY);
    SumAssoc(x, POLY, Sum(y, POLY));
    SumAssoc(POLY, POLY, y);
    SumComm(POLY, POLY);
    SumComm(0, y);
    hide Sum;
  }

  lemma ShiftLinear(r: bv15, s: bv15, a: bool, b: bool)
    ensures Shift(Sum(r, s), a != b) == Sum(Shift(r, a), Shift(s, b))
  {
    LeftOfSum(r, s);
    TopOfSum(r, s);
    SumPoly(Left(r), Left(s));
    hide Top, Left, Sum;
  }

  /** The register is linear in its start value and its input. */
  lemma {:induction false} FeedLinear(r: bv15, s: bv15, a: seq<bit>, b: seq<bit>)
    requires |a| == |b|
    ensures Feed(Sum(r, s), Xor(a, b)) == Sum(Feed(r, a), Feed(s, b))
    decreases |a|
  {
    hide Shift, Sum;
    if a != [] {
      var n := |a| - 1;
      FeedLinear(r, s, a[..n], b[..n]);
      assert Xor(a, b)[..n] == Xor(a[..n], b[..n]);
      ShiftLinear(Feed(r, a[..n]), Feed(s, b[..n]), a[n] == 1, b[n] == 1);
    }
  }

  lemma Linear(a: seq<bit>, b: seq<bit>)
    requires |a| == |b|
    ensures Crc(Xor(a, b)) == Sum(Crc(a), Crc(b))
  {
    SumSelf(0);
    hide Sum, Feed;
    FeedLinear(0, 0, a, b);
  }

  lemma SumSelf(c: bv15)
    ensures Sum(c, c) == 0
  {}

  // ---- what the register cannot forget ------------------------------------------------------

  /** The m low bits. */
  function Mask(m: nat): bv15 { if m == 0 then 0 else Grown(Mask(m - 1)) }

  function Grown(mask: bv15): bv15 { mask + mask + 1 }

  lemma MaskSmall(m: nat)
    requires m < 15
    ensures !Top(Mask(m))
  {
    assert Mask(0) == 0 && Mask(1) == 1 && Mask(2) == 3 && Mask(3) == 7 && Mask(4) == 15;
    assert Mask(5) == 31 && Mask(6) == 63 && Mask(7) == 127 && Mask(8) == 255 && Mask(9) == 511;
    assert Mask(10) == 1023 && Mask(11) == 2047 && Mask(12) == 4095 && Mask(13) == 8191 && Mask(14) == 16383;
  }

  /** Low zeros after a step: no feedback happened, and there was one zero less before. */
  lemma StepBack(s: bv15, b: bool, mask: bv15)
    requires !Top(mask) && Apart(Shift(s, b), Grown(mask))
    ensures b == Top(s) && Apart(s, mask)
  {}

  lemma StepForward(b: bool)
    ensures Shift(0, b) == if b then POLY else 0
    ensures !Top(0)
  {}

  lemma MaskStep(m: nat)
    requires m > 0
    ensures Mask(m) == Grown(Mask(m - 1))
  {}

  predicate AllZero(bits: seq<bit>) { forall i :: 0 <= i < |bits| ==> bits[i] == 0 }

  /** From the cleared register no non-zero input of at most m <= 15 bits leaves m low zeros. */
  lemma {:induction false} ShortInputShows(w: seq<bit>, m: nat)
    requires |w| <= m <= 15 && Apart(Feed(0, w), Mask(m))
    ensures AllZero(w) && Feed(0, w) == 0
    decreases |w|
  {
    hide Shift, Mask, Top, Apart, Grown;
    if w != [] {
      var init, b := w[..|w| - 1], w[|w| - 1];
      MaskSmall(m - 1);
      MaskStep(m);
      StepBack(Feed(0, init), b == 1, Mask(m - 1));
      ShortInputShows(init, m - 1);
      StepForward(b == 1);
    }
  }

  /** Zeros shift the register without losing information. */
  lemma {:induction false} ZerosKeep(r: bv15, z: seq<bit>)
    requires AllZero(z) && Feed(r, z) == 0
    ensures r == 0
    decreases |z|
  {
    hide Shift;
    if z != [] {
      ShiftNonZero(Feed(r, z[..|z| - 1]));
      ZerosKeep(r, z[..|z| - 1]);
    }
  }

  lemma ShiftNonZero(s: bv15)
    ensures Shift(s, false) == 0 ==> s == 0
  {}

  lemma {:induction false} ZerosFromZero(z: seq<bit>)
    requires AllZero(z)
    ensures Feed(0, z) == 0
    decreases |z|
  {
    hide Shift, Top;
    if z != [] {
      StepForward(false);
      ZerosFromZero(z[..|z| - 1]);
    }
  }

  /** a and b differ, and only inside the window of n bits from `from`. */
  ghost predicate DifferWithin(a: seq<bit>, b: seq<bit>, from: nat, n: nat) {
    && |a| == |b| && from + n <= |a| && a != b
    && forall i :: 0 <= i < |a| && !(from <= i < from + n) ==> a[i] == b[i]
  }

  /** Two words of any length that differ only inside a window of at most 15 bits never have
      the same CRC; so at most one of them checks. */
  lemma BurstDetected(a: seq<bit>, b: seq<bit>, from: nat, n: nat)
    requires DifferWithin(a, b, from, n) && n <= 15
    ensures Crc(a) != Crc(b)
  {
    if Crc(a) == Crc(b) {
      Linear(a, b);
      SumSelf(Crc(a));
      var e := Xor(a, b);
      var head, w, z := e[..from], e[from..from + n], e[from + n..];
      assert e == head + w + z;
      hide Feed, Shift, Sum, Apart, Mask;
      FeedConcat(0, head + w, z);
      FeedConcat(0, head, w);
      ZerosKeep(Feed(0, head + w), z);
      ZerosFromZero(head);
      Masked();
      ShortInputShows(w, 15);
      forall i | 0 <= i < |a|
        ensures a[i] == b[i]
      {
        assert e[i] == Flip(a[i], b[i]);
        if from <= i < from + n {
          assert w[i - from] == e[i];
        }
      }
    }
  }

  lemma Masked()
    ensures Apart(0, Mask(15))
  {}

  // ---- the CRC field ---------------------------------------------------------------------

  /** The n top bits of the register, first the one that leaves it first. */
  function RegBits(c: bv15, n: nat): (bits: seq<bit>)
    ensures |bits| == n
    decreases n
  {
    if n == 0 then [] else [if Top(c) then 1 else 0] + RegBits(Left(c), n - 1)
  }

  /** The number the register holds. */
  function Number(c: bv15): nat { Val(RegBits(c, 15)) }

  /** crc_ok: the last 15 bits are the CRC of what stands before them. */
  predicate Checks(word: seq<bit>) {
    |word| >= 15 && Val(word[|word| - 15..]) == Number(Crc(word[..|word| - 15]))
  }

  lemma LeftClears(c: bv15, mask: bv15)
    requires Apart(c, mask)
    ensures Apart(Left(c), Grown(mask)) && Shift(c, Top(c)) == Left(c)
  {}

  lemma FullMask(c: bv15)
    requires Apart(c, Mask(15))
    ensures c == 0
  {
    MaskSmall(14);
    assert Mask(14) == 0x3FFF by {
      assert Mask(0) == 0 && Mask(1) == 1 && Mask(2) == 3 && Mask(3) == 7 && Mask(4) == 15;
      assert Mask(5) == 31 && Mask(6) == 63 && Mask(7) == 127 && Mask(8) == 255 && Mask(9) == 511;
      assert Mask(10) == 1023 && Mask(11) == 2047 && Mask(12) == 4095 && Mask(13) == 8191;
    }
    assert Mask(15) == 0x7FFF;
  }

  /** Feeding the register its own top bits empties it. */
  lemma {:induction false} OwnBitsClear(c: bv15, m: nat, n: nat)
    requires m + n == 15 && Apart(c, Mask(m))
    ensures Feed(c, RegBits(c, n)) == 0
    decreases n
  {
    if n == 0 {
      FullMask(c);
    } else {
      LeftClears(c, Mask(m));
      MaskStep(m + 1);
      hide Mask, Apart, Top, Left, Grown, Shift;
      var b: bit := if Top(c) then 1 else 0;
      OwnBitsClear(Left(c), m + 1, n - 1);
      FeedConcat(c, [b], RegBits(Left(c), n - 1));
      FeedSnoc(c, [], b);
      assert [] + [b] == [b];
    }
  }

  /** A register is the bits it sends. */
  lemma {:induction false} BitsTell(c: bv15, d: bv15, m: nat, n: nat)
    requires m + n == 15 && Apart(c, Mask(m)) && Apart(d, Mask(m)) && RegBits(c, n) == RegBits(d, n)
    ensures c == d
    decreases n
  {
    if n == 0 {
      FullMask(c);
      FullMask(d);
    } else {
      LeftClears(c, Mask(m));
      LeftClears(d, Mask(m));
      MaskStep(m + 1);
      TopAndLeft(c, d);
      hide Mask, Apart, Top, Left, Grown, Shift;
      assert RegBits(c, n)[0] == RegBits(d, n)[0] && RegBits(c, n)[1..] == RegBits(d, n)[1..];
      assert RegBits(c, n)[1..] == RegBits(Left(c), n - 1) && RegBits(d, n)[1..] == RegBits(Left(d), n - 1);
      BitsTell(Left(c), Left(d), m + 1, n - 1);
    }
  }

  lemma TopAndLeft(c: bv15, d: bv15)
    ensures Top(c) == Top(d) && Left(c) == Left(d) ==> c == d
  {}

  lemma SameNumber(c: bv15, d: bv15)
    ensures Number(c) == Number(d) <==> c == d
  {
    hide Mask, Apart, RegBits, Val;
    ApartNone(c);
    ApartNone(d);
    if Number(c) == Number(d) {
      BitsOfVal(RegBits(c, 15));
      BitsOfVal(RegBits(d, 15));
      BitsTell(c, d, 0, 15);
    }
  }

  /** Appending the CRC leaves remainder zero. */
  lemma AppendedCrc(m: seq<bit>)
    ensures Crc(m + RegBits(Crc(m), 15)) == 0
  {
    ApartNone(Crc(m));
    OwnBitsClear(Crc(m), 0, 15);
    FeedConcat(0, m, RegBits(Crc(m), 15));
  }

  lemma ApartNone(c: bv15)
    ensures Apart(c, Mask(0))
  {}

  /** ... and nothing else does: the receiver's comparison is the remainder test. */
  lemma CheckIsRemainder(word: seq<bit>)
    requires |word| >= 15
    ensures Checks(word) <==> Crc(word) == 0
  {
    hide *;
    var n := |word| - 15;
    var m, f := word[..n], word[n..];
    var own := RegBits(Crc(m), 15);
    assert word == m + f;
    ChecksIs(word, m, f);
    AppendedCrc(m);
    BitsOfVal(f);
    BitsOfVal(own);
    if f != own {
      TailDiffers(m, f, own);
      BurstDetected(m + f, m + own, n, 15);
    }
  }

  lemma ChecksIs(word: seq<bit>, m: seq<bit>, f: seq<bit>)
    requires word == m + f && |f| == 15
    ensures Checks(word) <==> Val(f) == Val(RegBits(Crc(m), 15))
  {
    hide Feed, RegBits, Val;
    assert word[|word| - 15..] == f && word[..|word| - 15] == m;
  }

  lemma TailDiffers(m: seq<bit>, f: seq<bit>, g: seq<bit>)
    requires |f| == |g| && f != g
    ensures DifferWithin(m + f, m + g, |m|, |f|)
  {
    assert (m + f)[|m|..] == f && (m + g)[|m|..] == g;
  }

  /** Two codewords of one length that differ only inside 15 consecutive bits never both
      check, however long the message. */
  lemma BurstNeverAccepted(a: seq<bit>, b: seq<bit>, from: nat, n: nat)
    requires DifferWithin(a, b, from, n) && n <= 15 && |a| >= 15
    ensures !(Checks(a) && Checks(b))
  {
    hide Feed, Checks;
    CheckIsRemainder(a);
    CheckIsRemainder(b);
    BurstDetected(a, b, from, n);
  }
}
