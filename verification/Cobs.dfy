/** COBS framing in both keyings of src/util/cobs.hpp: the standard one (delimiter 0x00)
    and the one the records use (delimiter 0xFF). */
module Cobs {
  import opened Bytes

  datatype Option<+T> = None | Some(value: T)

  /** A keying: the byte kept out of the encoding, and the code of a full group. */
  datatype Keying = Keying(delim: byte, full: byte) {
    ghost predicate Valid() { this == STD || this == FF }
  }
  const STD := Keying(0x00, 0xFF)
  const FF := Keying(0xFF, 0xFE)

  /** maxEncoded / ffMaxEncoded. */
  function MaxEncoded(k: Keying, n: nat): nat
    requires k.Valid()
  {
    n + n / (k.full - 1) + 1
  }

  /** What is still to be written when the open group holds g and x is unread. */
  function Enc(k: Keying, g: seq<byte>, x: seq<byte>): (e: seq<byte>)
    requires k.Valid() && |g| + 1 < k.full
    ensures |e| >= |g| + |x| + 1
    decreases |x|
  {
    if x == [] then [|g| + 1] + g
    else if x[0] == k.delim then [|g| + 1] + g + Enc(k, [], x[1..])
    else if |g| + 2 == k.full then [k.full] + g + [x[0]] + Enc(k, [], x[1..])
    else Enc(k, g + [x[0]], x[1..])
  }

  function Encoded(k: Keying, x: seq<byte>): seq<byte>
    requires k.Valid()
  {
    Enc(k, [], x)
  }

  /** The decoder: None on a malformed stream. */
  function Decoded(k: Keying, e: seq<byte>): (r: Option<seq<byte>>)
    requires k.Valid()
    ensures r.Some? ==> |r.value| <= |e|
    ensures r.Some? && e != [] ==> |r.value| < |e|
    decreases |e|
  {
    if e == [] then Some([])
    else if e[0] == k.delim || e[0] == 0 then None
    else if e[0] > |e| then None
    else match Decoded(k, e[e[0]..])
      case None => None
      case Some(d) => Some(e[1..e[0]] + (if e[0] != k.full && e[0] < |e| then [k.delim] else []) + d)
  }

  /** One group, whatever follows it. */
  lemma DecodeGroup(k: Keying, g: seq<byte>, rest: seq<byte>)
    requires k.Valid() && |g| < k.full
    ensures var e := [|g| + 1] + g + rest;
            Decoded(k, e) == match Decoded(k, rest)
                             case None => None
                             case Some(d) =>
                               Some(g + (if |g| + 1 != k.full && rest != [] then [k.delim] else []) + d)
  {
    var e := [|g| + 1] + g + rest;
    assert e[0] == |g| + 1;
    assert e[|g| + 1..] == rest && e[1..|g| + 1] == g;
  }

  /** Decoding inverts encoding, whatever has been collected in the open group. */
  lemma {:induction false} DecodeEnc(k: Keying, g: seq<byte>, x: seq<byte>)
    requires k.Valid() && |g| + 1 < k.full
    ensures Decoded(k, Enc(k, g, x)) == Some(g + x)
    decreases |x|
  {
    hide Decoded;
    if x == [] {
      DecodeGroup(k, g, []);
      DecodedEnd(k, []);
      assert [|g| + 1] + g + [] == Enc(k, g, x) && g + [] + [] == g + x;
    } else if x[0] == k.delim {
      DecodeEnc(k, [], x[1..]);
      DecodeGroup(k, g, Enc(k, [], x[1..]));
      assert g + [k.delim] + ([] + x[1..]) == g + x;
    } else if |g| + 2 == k.full {
      DecodeEnc(k, [], x[1..]);
      DecodeGroup(k, g + [x[0]], Enc(k, [], x[1..]));
      assert [k.full] + (g + [x[0]]) + Enc(k, [], x[1..]) == Enc(k, g, x);
      assert g + [x[0]] + [] + ([] + x[1..]) == g + x;
    } else {
      DecodeEnc(k, g + [x[0]], x[1..]);
      assert (g + [x[0]]) + x[1..] == g + x;
    }
  }

  /** Round trip on every byte string. */
  lemma RoundTrip(k: Keying, x: seq<byte>)
    requires k.Valid()
    ensures Decoded(k, Encoded(k, x)) == Some(x)
  {
    DecodeEnc(k, [], x);
    assert [] + x == x;
  }

  /** The delimiter never occurs in an encoding. */
  lemma {:induction false} DelimiterFree(k: Keying, g: seq<byte>, x: seq<byte>)
    requires k.Valid() && |g| + 1 < k.full && k.delim !in g
    ensures k.delim !in Enc(k, g, x)
    decreases |x|
  {
    if x == [] {
    } else if x[0] == k.delim || |g| + 2 == k.full {
      DelimiterFree(k, [], x[1..]);
    } else {
      DelimiterFree(k, g + [x[0]], x[1..]);
    }
  }

  /** The announced bound holds at every stage of an encoding. */
  lemma {:induction false} SizeBound(k: Keying, g: seq<byte>, x: seq<byte>)
    requires k.Valid() && |g| + 1 < k.full
    ensures |Enc(k, g, x)| <= MaxEncoded(k, |g| + |x|)
    decreases |x|
  {
    if x == [] {
    } else if x[0] == k.delim || |g| + 2 == k.full {
      SizeBound(k, [], x[1..]);
    } else {
      SizeBound(k, g + [x[0]], x[1..]);
    }
  }

  /** ... and it is reached at every length by any input free of the delimiter. */
  lemma {:induction false} SizeBoundReached(k: Keying, g: seq<byte>, x: seq<byte>)
    requires k.Valid() && |g| + 1 < k.full && k.delim !in x
    ensures |Enc(k, g, x)| == MaxEncoded(k, |g| + |x|)
    decreases |x|
  {
    if x == [] {
      SmallQuotient(|g|, k.full - 1);
    } else {
      assert x[0] in x && forall b :: b in x[1..] ==> b in x;
      if |g| + 2 == k.full {
        SizeBoundReached(k, [], x[1..]);
        OneMore(|x| - 1, k.full - 1);
      } else {
        SizeBoundReached(k, g + [x[0]], x[1..]);
      }
    }
  }

  lemma SmallQuotient(n: nat, m: nat)
    requires n < m
    ensures n / m == 0
  {}

  lemma OneMore(n: nat, m: nat)
    requires m == 253 || m == 254
    ensures (m + n) / m == 1 + n / m
  {
    if m == 253 {
      assert (253 + n) / 253 == 1 + n / 253;
    } else {
      assert (254 + n) / 254 == 1 + n / 254;
    }
  }

  /** The buffer holds the closed groups, a free code byte, and the open group. */
  ghost predicate Holds(buf: seq<byte>, done: seq<byte>, g: seq<byte>) {
    |done| + 1 + |g| <= |buf| && buf[..|done|] == done && buf[|done| + 1..|done| + 1 + |g|] == g
  }

  lemma HoldsData(buf: seq<byte>, done: seq<byte>, g: seq<byte>, b: byte)
    requires Holds(buf, done, g) && |done| + 1 + |g| < |buf|
    ensures Holds(buf[|done| + 1 + |g| := b], done, g + [b])
  {}

  lemma HoldsCode(buf: seq<byte>, done: seq<byte>, g: seq<byte>, code: byte)
    requires Holds(buf, done, g)
    ensures var e := done + [code] + g; buf[|done| := code][..|e|] == e
    ensures var e := done + [code] + g; |e| < |buf| ==> Holds(buf[|done| := code], e, [])
  {}

  /** One input byte either closes the open group or joins it. */
  lemma EncStep(k: Keying, done: seq<byte>, g: seq<byte>, x: seq<byte>, i: nat)
    requires k.Valid() && |g| + 1 < k.full && i < |x|
    ensures done + Enc(k, g, x[i..]) ==
            if x[i] == k.delim then (done + [|g| + 1] + g) + Enc(k, [], x[i + 1..])
            else if |g| + 2 == k.full then (done + [k.full] + (g + [x[i]])) + Enc(k, [], x[i + 1..])
            else done + Enc(k, g + [x[i]], x[i + 1..])
  {
    assert x[i..][1..] == x[i + 1..];
    EncCons(k, g, x[i..]);
    hide Enc;
    if x[i] == k.delim {
      Assoc(done, [|g| + 1], g, Enc(k, [], x[i + 1..]));
    } else if |g| + 2 == k.full {
      Assoc(done, [k.full], g + [x[i]], Enc(k, [], x[i + 1..]));
    }
  }

  lemma EncCons(k: Keying, g: seq<byte>, x: seq<byte>)
    requires k.Valid() && |g| + 1 < k.full && x != []
    ensures Enc(k, g, x) ==
            if x[0] == k.delim then [|g| + 1] + g + Enc(k, [], x[1..])
            else if |g| + 2 == k.full then [k.full] + (g + [x[0]]) + Enc(k, [], x[1..])
            else Enc(k, g + [x[0]], x[1..])
  {
    if x[0] != k.delim && |g| + 2 == k.full {
      assert [k.full] + g + [x[0]] == [k.full] + (g + [x[0]]);
    }
  }

  lemma Assoc(a: seq<byte>, b: seq<byte>, c: seq<byte>, d: seq<byte>)
    ensures a + (b + c + d) == (a + b + c) + d
  {}

  lemma EncDone(k: Keying, done: seq<byte>, g: seq<byte>, x: seq<byte>)
    requires k.Valid() && |g| + 1 < k.full
    ensures Encoded(k, x) == [] + Enc(k, [], x[0..])
    ensures done + Enc(k, g, x[|x|..]) == done + [|g| + 1] + g
  {
    assert x[0..] == x;
  }

  /** encode / ffEncode: the code byte of a group is patched in once the group closes. */
  method Encode(k: Keying, input: array<byte>, length: nat, out: array<byte>) returns (n: nat)
    requires k.Valid() && length <= input.Length && input != out
    requires MaxEncoded(k, length) <= out.Length
    modifies out
    ensures n <= MaxEncoded(k, length)
    ensures out[..n] == Encoded(k, input[..length])
  {
    hide Enc, Holds, Encoded;
    ghost var x := input[..length];
    SizeBound(k, [], x);
    var readIndex: nat, writeIndex: nat, codeIndex: nat := 0, 1, 0;
    var code: byte := 1;
    ghost var done: seq<byte>, g: seq<byte> := [], [];
    EncDone(k, [], [], x);
    HoldsNothing(out[..]);
    while readIndex < length
      invariant readIndex <= length && 1 <= code < k.full
      invariant codeIndex + code == writeIndex
      invariant |done| == codeIndex && |g| + 1 == code
      invariant done + Enc(k, g, x[readIndex..]) == Encoded(k, x)
      invariant writeIndex + (length - readIndex) <= |Encoded(k, x)| <= out.Length
      invariant Holds(out[..], done, g)
    {
      ghost var buf := out[..];
      EncStep(k, done, g, x, readIndex);
      if input[readIndex] == k.delim {
        out[codeIndex] := code;
        HoldsCode(buf, done, g, code);
        done, g := done + [code] + g, [];
        code := 1;
        codeIndex := writeIndex;
        writeIndex := writeIndex + 1;
        readIndex := readIndex + 1;
      } else {
        out[writeIndex] := input[readIndex];
        HoldsData(buf, done, g, x[readIndex]);
        buf, g := out[..], g + [x[readIndex]];
        writeIndex := writeIndex + 1;
        readIndex := readIndex + 1;
        code := code + 1;
        if code == k.full {
          out[codeIndex] := code;
          HoldsCode(buf, done, g, code);
          done, g := done + [code] + g, [];
          code := 1;
          codeIndex := writeIndex;
          writeIndex := writeIndex + 1;
        }
      }
    }
    EncDone(k, done, g, x);
    HoldsCode(out[..], done, g, code);
    out[codeIndex] := code;
    n := writeIndex;
  }

  lemma HoldsNothing(buf: seq<byte>)
    requires |buf| >= 1
    ensures Holds(buf, [], [])
  {}

  /** decode / ffDecode: the decoded length, or 0 on a malformed stream. */
  method Decode(k: Keying, input: array<byte>, length: nat, out: array<byte>) returns (n: nat)
    requires k.Valid() && length <= input.Length && input != out
    requires length <= out.Length
    modifies out
    ensures match Decoded(k, input[..length])
            case None => n == 0
            case Some(d) => n == |d| && out[..n] == d
  {
    hide Decoded;
    ghost var e := input[..length];
    var readIndex: nat, writeIndex: nat := 0, 0;
    ghost var done: seq<byte> := [];
    assert e[0..] == e && (Decoded(k, e).Some? ==> [] + Decoded(k, e).value == Decoded(k, e).value);
    while readIndex < length
      invariant writeIndex <= readIndex <= length
      invariant writeIndex == |done| && out[..writeIndex] == done
      invariant Decoded(k, e) == Prepend(done, Decoded(k, e[readIndex..]))
    {
      DecodedAt(k, e, done, readIndex);
      var code := input[readIndex];
      if code == k.delim || code == 0 {
        return 0;
      }
      readIndex := readIndex + 1;
      if readIndex + (code - 1) > length {
        return 0;
      }
      writeIndex := CopyGroup(input, readIndex, code - 1, out, writeIndex);
      done := done + e[readIndex..readIndex + code - 1];
      assert e[readIndex..readIndex + code - 1] == input[readIndex..readIndex + (code - 1)];
      assert out[..writeIndex] == done;
      readIndex := readIndex + (code - 1);
      assert done == done + [];
      if code != k.full && readIndex < length {
        out[writeIndex] := k.delim;
        writeIndex := writeIndex + 1;
        done := done + [k.delim];
      }
    }
    DecodedEnd(k, e[readIndex..]);
    n := writeIndex;
  }

  /** One turn of the decoder's loop, at read index i with done written. */
  lemma DecodedAt(k: Keying, e: seq<byte>, done: seq<byte>, i: nat)
    requires k.Valid() && i < |e|
    ensures var r := Prepend(done, Decoded(k, e[i..]));
            if e[i] == k.delim || e[i] == 0 || i + e[i] > |e| then r == None
            else r == Prepend(done + e[i + 1..i + e[i]] + Implied(k, e, i), Decoded(k, e[i + e[i]..]))
  {
    if e[i] != k.delim && e[i] != 0 && i + e[i] <= |e| {
      var g := e[i + 1..i + e[i]];
      var rest := e[i + e[i]..];
      assert e[i..] == [|g| + 1] + g + rest;
      DecodeGroup(k, g, rest);
      hide Decoded;
      if Decoded(k, rest).Some? {
        Assoc(done, g, Implied(k, e, i), Decoded(k, rest).value);
      }
    } else {
      DecodedBad(k, e[i..]);
    }
  }

  lemma DecodedBad(k: Keying, e: seq<byte>)
    requires k.Valid() && e != [] && (e[0] == k.delim || e[0] == 0 || e[0] > |e|)
    ensures Decoded(k, e) == None
  {}

  /** The delimiter a group implies: none after a full group or at the end. */
  function Implied(k: Keying, e: seq<byte>, i: nat): seq<byte>
    requires i < |e|
  {
    if e[i] != k.full && i + e[i] < |e| then [k.delim] else []
  }

  lemma DecodedEnd(k: Keying, e: seq<byte>)
    requires k.Valid() && e == []
    ensures Decoded(k, e) == Some([])
  {}

  function Prepend(a: seq<byte>, r: Option<seq<byte>>): Option<seq<byte>> {
    match r
    case None => None
    case Some(d) => Some(a + d)
  }

  /** The inner loop of the decoder: n data bytes from input[from..] to out[to..]. */
  method CopyGroup(input: array<byte>, from: nat, n: nat, out: array<byte>, to: nat) returns (end: nat)
    requires input != out && from + n <= input.Length && to + n <= out.Length
    modifies out
    ensures end == to + n
    ensures out[..end] == old(out[..to]) + input[from..from + n]
  {
    var i := 0;
    while i < n
      invariant i <= n
      invariant out[..to + i] == old(out[..to]) + input[from..from + i]
    {
      out[to + i] := input[from + i];
      i := i + 1;
    }
    end := to + n;
  }
}
