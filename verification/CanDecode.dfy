/** From measured runs back to CAN frames: the gap cut, the tolerant expansion with a known
    calibration, and the parser (scripts/can_rle_decode.py). UI and push bias are reals. */
module CanDecode {
  import opened Bytes
  import opened Cobs
  import opened Crc15
  import opened RunCodec
  import opened CanBits

  // ---- building a frame --------------------------------------------------------------------

  predicate StandardFrame(id: nat, data: seq<byte>) { id < 2048 && 1 <= |data| <= 8 }

  /** ... or without data. */
  predicate AnyFrame(id: nat, data: seq<byte>) { id < 2048 && |data| <= 8 }

  /** SOF, identifier, RTR / IDE / r0, DLC and data. */
  function Body(id: nat, data: seq<byte>): (bits: seq<bit>)
    ensures |bits| == 19 + 8 * |data|
  {
    [DOMINANT] + ToBits(id, 11) + [0, 0, 0] + ToBits(|data|, 4) + BytesToBits(data)
  }

  /** ... and the CRC field: what is stuffed. */
  function Core(id: nat, data: seq<byte>): (bits: seq<bit>)
    ensures |bits| == 34 + 8 * |data|
  {
    Body(id, data) + RegBits(Crc(Body(id, data)), 15)
  }

  /** What follows the CRC: delimiter, ACK slot and delimiter, EOF and IFS. All of it is recessive, but for
      the ACK slot if another node has received the frame. */
  function Trailer(ack: bit): seq<bit> {
    if ack == RECESSIVE then Held(RECESSIVE, 13) else [RECESSIVE, DOMINANT] + Held(RECESSIVE, 11)
  }

  /** The frame on the bus. */
  function FrameBits(id: nat, data: seq<byte>, ack: bit): seq<bit> {
    Stuffed(FRESH, Core(id, data)) + Trailer(ack)
  }

  // ---- parsing -----------------------------------------------------------------------------

  datatype CanFrame =
    | Extended(id: nat)
    | Standard(id: nat, rtr: bit, dlc: nat, data: seq<nat>, crc: nat, crcCalc: nat, crcOk: bool)

  /** bits followed by as many recessive ones as it takes to reach n bits. */
  function Padded(bits: seq<bit>, n: nat): (p: seq<bit>)
    ensures |p| >= n && |p| >= |bits|
  {
    if |bits| < n then bits + Held(RECESSIVE, n - |bits|) else bits
  }

  function DataAt(bits: seq<bit>, from: nat, n: nat): (d: seq<nat>)
    requires from + 8 * n <= |bits|
    ensures |d| == n
  {
    seq(n, k requires 0 <= k < n => Val(bits[from + 8 * k..from + 8 * k + 8]))
  }

  /** parse_frame. */
  function Parsed(bits: seq<bit>): Option<CanFrame> {
    if |bits| < 34 || bits[0] != DOMINANT then None
    else if bits[13] == 1 then Some(Extended(Val(bits[1..12])))
    else
      var dlc := Val(bits[15..19]);
      var n := Min(dlc, 8);
      var end := 19 + 8 * n;
      var b := Padded(bits, end + 15);
      var crc, own := Val(b[end..end + 15]), Number(Crc(b[..end]));
      Some(Standard(Val(bits[1..12]), bits[12], dlc, DataAt(b, 19, n), crc, own, crc == own))
  }

  /** The closure `take` of parse_frame. */
  method Take(bits: seq<bit>, pos: nat, n: nat) returns (v: nat, pos': nat)
    requires pos + n <= |bits|
    ensures v == Val(bits[pos..pos + n]) && pos' == pos + n
  {
    v, pos' := 0, pos;
    while pos' < pos + n
      invariant pos <= pos' <= pos + n && v == Val(bits[pos..pos'])
    {
      assert bits[pos..pos' + 1][..pos' - pos] == bits[pos..pos'];
      v := 2 * v + bits[pos'];
      pos' := pos' + 1;
    }
  }

  method ParseFrame(bits: seq<bit>) returns (f: Option<CanFrame>)
    ensures f == Parsed(bits)
  {
    hide Val, Number, Crc, Padded;
    if |bits| < 34 || bits[0] != DOMINANT {
      return None;
    }
    var id, pos := Take(bits, 1, 11);
    var rtr, ide := bits[12], bits[13];
    if ide == 1 {
      return Some(Extended(id));
    }
    var dlc;
    dlc, pos := Take(bits, 15, 4);
    var n := Min(dlc, 8);
    var need := pos + n * 8 + 15;
    var b := Padded(bits, need);
    var data: seq<nat> := [];
    var k := 0;
    while k < n
      invariant k <= n && pos == 19 + 8 * k && data == DataAt(b, 19, k)
    {
      var v;
      v, pos := Take(b, pos, 8);
      data := data + [v];
      k := k + 1;
    }
    var crcInput := b[..pos];
    var crc;
    crc, pos := Take(b, pos, 15);
    var reg := CanCrc15(crcInput);
    f := Some(Standard(id, rtr, dlc, data, crc, Number(reg), crc == Number(reg)));
  }

  // ---- what a parsed frame says --------------------------------------------------------------

  lemma {:induction false} ByteBits(data: seq<byte>, k: nat)
    requires k < |data|
    ensures Val(BytesToBits(data)[8 * k..8 * k + 8]) == data[k]
    decreases |data|
  {
    var bits, init := BytesToBits(data), data[..|data| - 1];
    if k == |data| - 1 {
      assert bits[8 * k..8 * k + 8] == ToBits(data[k], 8);
      assert Pow2(8) == 256;
      ValOfBits(data[k], 8);
    } else {
      ByteBits(init, k);
      assert bits[8 * k..8 * k + 8] == BytesToBits(init)[8 * k..8 * k + 8];
    }
  }

  /** An extended frame on the wire is reported as such, with its eleven base identifier bits. */
  lemma ExtendedReported(id: nat, srr: bit, rest: seq<bit>)
    requires id < 2048 && |rest| >= 20
    ensures var bits := [DOMINANT] + ToBits(id, 11) + [srr, 1] + rest;
            Parsed(Unstuffed(FRESH, Stuffed(FRESH, bits))) == Some(Extended(id))
  {
    var ids := ToBits(id, 11);
    var bits := [DOMINANT] + ids + [srr, 1] + rest;
    UnstuffStuff(FRESH, bits);
    assert Pow2(11) == 2048;
    ValOfBits(id, 11);
    hide Val, ToBits, Stuffed, Unstuffed, Pow2;
    Middle([DOMINANT], ids, [srr, 1] + rest);
    assert bits == [DOMINANT] + ids + ([srr, 1] + rest);
    assert bits[12..] == [srr, 1] + rest;
    assert bits[13] == bits[12..][1];
  }

  /** A frame in the standard format is reported field by field, whatever its remote request bit, its length code
      (nine and more stand for eight bytes) and its CRC, which is right exactly if it is the CRC of what precedes. */
  lemma StandardReported(id: nat, rtr: bit, r0: bit, dlc: nat, data: seq<byte>, crc: bv15, rest: seq<bit>)
    requires id < 2048 && dlc < 16 && |data| == Min(dlc, 8)
    ensures var body := [DOMINANT] + ToBits(id, 11) + [rtr, 0, r0] + ToBits(dlc, 4) + BytesToBits(data);
            Parsed(Unstuffed(FRESH, Stuffed(FRESH, body + RegBits(crc, 15) + rest))) ==
            Some(Standard(id, rtr, dlc, data, Number(crc), Number(Crc(body)), crc == Crc(body)))
  {
    hide *;
    var ids, code, bytes, field := ToBits(id, 11), ToBits(dlc, 4), BytesToBits(data), RegBits(crc, 15);
    var body := [DOMINANT] + ids + [rtr, 0, r0] + code + bytes;
    UnstuffFresh(body + field + rest);
    HeadValues(id, dlc);
    HeadApart(ids, rtr, r0, code, bytes);
    CrcFieldIs(crc);
    SameNumber(crc, Crc(body));
    DataIs(body, field, data);
    FieldsParsed(body, field, rest, dlc);
  }

  lemma UnstuffFresh(bits: seq<bit>)
    ensures Unstuffed(FRESH, Stuffed(FRESH, bits)) == bits
  {
    UnstuffStuff(FRESH, bits);
  }

  lemma HeadValues(id: nat, dlc: nat)
    requires id < 2048 && dlc < 16
    ensures Val(ToBits(id, 11)) == id && Val(ToBits(dlc, 4)) == dlc
  {
    assert Pow2(11) == 2048 && Pow2(4) == 16;
    ValOfBits(id, 11);
    ValOfBits(dlc, 4);
  }

  lemma HeadApart(ids: seq<bit>, rtr: bit, r0: bit, code: seq<bit>, bytes: seq<bit>)
    requires |ids| == 11 && |code| == 4
    ensures var b := [DOMINANT] + ids + [rtr, 0, r0] + code + bytes;
            && b[0] == DOMINANT && b[1..12] == ids && b[12] == rtr && b[13] == 0 && b[15..19] == code && b[19..] == bytes
  {
    var b := [DOMINANT] + ids + [rtr, 0, r0] + code + bytes;
    Middle([DOMINANT] + ids + [rtr, 0, r0], code, bytes);
    var later: seq<bit> := [rtr, 0, r0] + code + bytes;
    assert b == [DOMINANT] + ids + later;
    Middle([DOMINANT], ids, later);
    assert b[12] == later[0] && b[13] == later[1];
  }

  /** The parser reads the fields of a whole frame and nothing behind them. */
  lemma FieldsParsed(body: seq<bit>, field: seq<bit>, rest: seq<bit>, dlc: nat)
    requires |body| == 19 + 8 * Min(dlc, 8) && |field| == 15
    requires body[0] == DOMINANT && body[13] == 0 && Val(body[15..19]) == dlc
    ensures var crc, own := Val(field), Number(Crc(body));
            Parsed(body + field + rest) ==
            Some(Standard(Val(body[1..12]), body[12], dlc, DataAt(body + field, 19, Min(dlc, 8)), crc, own, crc == own))
  {
    hide Val, Number, Crc;
    var bits, core := body + field + rest, body + field;
    var n := Min(dlc, 8);
    assert bits[..19] == body[..19];
    assert bits[1..12] == bits[..19][1..12] && bits[15..19] == bits[..19][15..19];
    assert body[1..12] == body[..19][1..12] && body[15..19] == body[..19][15..19];
    assert bits[..|body|] == body && bits[|body|..|body| + 15] == field;
    forall k | 0 <= k < n
      ensures bits[19 + 8 * k..19 + 8 * k + 8] == core[19 + 8 * k..19 + 8 * k + 8]
    {
      assert bits[..|core|] == core;
      assert bits[19 + 8 * k..19 + 8 * k + 8] == bits[..|core|][19 + 8 * k..19 + 8 * k + 8];
    }
    assert DataAt(bits, 19, n) == DataAt(core, 19, n);
  }

  lemma Middle(a: seq<bit>, m: seq<bit>, c: seq<bit>)
    ensures (a + m + c)[|a|..|a| + |m|] == m && (a + m + c)[..|a|] == a && (a + m + c)[|a| + |m|..] == c
  {}

  lemma BodyFields(id: nat, data: seq<byte>)
    requires AnyFrame(id, data)
    ensures var b := Body(id, data);
            && b[0] == DOMINANT && Val(b[1..12]) == id && b[12] == 0 && b[13] == 0 && Val(b[15..19]) == |data|
            && b[19..] == BytesToBits(data)
  {
    HeadValues(id, |data|);
    var ids, dlc, rest := ToBits(id, 11), ToBits(|data|, 4), BytesToBits(data);
    var b := Body(id, data);
    HeadApart(ids, 0, 0, dlc, rest);
    hide Val, ToBits, BytesToBits, Body;
    assert b == [DOMINANT] + ids + [0, 0, 0] + dlc + rest by {
      BodyIs(id, data);
    }
  }

  lemma BodyIs(id: nat, data: seq<byte>)
    ensures Body(id, data) == [DOMINANT] + ToBits(id, 11) + [0, 0, 0] + ToBits(|data|, 4) + BytesToBits(data)
  {}

  /** The frame a node sent. */
  function Sent(id: nat, data: seq<byte>): CanFrame {
    var crc := Number(Crc(Body(id, data)));
    Standard(id, 0, |data|, data, crc, crc, true)
  }

  /** A core that has lost at most five trailing recessive bits is parsed as if whole: the
      parser pads what vanished into the gap. */
  lemma ParsePadded(id: nat, data: seq<byte>, bits: seq<bit>, m: nat)
    requires AnyFrame(id, data) && m <= 5 && bits + Held(RECESSIVE, m) == Core(id, data)
    requires data == [] ==> m == 0
    ensures Parsed(bits) == Some(Sent(id, data))
  {
    hide *;
    var body, end := Body(id, data), 19 + 8 * |data|;
    var field := RegBits(Crc(body), 15);
    FrameSize(id, data);
    BodyFields(id, data);
    CoreIs(id, data);
    CrcFieldIs(Crc(body));
    SentIs(id, data);
    var core := body + field;
    CoreSlices(body, field);
    PrefixOf(bits, Held(RECESSIVE, m), body, field);
    PaddedIs(bits, m, core, end);
    DataIs(body, field, data);
    ParsedIs(bits, |data|, core);
  }

  lemma FrameSize(id: nat, data: seq<byte>)
    requires AnyFrame(id, data)
    ensures |data| <= 8 && Min(|data|, 8) == |data| && DOMINANT == 0
  {}

  lemma SentIs(id: nat, data: seq<byte>)
    ensures var crc := Number(Crc(Body(id, data))); Sent(id, data) == Standard(id, 0, |data|, data, crc, crc, true)
  {
    hide Number, Crc, Body;
  }

  lemma DataIs(body: seq<bit>, field: seq<bit>, data: seq<byte>)
    requires |body| == 19 + 8 * |data| && body[19..] == BytesToBits(data)
    ensures DataAt(body + field, 19, |data|) == data
  {
    hide Val, BytesToBits;
    forall k | 0 <= k < |data|
      ensures DataAt(body + field, 19, |data|)[k] == data[k]
    {
      ByteBits(data, k);
      DataSlice(body, field, k);
    }
  }

  lemma PaddedIs(bits: seq<bit>, m: nat, core: seq<bit>, end: nat)
    requires bits + Held(RECESSIVE, m) == core && |core| == end + 15
    ensures Padded(bits, end + 15) == core
  {
    assert m == 0 ==> Held(RECESSIVE, m) == [];
  }

  lemma ParsedIs(bits: seq<bit>, n: nat, core: seq<bit>)
    requires |bits| >= 34 && bits[0] == DOMINANT && bits[13] == 0 && Val(bits[15..19]) == n <= 8
    requires |core| == 34 + 8 * n && Padded(bits, 19 + 8 * n + 15) == core
    ensures var end := 19 + 8 * n;
            var crc, own := Val(core[end..end + 15]), Number(Crc(core[..end]));
            Parsed(bits) ==
            Some(Standard(Val(bits[1..12]), bits[12], n, DataAt(core, 19, n), crc, own, crc == own))
  {
    hide Val, Number, Crc, Padded, DataAt;
  }

  lemma CoreIs(id: nat, data: seq<byte>)
    ensures Core(id, data) == Body(id, data) + RegBits(Crc(Body(id, data)), 15)
  {}

  lemma CoreSlices(body: seq<bit>, field: seq<bit>)
    ensures (body + field)[..|body|] == body && (body + field)[|body|..|body| + |field|] == field
  {}

  lemma DataSlice(body: seq<bit>, field: seq<bit>, k: nat)
    requires 19 + 8 * k + 8 <= |body|
    ensures (body + field)[19 + 8 * k..19 + 8 * k + 8] == body[19..][8 * k..8 * k + 8]
  {}

  /** The header survives in any prefix long enough. */
  lemma PrefixOf(bits: seq<bit>, pad: seq<bit>, body: seq<bit>, field: seq<bit>)
    requires bits + pad == body + field && |bits| >= 19 && |body| >= 19
    ensures bits[0] == body[0] && bits[12] == body[12] && bits[13] == body[13]
    ensures bits[1..12] == body[1..12] && bits[15..19] == body[15..19]
  {
    assert bits[..19] == (bits + pad)[..19] == body[..19];
    assert bits[1..12] == bits[..19][1..12] && bits[15..19] == bits[..19][15..19];
    assert body[1..12] == body[..19][1..12] && body[15..19] == body[..19][15..19];
  }

  lemma CrcFieldIs(c: bv15)
    ensures Val(RegBits(c, 15)) == Number(c)
  {}

  // ---- measuring and expanding -----------------------------------------------------------------

  /** (ui_l, c_l, ui_h, c_h) */
  datatype Cal = Cal(uiLow: real, cLow: real, uiHigh: real, cHigh: real) {
    predicate Valid() { uiLow > 0.0 && uiHigh > 0.0 }
    function Ui(level: bit): real { if level == DOMINANT then uiLow else uiHigh }
    function Bias(level: bit): real { if level == DOMINANT then cLow else cHigh }
  }

  /** Python's round(): to the nearest integer, ties to even. */
  function Round(x: real): int {
    var f := x.Floor;
    var d := x - f as real;
    if d < 0.5 then f else if d > 0.5 then f + 1 else if f % 2 == 0 then f else f + 1
  }

  lemma RoundsTo(x: real, k: int)
    requires -0.5 < x - k as real < 0.5
    ensures Round(x) == k
  {}

  /** The bit count decode_burst_cal gives a run. */
  function BitCount(t: nat, level: bit, cal: Cal): (n: nat)
    requires cal.Valid()
  {
    var n := Round((t as real - cal.Bias(level)) / cal.Ui(level));
    if n < 1 then 1 else n
  }

  /** A run of k bits measured as t ticks, off by less than half a unit interval. */
  predicate Measured(k: nat, t: nat, level: bit, cal: Cal) {
    var ideal := k as real * cal.Ui(level) + cal.Bias(level);
    -cal.Ui(level) < 2.0 * (t as real - ideal) < cal.Ui(level)
  }

  lemma MeasuredCounts(k: nat, t: nat, level: bit, cal: Cal)
    requires cal.Valid() && k >= 1 && Measured(k, t, level, cal)
    ensures BitCount(t, level, cal) == k
  {
    var ui, v := cal.Ui(level), t as real - cal.Bias(level);
    Divide(v, ui, k as real);
    RoundsTo(v / ui, k);
  }

  lemma Divide(v: real, ui: real, k: real)
    requires ui > 0.0 && -ui < 2.0 * (v - k * ui) < ui
    ensures -0.5 < v / ui - k < 0.5
  {
    assert (v / ui) * ui == v;
    Nearby(v / ui, v, k, ui);
  }

  lemma Nearby(x: real, v: real, k: real, ui: real)
    requires ui > 0.0 && x * ui == v && -ui < 2.0 * (v - k * ui) < ui
    ensures -0.5 < x - k < 0.5
  {
    Distribute(x, k, ui);
    Scale(x - k, ui, v - k * ui);
  }

  lemma Distribute(x: real, k: real, ui: real)
    ensures (x - k) * ui == x * ui - k * ui
  {}

  lemma Scale(e: real, ui: real, p: real)
    requires ui > 0.0 && p == e * ui && -ui < 2.0 * p < ui
    ensures -0.5 < e < 0.5
  {
    ScaleUp(e - 0.5, ui);
    ScaleUp(-0.5 - e, ui);
    assert (e - 0.5) * ui == p - 0.5 * ui && (-0.5 - e) * ui == -0.5 * ui - p;
  }

  lemma ScaleUp(d: real, ui: real)
    requires ui > 0.0
    ensures d >= 0.0 ==> d * ui >= 0.0
  {}

  /** decode_burst_cal. */
  function Expanded(runs: seq<nat>, level: bit, cal: Cal): seq<bit>
    requires cal.Valid()
    decreases |runs|
  {
    if runs == [] then [] else Held(level, BitCount(runs[0], level, cal)) + Expanded(runs[1..], 1 - level, cal)
  }

  method DecodeBurstCal(runs: seq<nat>, cal: Cal) returns (bits: seq<bit>)
    requires cal.Valid()
    ensures bits == Expanded(runs, DOMINANT, cal)
  {
    hide Expanded, Round;
    bits := [];
    var level: bit := DOMINANT;
    assert runs[0..] == runs && bits + Expanded(runs, DOMINANT, cal) == Expanded(runs, DOMINANT, cal);
    for i := 0 to |runs|
      invariant bits + Expanded(runs[i..], level, cal) == Expanded(runs, DOMINANT, cal)
    {
      ExpandStep(runs, i, level, cal);
      var n := Round((runs[i] as real - cal.Bias(level)) / cal.Ui(level));
      n := if n < 1 then 1 else n;
      AssocBits(bits, Held(level, n), Expanded(runs[i + 1..], 1 - level, cal));
      bits := bits + Held(level, n);
      level := 1 - level;
    }
    ExpandEnd(runs[|runs|..], level, cal);
  }

  lemma ExpandStep(runs: seq<nat>, i: nat, level: bit, cal: Cal)
    requires cal.Valid() && i < |runs|
    ensures Expanded(runs[i..], level, cal) ==
            Held(level, BitCount(runs[i], level, cal)) + Expanded(runs[i + 1..], 1 - level, cal)
  {
    hide BitCount;
    assert runs[i..][1..] == runs[i + 1..];
  }

  lemma ExpandEnd(runs: seq<nat>, level: bit, cal: Cal)
    requires cal.Valid() && runs == []
    ensures Expanded(runs, level, cal) == []
  {}

  /** Every run of an alternating list is measured within tolerance. */
  predicate Tolerable(lens: seq<nat>, ticks: seq<nat>, level: bit, cal: Cal)
    decreases |lens|
  {
    |ticks| == |lens| &&
    (lens != [] ==> Measured(lens[0], ticks[0], level, cal) && Tolerable(lens[1..], ticks[1..], 1 - level, cal))
  }

  /** Within tolerance, expansion gives back the bits themselves. */
  lemma {:induction false} ExpandMeasured(lens: seq<nat>, ticks: seq<nat>, level: bit, cal: Cal)
    requires cal.Valid() && Tolerable(lens, ticks, level, cal)
    requires forall k :: 0 <= k < |lens| ==> lens[k] >= 1
    ensures Expanded(ticks, level, cal) == Spread(lens, level)
    decreases |lens|
  {
    hide Measured, BitCount;
    if lens != [] {
      MeasuredCounts(lens[0], ticks[0], level, cal);
      ExpandMeasured(lens[1..], ticks[1..], 1 - level, cal);
    }
  }

  // ---- cutting -----------------------------------------------------------------------------

  /** split_frames, with `cur` collected since the last cut. */
  function Split(runs: seq<nat>, bound: nat, cur: seq<nat>): seq<seq<nat>>
    decreases |runs|
  {
    if runs == [] then Kept(cur)
    else if runs[0] >= bound then Kept(cur) + Split(runs[1..], bound, [])
    else Split(runs[1..], bound, cur + [runs[0]])
  }

  /** Fewer than eight runs are no frame. */
  function Kept(cur: seq<nat>): seq<seq<nat>> { if |cur| >= 8 then [cur] else [] }

  method SplitFrames(runs: seq<nat>, bound: nat) returns (frames: seq<seq<nat>>)
    ensures frames == Split(runs, bound, [])
  {
    hide Split;
    frames := [];
    var cur: seq<nat> := [];
    assert runs[0..] == runs && frames + Split(runs, bound, []) == Split(runs, bound, []);
    for i := 0 to |runs|
      invariant frames + Split(runs[i..], bound, cur) == Split(runs, bound, [])
    {
      SplitStep(runs, i, bound, cur);
      if runs[i] >= bound {
        AssocLists(frames, Kept(cur), Split(runs[i + 1..], bound, []));
        assert frames + [] == frames;
        if |cur| >= 8 {
          frames := frames + [cur];
        }
        cur := [];
      } else {
        cur := cur + [runs[i]];
      }
    }
    SplitEnd(runs[|runs|..], bound, cur);
    assert frames + [] == frames;
    if |cur| >= 8 {
      frames := frames + [cur];
    }
  }

  lemma SplitStep(runs: seq<nat>, i: nat, bound: nat, cur: seq<nat>)
    requires i < |runs|
    ensures Split(runs[i..], bound, cur) ==
            if runs[i] >= bound then Kept(cur) + Split(runs[i + 1..], bound, [])
            else Split(runs[i + 1..], bound, cur + [runs[i]])
  {
    assert runs[i..][1..] == runs[i + 1..];
  }

  lemma SplitEnd(runs: seq<nat>, bound: nat, cur: seq<nat>)
    requires runs == []
    ensures Split(runs, bound, cur) == Kept(cur)
  {}

  lemma AssocLists(a: seq<seq<nat>>, b: seq<seq<nat>>, c: seq<seq<nat>>)
    ensures a + (b + c) == (a + b) + c
  {}

  /** Runs below the cut are collected, the run at the cut ends them. */
  lemma {:induction false} SplitOne(inner: seq<nat>, gap: nat, rest: seq<nat>, bound: nat, cur: seq<nat>)
    requires gap >= bound && forall k :: 0 <= k < |inner| ==> inner[k] < bound
    ensures Split(inner + [gap] + rest, bound, cur) == Kept(cur + inner) + Split(rest, bound, [])
    decreases |inner|
  {
    hide Split, Kept;
    var runs := inner + [gap] + rest;
    SplitStep(runs, 0, bound, cur);
    assert runs[0..] == runs;
    if inner == [] {
      assert runs[1..] == rest && cur + inner == cur;
    } else {
      SplitOne(inner[1..], gap, rest, bound, cur + [inner[0]]);
      assert runs[1..] == inner[1..] + [gap] + rest;
      assert cur + [inner[0]] + inner[1..] == cur + inner;
    }
  }

  // ---- end to end --------------------------------------------------------------------------

  /** What the host makes of captured bytes, with a known calibration and cut. */
  function HostFrames(data: seq<byte>, bound: nat, cal: Cal): seq<CanFrame>
    requires cal.Valid()
  {
    Decoded(Split(Rebuild(ItemsOf(data), 0), bound, []), cal)
  }

  /** decode_capture: the frames that parse. */
  function Decoded(frames: seq<seq<nat>>, cal: Cal): seq<CanFrame>
    requires cal.Valid()
  {
    if frames == [] then []
    else
      var f := Parsed(Unstuffed(FRESH, Expanded(frames[0], DOMINANT, cal)));
      (if f.Some? then [f.value] else []) + Decoded(frames[1..], cal)
  }

  lemma {:induction false} DecodedConcat(a: seq<seq<nat>>, b: seq<seq<nat>>, cal: Cal)
    requires cal.Valid()
    ensures Decoded(a + b, cal) == Decoded(a, cal) + Decoded(b, cal)
    decreases |a|
  {
    hide Parsed, Unstuffed, Expanded;
    if a == [] {
      assert a + b == b;
    } else {
      DecodedConcat(a[1..], b, cal);
      assert (a + b)[1..] == a[1..] + b;
    }
  }

  lemma DecodedOne(frame: seq<nat>, cal: Cal)
    requires cal.Valid()
    ensures Decoded([], cal) == []
    ensures var f := Parsed(Unstuffed(FRESH, Expanded(frame, DOMINANT, cal)));
            Decoded([frame], cal) == if f.Some? then [f.value] else []
  {
    hide Parsed, Unstuffed, Expanded;
    assert [frame][1..] == [];
  }

  /** A frame as sent, what the ACK slot held, and the tick counts of its runs as captured. */
  datatype Capture = Capture(id: nat, data: seq<byte>, ack: bit, ticks: seq<nat>)

  function FrameLengths(id: nat, data: seq<byte>, ack: bit): seq<nat> {
    var bits := FrameBits(id, data, ack);
    Lengths(DOMINANT, 1, bits[1..])
  }

  /** The runs up to the gap are measured within half a unit interval; the gap behind the frame
      may last any time; and the cut lies between them. */
  predicate GoodCapture(c: Capture, bound: nat, cal: Cal) {
    var lens := FrameLengths(c.id, c.data, c.ack);
    var n := |lens| - 1;
    && AnyFrame(c.id, c.data)
    && n >= 0 && |c.ticks| == n + 1
    && Tolerable(lens[..n], c.ticks[..n], DOMINANT, cal)
    && (forall k :: 0 <= k < n ==> c.ticks[k] < bound) && c.ticks[n] >= bound
  }

  function AllTicks(cs: seq<Capture>): seq<nat> {
    if cs == [] then [] else cs[0].ticks + AllTicks(cs[1..])
  }

  /** What is reported of a frame: the frame, but nothing of one without data that nobody acknowledges and
      whose last CRC bit is part of the gap. */
  function Reported(c: Capture): seq<CanFrame> {
    if c.data == [] && c.ack == RECESSIVE && EndsInGap(c.id) then [] else [Sent(c.id, c.data)]
  }

  function AllSent(cs: seq<Capture>): seq<CanFrame> {
    if cs == [] then [] else Reported(cs[0]) + AllSent(cs[1..])
  }

  lemma {:induction false} SpreadLength(lens: seq<nat>, level: bit)
    requires forall k :: 0 <= k < |lens| ==> lens[k] <= 5
    ensures |Spread(lens, level)| <= 5 * |lens|
    decreases |lens|
  {
    if lens != [] {
      SpreadLength(lens[1..], 1 - level);
    }
  }

  /** A frame's runs: short ones and one gap; what stands before the gap is the stuffed core
      without its last recessive bits. */
  lemma RunsOfFrame(id: nat, data: seq<byte>) returns (inner: seq<nat>, gap: nat)
    requires AnyFrame(id, data)
    ensures FrameLengths(id, data, RECESSIVE) == inner + [gap] && |inner| % 2 == 1
    ensures 13 <= gap <= 18 && forall k :: 0 <= k < |inner| ==> 1 <= inner[k] <= 5
    ensures Stuffed(FRESH, Core(id, data)) == Spread(inner, DOMINANT) + Held(RECESSIVE, gap - 13)
  {
    var s := Stuffed(FRESH, Core(id, data));
    StartsDominant(id, data);
    hide Core, Stuffed, Spread, Lengths;
    assert s == [DOMINANT] + s[1..] && Held(DOMINANT, 1) == [DOMINANT];
    assert (s + Held(RECESSIVE, 13))[1..] == s[1..] + Held(RECESSIVE, 13);
    inner, gap := FrameRuns(DOMINANT, 1, s[1..]);
  }

  /** With data there are at least eight runs in front of the gap. */
  lemma ShapeOfFrame(id: nat, data: seq<byte>) returns (inner: seq<nat>, gap: nat)
    requires StandardFrame(id, data)
    ensures FrameLengths(id, data, RECESSIVE) == inner + [gap]
    ensures 13 <= gap <= 18 && |inner| >= 8 && forall k :: 0 <= k < |inner| ==> 1 <= inner[k] <= 5
    ensures Stuffed(FRESH, Core(id, data)) == Spread(inner, DOMINANT) + Held(RECESSIVE, gap - 13)
  {
    inner, gap := RunsOfFrame(id, data);
    StuffedIsCalm(FRESH, Core(id, data));
    hide Core, Stuffed, Spread, FrameLengths;
    SpreadLength(inner, DOMINANT);
    var s := Stuffed(FRESH, Core(id, data));
    assert |s| == |Spread(inner, DOMINANT)| + (gap - 13);
  }

  lemma StartsDominant(id: nat, data: seq<byte>)
    requires AnyFrame(id, data)
    ensures var s := Stuffed(FRESH, Core(id, data)); |s| >= 1 && s[0] == DOMINANT
    ensures Calm(Tail(1, Some(DOMINANT)), Stuffed(FRESH, Core(id, data))[1..])
  {
    var core := Core(id, data);
    StuffedIsCalm(FRESH, core);
    assert core[0] == DOMINANT;
    Cons(FRESH, core[0], core[1..]);
    hide Core, Stuffed;
    assert core == [core[0]] + core[1..];
  }

  /** One captured frame with data decodes to what was sent, though trailing recessive CRC bits
      have vanished into the gap. */
  lemma DecodeData(c: Capture, bound: nat, cal: Cal) returns (inner: seq<nat>, gap: nat)
    requires cal.Valid() && GoodCapture(c, bound, cal) && c.data != [] && c.ack == RECESSIVE
    ensures c.ticks == inner + [gap] && gap >= bound && |inner| >= 8
    ensures forall k :: 0 <= k < |inner| ==> inner[k] < bound
    ensures Parsed(Unstuffed(FRESH, Expanded(inner, DOMINANT, cal))) == Some(Sent(c.id, c.data))
  {
    hide Core, Stuffed, Unstuffed, Spread, Expanded, Parsed, Sent, Measured, FrameLengths;
    var lens, g := ShapeOfFrame(c.id, c.data);
    var n := |lens|;
    inner, gap := c.ticks[..n], c.ticks[n];
    assert (lens + [g])[..n] == lens;
    ExpandMeasured(lens, inner, DOMINANT, cal);
    var p, core := Spread(lens, DOMINANT), Core(c.id, c.data);
    UnstuffStuff(FRESH, core);
    UnstuffConcat(FRESH, p, Held(RECESSIVE, g - 13));
    UnstuffOnes(TailAfter(FRESH, p), g - 13);
    var lost := Unstuffed(TailAfter(FRESH, p), Held(RECESSIVE, g - 13));
    ParsePadded(c.id, c.data, Unstuffed(FRESH, p), |lost|);
  }

  // ---- acknowledged frames -----------------------------------------------------------------

  lemma TwoLevels()
    ensures DOMINANT == 0 && RECESSIVE == 1
  {}

  /** An acknowledged frame: the ACK slot is a dominant run of one bit in front of a gap of 11. */
  lemma RunsOfAcked(id: nat, data: seq<byte>) returns (inner: seq<nat>)
    requires AnyFrame(id, data)
    ensures FrameLengths(id, data, DOMINANT) == inner + [11]
    ensures |inner| >= 8 && forall k :: 0 <= k < |inner| ==> inner[k] >= 1
    ensures Spread(inner, DOMINANT) == Stuffed(FRESH, Core(id, data)) + [RECESSIVE, DOMINANT]
  {
    var first, gap := RunsOfFrame(id, data);
    ManyRuns(id, data, first, gap - 13);
    TwoLevels();
    var s := Stuffed(FRESH, Core(id, data));
    var k := gap - 13;
    inner := first + [k + 1, 1];
    hide Core, Stuffed, Lengths, Spread, Held;
    SpreadTwo(first, k);
    AckBits(s, Spread(first, DOMINANT), k);
    SpreadOne(inner, 11);
    LengthsOfSpread(inner + [11], DOMINANT);
    TrailerBits(s);
  }

  /** A frame has at least eight runs in front of its last recessive bits. */
  lemma ManyRuns(id: nat, data: seq<byte>, inner: seq<nat>, k: nat)
    requires AnyFrame(id, data) && k <= 5 && forall i :: 0 <= i < |inner| ==> 1 <= inner[i] <= 5
    requires Stuffed(FRESH, Core(id, data)) == Spread(inner, DOMINANT) + Held(RECESSIVE, k)
    ensures |inner| >= 6
  {
    StuffedIsCalm(FRESH, Core(id, data));
    hide Core, Stuffed, Spread;
    SpreadLength(inner, DOMINANT);
  }

  lemma {:induction false} SpreadConcat(a: seq<nat>, b: seq<nat>, level: bit)
    ensures Spread(a + b, level) == Spread(a, level) + Spread(b, if |a| % 2 == 0 then level else 1 - level)
    decreases |a|
  {
    hide Spread, Held;
    if a == [] {
      NoBlocks(level);
      assert a + b == b && [] + Spread(b, level) == Spread(b, level);
    } else {
      var rest := a[1..];
      SpreadConcat(rest, b, 1 - level);
      SpreadCons(level, a[0], rest);
      SpreadCons(level, a[0], rest + b);
      assert a == [a[0]] + rest && a + b == [a[0]] + (rest + b);
      AssocBits(Held(level, a[0]), Spread(rest, 1 - level), Spread(b, if |rest| % 2 == 0 then 1 - level else level));
    }
  }

  lemma SpreadTwo(first: seq<nat>, k: nat)
    requires |first| % 2 == 1
    ensures Spread(first + [k + 1, 1], DOMINANT) == Spread(first, DOMINANT) + (Held(RECESSIVE, k + 1) + [DOMINANT])
  {
    TwoLevels();
    NoBlocks(RECESSIVE);
    hide Spread;
    SpreadConcat(first, [k + 1, 1], DOMINANT);
    SpreadCons(RECESSIVE, k + 1, [1]);
    SpreadCons(DOMINANT, 1, []);
    assert [k + 1] + [1] == [k + 1, 1] && [1] + [] == [1];
    assert Held(DOMINANT, 1) + [] == [DOMINANT];
  }

  lemma NoBlocks(level: bit)
    ensures Spread([], level) == []
  {}

  lemma SpreadOne(inner: seq<nat>, n: nat)
    requires |inner| % 2 == 1
    ensures Spread(inner + [n], DOMINANT) == Spread(inner, DOMINANT) + Held(RECESSIVE, n)
  {
    TwoLevels();
    NoBlocks(DOMINANT);
    hide Spread;
    SpreadConcat(inner, [n], DOMINANT);
    SpreadCons(RECESSIVE, n, []);
    assert [n] + [] == [n] && Held(RECESSIVE, n) + [] == Held(RECESSIVE, n);
  }

  lemma AckBits(s: seq<bit>, p: seq<bit>, k: nat)
    requires s == p + Held(RECESSIVE, k)
    ensures p + (Held(RECESSIVE, k + 1) + [DOMINANT]) == s + [RECESSIVE, DOMINANT]
  {}

  lemma TrailerBits(s: seq<bit>)
    ensures s + Trailer(DOMINANT) == s + [RECESSIVE, DOMINANT] + Held(RECESSIVE, 11)
  {}

  /** Blocks of alternating level are the runs of the bits they make. */
  lemma {:induction false} LengthsOfSpread(lens: seq<nat>, level: bit)
    requires lens != [] && forall k :: 0 <= k < |lens| ==> lens[k] >= 1
    ensures Spread(lens, level) != [] && Spread(lens, level)[0] == level
    ensures Lengths(level, 1, Spread(lens, level)[1..]) == lens
    decreases |lens|
  {
    var n, rest := lens[0], lens[1..];
    var later := Spread(rest, 1 - level);
    assert Spread(lens, level) == Held(level, n) + later;
    assert Spread(lens, level)[1..] == Held(level, n - 1) + later;
    if rest == [] {
      assert later == [] && Held(level, n - 1) + later == Held(level, n - 1);
      LengthsOfHeld(level, 1, n - 1);
      assert lens == [n];
    } else {
      LengthsOfSpread(rest, 1 - level);
      LengthsThrough(level, 1, n - 1, later);
      assert lens == [n] + rest;
    }
  }

  lemma {:induction false} LengthsThrough(level: bit, n: nat, m: nat, later: seq<bit>)
    requires later != [] && later[0] == 1 - level
    ensures Lengths(level, n, Held(level, m) + later) == [n + m] + Lengths(1 - level, 1, later[1..])
    decreases m
  {
    if m == 0 {
      assert Held(level, 0) + later == later;
    } else {
      assert (Held(level, m) + later)[1..] == Held(level, m - 1) + later;
      LengthsThrough(level, n + 1, m - 1, later);
    }
  }

  /** Bits behind the CRC change nothing. */
  lemma ParseLonger(id: nat, data: seq<byte>, more: seq<bit>)
    requires AnyFrame(id, data)
    ensures Parsed(Core(id, data) + more) == Some(Sent(id, data))
  {
    hide *;
    var body := Body(id, data);
    var field := RegBits(Crc(body), 15);
    FrameSize(id, data);
    BodyFields(id, data);
    CoreIs(id, data);
    CrcFieldIs(Crc(body));
    SentIs(id, data);
    DataIs(body, field, data);
    FieldsParsed(body, field, more, |data|);
  }

  /** An acknowledged frame, of any length, decodes to what was sent. */
  lemma DecodeAcked(c: Capture, bound: nat, cal: Cal) returns (inner: seq<nat>, gap: nat)
    requires cal.Valid() && GoodCapture(c, bound, cal) && c.ack == DOMINANT
    ensures c.ticks == inner + [gap] && gap >= bound && |inner| >= 8
    ensures forall k :: 0 <= k < |inner| ==> inner[k] < bound
    ensures Parsed(Unstuffed(FRESH, Expanded(inner, DOMINANT, cal))) == Some(Sent(c.id, c.data))
  {
    hide Core, Stuffed, Unstuffed, Spread, Expanded, Parsed, Sent, Measured, FrameLengths;
    var lens := RunsOfAcked(c.id, c.data);
    var n := |lens|;
    inner, gap := c.ticks[..n], c.ticks[n];
    assert (lens + [11])[..n] == lens;
    ExpandMeasured(lens, inner, DOMINANT, cal);
    var core := Core(c.id, c.data);
    UnstuffStuff(FRESH, core);
    UnstuffConcat(FRESH, Stuffed(FRESH, core), [RECESSIVE, DOMINANT]);
    ParseLonger(c.id, c.data, Unstuffed(TailAfter(FRESH, Stuffed(FRESH, core)), [RECESSIVE, DOMINANT]));
  }

  // ---- frames without data -----------------------------------------------------------------

  /** The last CRC bit, sent recessive and followed by no stuff bit, is part of the gap. */
  predicate EndsInGap(id: nat) {
    var core := Core(id, []);
    var s := Stuffed(FRESH, core);
    core[|core| - 1] == RECESSIVE && s != [] && s[|s| - 1] == RECESSIVE
  }

  /** If so, what stands before the gap is at least one bit short of the core. */
  lemma ShortOfCore(core: seq<bit>, p: seq<bit>, k: nat)
    requires core != [] && core[|core| - 1] == RECESSIVE && p != [] && p[|p| - 1] == DOMINANT
    requires Stuffed(FRESH, core) == p + Held(RECESSIVE, k) && k > 0
    ensures |Unstuffed(FRESH, p)| < |core|
  {
    var n := |core| - 1;
    var q := Stuffed(FRESH, core[..n]);
    assert core == core[..n] + [RECESSIVE];
    var u := StuffedSnoc(FRESH, core[..n], RECESSIVE);
    hide Stuffed, Unstuffed;
    var s := Stuffed(FRESH, core);
    assert s[|s| - 1] == RECESSIVE;
    assert q == s[..|s| - 1] == p + Held(RECESSIVE, k - 1);
    UnstuffStuff(FRESH, core[..n]);
    UnstuffConcat(FRESH, p, Held(RECESSIVE, k - 1));
  }

  /** A frame without data, measured within tolerance, parses as sent if and only if its last CRC
      bit is not part of the gap: the parser's length check stands before its padding. */
  lemma DecodeEmpty(id: nat, ticks: seq<nat>, cal: Cal)
    requires id < 2048 && cal.Valid()
    requires var lens := FrameLengths(id, [], RECESSIVE);
             lens != [] && Tolerable(lens[..|lens| - 1], ticks, DOMINANT, cal)
    ensures Parsed(Unstuffed(FRESH, Expanded(ticks, DOMINANT, cal))) ==
            if EndsInGap(id) then None else Some(Sent(id, []))
  {
    hide *;
    EmptyIsAny(id);
    var inner, gap := RunsOfFrame(id, []);
    assert (inner + [gap])[..|inner|] == inner;
    ExpandMeasured(inner, ticks, DOMINANT, cal);
    EmptyParses(id, inner, gap - 13);
  }

  lemma EmptyIsAny(id: nat)
    requires id < 2048
    ensures AnyFrame(id, []) && |Core(id, [])| == 34
  {}

  lemma EmptyParses(id: nat, inner: seq<nat>, k: nat)
    requires AnyFrame(id, []) && |inner| % 2 == 1 && k <= 5 && forall i :: 0 <= i < |inner| ==> 1 <= inner[i] <= 5
    requires Stuffed(FRESH, Core(id, [])) == Spread(inner, DOMINANT) + Held(RECESSIVE, k)
    ensures Parsed(Unstuffed(FRESH, Spread(inner, DOMINANT))) ==
            if EndsInGap(id) then None else Some(Sent(id, []))
  {
    EmptyIsAny(id);
    SpreadEnds(inner, DOMINANT);
    var p, core := Spread(inner, DOMINANT), Core(id, []);
    hide Core, Stuffed, Unstuffed, Spread, Parsed, Sent;
    if EndsInGap(id) {
      ShortOfCore(core, p, k);
      TooShort(Unstuffed(FRESH, p));
    } else {
      UnstuffStuff(FRESH, core);
      UnstuffConcat(FRESH, p, Held(RECESSIVE, k));
      UnstuffOnes(TailAfter(FRESH, p), k);
      var lost := Unstuffed(TailAfter(FRESH, p), Held(RECESSIVE, k));
      if k > 0 {
        NothingLost(Unstuffed(FRESH, p), lost, core);
      }
      assert lost == [] && Unstuffed(FRESH, p) + Held(RECESSIVE, 0) == core;
      ParsePadded(id, [], Unstuffed(FRESH, p), 0);
    }
  }

  lemma NothingLost(kept: seq<bit>, lost: seq<bit>, core: seq<bit>)
    requires core == kept + lost && core != [] && core[|core| - 1] == DOMINANT && lost == Held(RECESSIVE, |lost|)
    ensures lost == []
  {}

  /** It does happen: identifier 1, whose CRC is 0x2213. */
  lemma EmptyFrameLost()
    ensures EndsInGap(1)
  {
    hide *;
    CrcOfOne();
    LowBits(0x2213);
    CoreIs(1, []);
    var body, field := Body(1, []), RegBits(0x2213, 15);
    assert body + field == (body + field[..12]) + [0, 1, 1];
    SoftCore(1, body + field[..12]);
  }

  lemma SoftCore(id: nat, a: seq<bit>)
    requires Core(id, []) == a + [0, 1, 1]
    ensures EndsInGap(id)
  {
    SoftEnd(FRESH, a);
    hide Core, Stuffed;
  }

  /** Behind a dominant bit two recessive ones need no stuff bit. */
  lemma {:induction false} SoftEnd(t: Tail, a: seq<bit>)
    ensures var s := Stuffed(t, a + [0, 1, 1]); s != [] && s[|s| - 1] == RECESSIVE
    decreases |a|
  {
    if a == [] {
      var u := StuffBit(t, 0).0;
      assert a + [0, 1, 1] == [0] + ([1] + ([1] + []));
      Cons(t, 0, [1] + ([1] + []));
      Cons(u, 1, [1] + []);
      Cons(StuffBit(u, 1).0, 1, []);
    } else {
      SoftEnd(StuffBit(t, a[0]).0, a[1..]);
      assert a + [0, 1, 1] == [a[0]] + (a[1..] + [0, 1, 1]);
      Cons(t, a[0], a[1..] + [0, 1, 1]);
    }
  }

  lemma {:induction false} CrcOfZeros(n: nat)
    ensures Crc(Held(DOMINANT, n)) == 0
    decreases n
  {
    if n > 0 {
      CrcOfZeros(n - 1);
      assert Held(DOMINANT, n) == Held(DOMINANT, n - 1) + [0];
      FeedSnoc(0, Held(DOMINANT, n - 1), 0);
    }
  }

  lemma CrcOfOne()
    ensures Crc(Body(1, [])) == 0x2213
  {
    hide *;
    BodyOfOne();
    CrcOfZeros(11);
    var zeros := Held(DOMINANT, 11);
    ShiftsOfOne();
    CrcStep(zeros, 1, 0, 0x4599);
    var b := zeros + [1];
    ThreeZeros(b, 0x4599, 0x7407);
    ThreeZeros(b + [0] + [0] + [0], 0x7407, 0x73C5);
    CrcStep(b + [0] + [0] + [0] + [0] + [0] + [0], 0, 0x73C5, 0x2213);
  }

  lemma ShiftsOfOne()
    ensures Shift(0, true) == 0x4599 && Shift(Shift(Shift(0x4599, false), false), false) == 0x7407
    ensures Shift(Shift(Shift(0x7407, false), false), false) == 0x73C5 && Shift(0x73C5, false) == 0x2213
  {}

  lemma BodyOfOne()
    ensures Body(1, []) == Held(DOMINANT, 11) + [1] + [0] + [0] + [0] + [0] + [0] + [0] + [0]
  {
    hide *;
    BodyIs(1, []);
    NoBytes();
    ToBitsOfZero(4);
    ToBitsOfZero(10);
    LastBit(1, 11);
    ElevenZeros(Held(DOMINANT, 11), Held(DOMINANT, 10), Held(DOMINANT, 4));
  }

  lemma NoBytes()
    ensures BytesToBits([]) == [] && DOMINANT == 0
  {}

  lemma ElevenZeros(z11: seq<bit>, z10: seq<bit>, z4: seq<bit>)
    requires z11 == Held(0, 11) && z10 == Held(0, 10) && z4 == Held(0, 4)
    ensures [0] + (z10 + [1]) + [0, 0, 0] + z4 + [] == z11 + [1] + [0] + [0] + [0] + [0] + [0] + [0] + [0]
  {}

  lemma {:induction false} ToBitsOfZero(n: nat)
    ensures ToBits(0, n) == Held(DOMINANT, n)
    decreases n
  {
    if n > 0 {
      ToBitsOfZero(n - 1);
    }
  }

  lemma LastBit(v: nat, n: nat)
    requires n > 0
    ensures ToBits(v, n) == ToBits(v / 2, n - 1) + [v % 2]
  {}

  lemma CrcStep(bits: seq<bit>, b: bit, c: bv15, c': bv15)
    requires Crc(bits) == c && c' == Shift(c, b == 1)
    ensures Crc(bits + [b]) == c'
  {
    FeedSnoc(0, bits, b);
  }

  lemma ThreeZeros(bits: seq<bit>, c: bv15, c': bv15)
    requires Crc(bits) == c && c' == Shift(Shift(Shift(c, false), false), false)
    ensures Crc(bits + [0] + [0] + [0]) == c'
  {
    FeedSnoc(0, bits, 0);
    FeedSnoc(0, bits + [0], 0);
    FeedSnoc(0, bits + [0] + [0], 0);
    hide Shift, Feed;
  }

  /** The last bits of the CRC field are the low bits of the register. */
  lemma LowBits(c: bv15)
    requires c == 0x2213
    ensures RegBits(c, 15)[12..] == [0, 1, 1]
  {
    var r := RegBits(c, 15);
    FourOn(c, 0x2130, 15);
    FourOn(0x2130, 0x1300, 11);
    FourOn(0x1300, 0x3000, 7);
    ThreeBits();
    hide RegBits;
    assert r[4..][4..] == r[8..] && r[8..][4..] == r[12..];
  }

  lemma ThreeBits()
    ensures RegBits(0x3000, 3) == [0, 1, 1]
  {
    assert RegBits(0x4000, 1) == [1] + RegBits(0, 0) == [1];
    assert RegBits(0x6000, 2) == [1] + RegBits(0x4000, 1);
    assert RegBits(0x3000, 3) == [0] + RegBits(0x6000, 2);
  }

  lemma FourOn(c: bv15, c': bv15, n: nat)
    requires n >= 4 && c' == Left(Left(Left(Left(c))))
    ensures RegBits(c, n)[4..] == RegBits(c', n - 4)
  {
    var c1, c2, c3 := Left(c), Left(Left(c)), Left(Left(Left(c)));
    assert RegBits(c, n)[1..] == RegBits(c1, n - 1) && RegBits(c1, n - 1)[1..] == RegBits(c2, n - 2);
    assert RegBits(c2, n - 2)[1..] == RegBits(c3, n - 3) && RegBits(c3, n - 3)[1..] == RegBits(c', n - 4);
  }

  lemma TooShort(bits: seq<bit>)
    requires |bits| < 34
    ensures Parsed(bits) == None
  {}

  /** The captured bytes carry no marker, so the host rebuilds the ticks themselves. */
  lemma {:induction false} PlainItems(data: seq<byte>)
    requires forall b :: b in data ==> b <= CAP
    ensures ItemsOf(data) == data
    decreases |data|
  {
    if data != [] {
      assert data[0] in data && forall b :: b in data[1..] ==> b in data;
      PlainItems(data[1..]);
    }
  }

  lemma {:induction false} RunBytesPlain(t: nat)
    ensures forall b :: b in RunBytes(t) ==> b <= CAP
    decreases t
  {
    if t >= CAP {
      RunBytesPlain(t - CAP);
    }
  }

  lemma {:induction false} RunsBytesPlain(runs: seq<nat>)
    ensures forall b :: b in RunsBytes(runs) ==> b <= CAP
    decreases |runs|
  {
    hide RunBytes;
    if runs != [] {
      RunBytesPlain(runs[0]);
      RunsBytesPlain(runs[1..]);
    }
  }

  // ---- all frames ----------------------------------------------------------------------------

  /** Bits that follow j equal ones at the same level are all kept, up to the fifth. */
  lemma {:induction false} UnstuffMore(level: bit, j: nat, m: nat, rest: seq<bit>)
    requires 1 <= j && j + m <= 5
    ensures |Unstuffed(Tail(j, Some(level)), Held(level, m) + rest)| ==
            m + |Unstuffed(Tail(j + m, Some(level)), rest)|
    decreases m
  {
    if m == 0 {
      assert Held(level, 0) + rest == rest;
    } else {
      UnstuffMore(level, j + 1, m - 1, rest);
      Cons(Tail(j, Some(level)), level, Held(level, m - 1) + rest);
      assert Held(level, m) + rest == [level] + (Held(level, m - 1) + rest);
    }
  }

  /** A run behind a change of level: its first bit is a stuff bit behind five alike. */
  lemma UnstuffRun(t: Tail, level: bit, n: nat, rest: seq<bit>)
    requires t.last != Some(level) && 1 <= n <= 5
    ensures |Unstuffed(t, Held(level, n) + rest)| ==
            (if t.run == 5 then n - 1 else n) + |Unstuffed(Tail(n, Some(level)), rest)|
  {
    UnstuffMore(level, 1, n - 1, rest);
    Cons(t, level, Held(level, n - 1) + rest);
    assert Held(level, n) + rest == [level] + (Held(level, n - 1) + rest);
  }

  /** n runs of at most five bits hold at most 4n + 1 bits besides the stuff bits. */
  lemma {:induction false} UnstuffBound(t: Tail, lens: seq<nat>, level: bit)
    requires t.last != Some(level) && forall k :: 0 <= k < |lens| ==> 1 <= lens[k] <= 5
    ensures |Unstuffed(t, Spread(lens, level))| + (if t.run == 5 && lens != [] then 1 else 0) <= 4 * |lens| + 1
    decreases |lens|
  {
    if lens != [] {
      var n, rest := lens[0], lens[1..];
      UnstuffBound(Tail(n, Some(level)), rest, 1 - level);
      UnstuffRun(t, level, n, Spread(rest, 1 - level));
      hide Unstuffed, Held;
      if rest == [] {
        assert Spread(rest, 1 - level) == [];
        UnstuffNothing(Tail(n, Some(level)));
      }
    }
  }

  lemma UnstuffNothing(t: Tail)
    ensures Unstuffed(t, []) == []
  {}

  /** What parses has more than eight runs. */
  lemma NotDropped(lens: seq<nat>)
    requires forall k :: 0 <= k < |lens| ==> 1 <= lens[k] <= 5
    requires Parsed(Unstuffed(FRESH, Spread(lens, DOMINANT))).Some?
    ensures |lens| > 8
  {
    hide *;
    FreshTail();
    UnstuffBound(FRESH, lens, DOMINANT);
    if |Unstuffed(FRESH, Spread(lens, DOMINANT))| < 34 {
      TooShort(Unstuffed(FRESH, Spread(lens, DOMINANT)));
    }
  }

  lemma FreshTail()
    ensures FRESH.last == None && FRESH.run == 0
  {}

  /** One captured frame, of any length: whether the cut drops its runs or the parser refuses
      them, what is reported is the frame, or nothing in the one case. */
  lemma DecodeOne(c: Capture, bound: nat, cal: Cal) returns (inner: seq<nat>, gap: nat)
    requires cal.Valid() && GoodCapture(c, bound, cal)
    ensures c.ticks == inner + [gap] && gap >= bound
    ensures forall k :: 0 <= k < |inner| ==> inner[k] < bound
    ensures Decoded(Kept(inner), cal) == Reported(c)
  {
    if c.ack == DOMINANT {
      inner, gap := DecodeAcked(c, bound, cal);
      hide *;
      DecodedOne(inner, cal);
      KeptIs(inner);
      ReportedIs(c);
      TwoLevels();
    } else if c.data != [] {
      inner, gap := DecodeData(c, bound, cal);
      hide *;
      DecodedOne(inner, cal);
      KeptIs(inner);
      ReportedIs(c);
    } else {
      inner, gap := CutApart(c, bound, cal);
      hide *;
      EmptyCapture(c, bound, cal);
      DecodeEmpty(c.id, inner, cal);
      DecodedOne(inner, cal);
      KeptIs(inner);
      ReportedIs(c);
    }
  }

  lemma ReportedIs(c: Capture)
    ensures Reported(c) == if c.data == [] && c.ack == RECESSIVE && EndsInGap(c.id) then [] else [Sent(c.id, c.data)]
  {
    hide EndsInGap, Sent;
  }

  lemma KeptIs(inner: seq<nat>)
    ensures Kept(inner) == if |inner| >= 8 then [inner] else []
  {}

  lemma CutApart(c: Capture, bound: nat, cal: Cal) returns (inner: seq<nat>, gap: nat)
    requires GoodCapture(c, bound, cal)
    ensures c.ticks == inner + [gap] && gap >= bound && forall k :: 0 <= k < |inner| ==> inner[k] < bound
    ensures inner == c.ticks[..|c.ticks| - 1]
  {
    hide FrameLengths, Tolerable;
    var n := |c.ticks| - 1;
    inner, gap := c.ticks[..n], c.ticks[n];
  }

  /** A frame without data that parses is not dropped by the cut. */
  lemma EmptyCapture(c: Capture, bound: nat, cal: Cal)
    requires cal.Valid() && GoodCapture(c, bound, cal) && c.data == [] && c.ack == RECESSIVE
    ensures c.id < 2048 && c.ticks != []
    ensures var lens := FrameLengths(c.id, [], RECESSIVE);
            lens != [] && Tolerable(lens[..|lens| - 1], c.ticks[..|c.ticks| - 1], DOMINANT, cal)
    ensures Parsed(Unstuffed(FRESH, Expanded(c.ticks[..|c.ticks| - 1], DOMINANT, cal))).Some? ==> |c.ticks| - 1 >= 8
  {
    hide Core, Stuffed, Unstuffed, Spread, Expanded, Parsed, Measured, FrameLengths;
    var lens, g := RunsOfFrame(c.id, c.data);
    var inner := c.ticks[..|lens|];
    assert (lens + [g])[..|lens|] == lens;
    ExpandMeasured(lens, inner, DOMINANT, cal);
    if Parsed(Unstuffed(FRESH, Spread(lens, DOMINANT))).Some? {
      NotDropped(lens);
    }
  }

  lemma {:induction false} DecodeAll(cs: seq<Capture>, bound: nat, cal: Cal)
    requires cal.Valid() && forall c :: c in cs ==> GoodCapture(c, bound, cal)
    ensures Decoded(Split(AllTicks(cs), bound, []), cal) == AllSent(cs)
    decreases |cs|
  {
    hide Split, Expanded, Unstuffed, Parsed, GoodCapture, Reported, Decoded, Kept;
    if cs == [] {
      SplitEnd([], bound, []);
      KeptIs([]);
      DecodedOne([], cal);
    } else {
      var c, rest := cs[0], cs[1..];
      assert c in cs;
      var inner, gap := DecodeOne(c, bound, cal);
      DecodeAll(rest, bound, cal);
      SplitOne(inner, gap, AllTicks(rest), bound, []);
      assert [] + inner == inner;
      assert AllTicks(cs) == inner + [gap] + AllTicks(rest);
      DecodedConcat(Kept(inner), Split(AllTicks(rest), bound, []), cal);
    }
  }

  /** CAN end to end: any list of standard frames, acknowledged or not, captured back to back within
      tolerance, comes out of the host as the same frames with a good CRC, without exactly those
      frames without data that nobody acknowledged and whose last CRC bit is part of the gap. */
  lemma CanEndToEnd(cs: seq<Capture>, bound: nat, cal: Cal)
    requires cal.Valid() && forall c :: c in cs ==> GoodCapture(c, bound, cal)
    ensures HostFrames(RunsBytes(AllTicks(cs)), bound, cal) == AllSent(cs)
  {
    hide Split, Rebuild, ItemsOf, RunsBytes, AllTicks, GoodCapture, Decoded;
    var bytes := RunsBytes(AllTicks(cs));
    RunsBytesPlain(AllTicks(cs));
    PlainItems(bytes);
    RebuildRuns(AllTicks(cs));
    DecodeAll(cs, bound, cal);
  }
}
