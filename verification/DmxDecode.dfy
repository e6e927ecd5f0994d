/** The DMX512 receiver (scripts/dmx_rle_decode.py: _uart_sample, _first_break_end,
    _decode_timeline, decode_with, encode_packet; slot format: ANSI E1.11 section 8). */
module DmxDecode {
  import opened Bytes
  import opened Cobs
  import opened RunCodec
  import opened DmxTimeline

  const BREAK_BITS: real := 16.0
  const NUDGE: real := 0.000000001

  // ---- the UART sampler --------------------------------------------------------------------------

  /** The centre of bit j behind a START edge at p. */
  function Mid(p: real, j: nat): real { p + 0.5 + j as real }

  /** Bits 0..k-1 of a byte, least significant first, sampled mid-bit after a START edge at p. */
  function Sampled(segs: seq<Seg>, p: real, k: nat): (v: nat)
    requires k <= 8
    ensures v < Pow2(k)
  {
    if k == 0 then 0 else Sampled(segs, p, k - 1) + LevelAt(segs, Mid(p, k)) * Pow2(k - 1)
  }

  function SampledByte(segs: seq<Seg>, p: real): byte {
    assert Pow2(8) == 256;
    Sampled(segs, p, 8)
  }

  /** The sampler from a START edge at p: the bytes, and the number of framing errors. */
  function Uart(segs: seq<Seg>, p: real, pEnd: real): (r: (seq<byte>, nat))
    requires Ordered(segs)
    decreases |segs| - Bisect(segs, p), 1
  {
    if p + 9.5 > pEnd then ([], 0)
    else if LevelAt(segs, p + 0.5) != 0 then UartNext(segs, p, 0.5, pEnd)
    else if LevelAt(segs, p + 9.5) != 1 then
      var r := UartNext(segs, p, 0.5, pEnd);
      (r.0, r.1 + 1)
    else
      var r := UartNext(segs, p, 9.5, pEnd);
      ([SampledByte(segs, p)] + r.0, r.1)
  }

  /** Resynchronise on the first falling edge more than `skip` bits behind p. */
  function UartNext(segs: seq<Seg>, p: real, skip: real, pEnd: real): (r: (seq<byte>, nat))
    requires Ordered(segs) && skip > 0.0
    decreases |segs| - Bisect(segs, p), 0
  {
    Resync(segs, p, skip);
    var nf := NextFalling(segs, p + skip);
    if nf.None? then ([], 0) else Uart(segs, nf.value, pEnd)
  }

  lemma Resync(segs: seq<Seg>, p: real, skip: real)
    requires Ordered(segs) && skip > 0.0
    ensures var nf := NextFalling(segs, p + skip);
            nf.Some? ==> nf.value > p && Bisect(segs, p) < Bisect(segs, nf.value) <= |segs|
  {
    FallsLater(segs, p + skip);
    BisectRises(segs, p, p + skip);
  }

  method SampleByte(segs: seq<Seg>, p: real) returns (val: byte)
    ensures val == SampledByte(segs, p)
  {
    hide LevelAt;
    var v: nat := 0;
    var bit: nat := 1;
    for k := 0 to 8
      invariant v == Sampled(segs, p, k) && bit == Pow2(k)
    {
      if LevelAt(segs, p + 1.5 + k as real) == 1 {
        v := v + bit;                    // v |= 1 << k
      }
      bit := 2 * bit;
    }
    assert Pow2(8) == 256;
    val := v;
  }

  method UartSample(segs: seq<Seg>, pStart: real, pEnd: real) returns (out: seq<byte>, errs: nat)
    requires Ordered(segs)
    ensures (out, errs) == UartFrom(segs, pStart, pEnd)
  {
    hide Bisect, LevelAt, NextFalling, SampledByte, Uart, Onward;
    out, errs := [], 0;
    var p := FindFalling(segs, pStart - NUDGE);
    ghost var goal := Onward(segs, p, pEnd);
    assert out + goal.0 == goal.0;
    while p.Some? && p.value + 9.5 <= pEnd
      invariant (out + Onward(segs, p, pEnd).0, errs + Onward(segs, p, pEnd).1) == goal
      decreases if p.Some? then 1 + |segs| - Bisect(segs, p.value) else 0
    {
      UartStep(segs, p.value, pEnd);
      OnwardIs(segs, p, pEnd);
      Resync(segs, p.value, 0.5);
      Resync(segs, p.value, 9.5);
      if LevelAt(segs, p.value + 0.5) != 0 {
        p := FindFalling(segs, p.value + 0.5);
        continue;
      }
      var val := SampleByte(segs, p.value);
      if LevelAt(segs, p.value + 9.5) != 1 {
        errs := errs + 1;
        var nf := FindFalling(segs, p.value + 0.5);
        OnwardIs(segs, nf, pEnd);
        p := nf;
        if nf.None? {
          break;
        }
        continue;
      }
      AssocSeq(out, [val], Onward(segs, NextFalling(segs, p.value + 9.5), pEnd).0);
      out := out + [val];
      p := FindFalling(segs, p.value + 9.5);
    }
    OnwardIs(segs, p, pEnd);
    if p.Some? {
      UartStep(segs, p.value, pEnd);
    }
    assert out + [] == out;
  }

  function UartFrom(segs: seq<Seg>, pStart: real, pEnd: real): (seq<byte>, nat)
    requires Ordered(segs)
  {
    Onward(segs, NextFalling(segs, pStart - NUDGE), pEnd)
  }

  lemma OnwardIs(segs: seq<Seg>, nf: Option<real>, pEnd: real)
    requires Ordered(segs)
    ensures Onward(segs, nf, pEnd) == if nf.None? then ([], 0) else Uart(segs, nf.value, pEnd)
  {}

  lemma UartStep(segs: seq<Seg>, p: real, pEnd: real)
    requires Ordered(segs)
    ensures Uart(segs, p, pEnd) ==
            if p + 9.5 > pEnd then ([], 0)
            else if LevelAt(segs, p + 0.5) != 0 then Onward(segs, NextFalling(segs, p + 0.5), pEnd)
            else if LevelAt(segs, p + 9.5) != 1 then
              var r := Onward(segs, NextFalling(segs, p + 0.5), pEnd); (r.0, r.1 + 1)
            else var r := Onward(segs, NextFalling(segs, p + 9.5), pEnd); ([SampledByte(segs, p)] + r.0, r.1)
  {
    hide LevelAt, NextFalling, SampledByte, Bisect;
  }

  function Onward(segs: seq<Seg>, nf: Option<real>, pEnd: real): (seq<byte>, nat)
    requires Ordered(segs)
  {
    if nf.None? then ([], 0) else Uart(segs, nf.value, pEnd)
  }

  // ---- packets -------------------------------------------------------------------------------------

  predicate IsBreak(s: Seg) { s.level == 0 && s.end - s.start >= BREAK_BITS }

  /** The end of the first BREAK from segment i on that starts before p1. */
  function BreakEnd(segs: seq<Seg>, i: nat, p1: real): Option<real>
    requires i <= |segs|
    decreases |segs| - i
  {
    if i == |segs| || segs[i].start >= p1 then None
    else if IsBreak(segs[i]) then Some(segs[i].end)
    else BreakEnd(segs, i + 1, p1)
  }

  function FirstBreakEnd(segs: seq<Seg>, p0: real, p1: real): Option<real> {
    var i := Bisect(segs, p0);
    BreakEnd(segs, if i > 0 then i - 1 else i, p1)
  }

  method FindBreakEnd(segs: seq<Seg>, p0: real, p1: real) returns (r: Option<real>)
    ensures r == FirstBreakEnd(segs, p0, p1)
  {
    var i := Bisect(segs, p0);
    if i > 0 {
      i := i - 1;
    }
    while i < |segs|
      invariant i <= |segs| && BreakEnd(segs, i, p1) == FirstBreakEnd(segs, p0, p1)
    {
      if segs[i].start >= p1 {
        break;
      }
      if IsBreak(segs[i]) {
        return Some(segs[i].end);
      }
      i := i + 1;
    }
    return None;
  }

  /** The starts of the BREAKs from segment i on. */
  function Breaks(segs: seq<Seg>, i: nat): seq<real>
    requires i <= |segs|
    decreases |segs| - i
  {
    if i == |segs| then [] else (if IsBreak(segs[i]) then [segs[i].start] else []) + Breaks(segs, i + 1)
  }

  /** Where the stream is cut: at the firmware's boundaries, else at the BREAKs. */
  function Edges(tl: Timeline): seq<real> {
    (if tl.bounds != [] then tl.bounds else Breaks(tl.segs, 0)) + [tl.end]
  }

  /** The packets of the regions between consecutive edges, each with its framing errors. */
  function Packets(segs: seq<Seg>, edges: seq<real>): (seq<seq<byte>>, seq<nat>)
    requires Ordered(segs)
    decreases |edges|
  {
    if |edges| < 2 then ([], [])
    else
      var (packets, errs) := Packets(segs, edges[1..]);
      var mab := FirstBreakEnd(segs, edges[0], edges[1]);
      if mab.None? then (packets, errs)
      else
        var (slots, e) := UartFrom(segs, mab.value, edges[1]);
        if slots == [] then (packets, errs) else ([slots] + packets, [e] + errs)
  }

  method DecodeTimeline(tl: Timeline) returns (packets: seq<seq<byte>>, errs: seq<nat>)
    requires Ordered(tl.segs)
    ensures (packets, errs) == Packets(tl.segs, Edges(tl))
  {
    hide Packets, UartFrom, FirstBreakEnd;
    var edges := tl.bounds;
    if edges == [] {
      edges := AllBreaks(tl.segs);
    }
    edges := edges + [tl.end];
    assert edges == Edges(tl);
    packets, errs := [], [];
    ghost var goal := Packets(tl.segs, edges);
    assert edges[0..] == edges && packets + goal.0 == goal.0 && errs + goal.1 == goal.1;
    var k := 0;
    while k + 1 < |edges|
      invariant k < |edges|
      invariant packets + Packets(tl.segs, edges[k..]).0 == goal.0
      invariant errs + Packets(tl.segs, edges[k..]).1 == goal.1
    {
      PacketsStep(tl.segs, edges, k);
      ghost var later := Packets(tl.segs, edges[k + 1..]);
      var mab := FindBreakEnd(tl.segs, edges[k], edges[k + 1]);
      if mab.Some? {
        var slots, e := UartSample(tl.segs, mab.value, edges[k + 1]);
        if slots != [] {
          AssocSeq(packets, [slots], later.0);
          AssocSeq(errs, [e], later.1);
          packets := packets + [slots];
          errs := errs + [e];
        }
      }
      k := k + 1;
    }
    PacketsEnd(tl.segs, edges[k..]);
    assert packets + [] == packets && errs + [] == errs;
  }

  lemma PacketsStep(segs: seq<Seg>, edges: seq<real>, k: nat)
    requires Ordered(segs) && k + 1 < |edges|
    ensures Packets(segs, edges[k..]) ==
            var (packets, errs) := Packets(segs, edges[k + 1..]);
            var mab := FirstBreakEnd(segs, edges[k], edges[k + 1]);
            if mab.None? then (packets, errs)
            else
              var (slots, e) := UartFrom(segs, mab.value, edges[k + 1]);
              if slots == [] then (packets, errs) else ([slots] + packets, [e] + errs)
  {
    hide UartFrom, FirstBreakEnd;
    assert edges[k..][1..] == edges[k + 1..];
  }

  lemma PacketsEnd(segs: seq<Seg>, edges: seq<real>)
    requires Ordered(segs) && |edges| < 2
    ensures Packets(segs, edges) == ([], [])
  {}

  method AllBreaks(segs: seq<Seg>) returns (brk: seq<real>)
    ensures brk == Breaks(segs, 0)
  {
    hide IsBreak;
    brk := [];
    assert brk + Breaks(segs, 0) == Breaks(segs, 0);
    var i := 0;
    while i < |segs|
      invariant i <= |segs| && brk + Breaks(segs, i) == Breaks(segs, 0)
    {
      BreaksStep(segs, i);
      AssocSeq(brk, [segs[i].start], Breaks(segs, i + 1));
      if IsBreak(segs[i]) {
        brk := brk + [segs[i].start];
      }
      i := i + 1;
    }
    assert Breaks(segs, i) == [] && brk + [] == brk;
  }

  lemma BreaksStep(segs: seq<Seg>, i: nat)
    requires i < |segs|
    ensures Breaks(segs, i) == if IsBreak(segs[i]) then [segs[i].start] + Breaks(segs, i + 1) else Breaks(segs, i + 1)
  {}

  /** What decode_with makes of runs at a known bit time and polarity. */
  function DecodedWith(runs: seq<nat>, ui: real, idleHigh: bool): (seq<seq<byte>>, seq<nat>)
    requires ui > 0.0
  {
    var idle := if idleHigh then 1 else 0;
    var levels := Levels(runs, idle, idle);
    var tl := Laid(runs, levels, ui, ui, 0.0);
    LaidIsOrdered(runs, levels, ui, ui, 0.0);
    Packets(tl.segs, Edges(tl))
  }

  method DecodeWith(runs: seq<nat>, ui: real, idleHigh: bool) returns (packets: seq<seq<byte>>, errs: seq<nat>)
    requires ui > 0.0
    ensures (packets, errs) == DecodedWith(runs, ui, idleHigh)
  {
    hide Laid, Levels, Packets, Edges;
    var levels := AssignLevels(runs, idleHigh);
    var tl := BuildTimeline(runs, levels, ui, ui);
    LaidIsOrdered(runs, levels, ui, ui, 0.0);
    packets, errs := DecodeTimeline(tl);
  }
}
