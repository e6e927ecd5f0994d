/** The synthetic DMX generator (scripts/dmx_rle_decode.py: encode_packet) and its round trip
    through the receiver: a constant bias of less than a twentieth of a bit time per run, on
    packets sent back to back, costs no byte and no framing error. */
module DmxEncode {
  import opened Bytes
  import opened Cobs
  import opened RunCodec
  import opened CanBits
  import opened DmxTimeline
  import opened DmxDecode
  import opened DmxTolerance
  import opened DmxStream

  /** Lengths of BREAK, mark after break and idle line, in bits. */
  datatype Format = Format(breakBits: nat, mabBits: nat, idleBits: nat) {
    predicate Valid() { breakBits > 0 && mabBits > 0 && idleBits > 0 }
  }

  /** The line of one packet, bit by bit. */
  function PacketBits(slots: seq<byte>, f: Format, leadIdle: bool): seq<bit> {
    (if leadIdle then Held(1, f.idleBits) else []) +
    (Held(0, f.breakBits) + (Held(1, f.mabBits) + (SlotBits(slots) + Held(1, f.idleBits))))
  }

  /** Tick counts of runs: ui per bit, and a constant bias per run. */
  function Ticks(runs: seq<(bit, nat)>, ui: int, c: int): (ticks: seq<int>)
    ensures |ticks| == |runs|
  {
    if runs == [] then [] else [runs[0].1 * ui + c] + Ticks(runs[1..], ui, c)
  }

  method EncodeSlot(b: byte) returns (bits: seq<bit>)
    ensures bits == SlotFrame(b)
  {
    bits := [0];
    var v: nat := b;
    for k := 0 to 8
      invariant bits + LsbBits(v, 8 - k) == [0] + LsbBits(b, 8)
    {
      assert LsbBits(v, 8 - k) == [v % 2] + LsbBits(v / 2, 8 - k - 1);
      AssocSeq(bits, [v % 2], LsbBits(v / 2, 8 - k - 1));
      bits := bits + [v % 2];            // (b >> k) & 1
      v := v / 2;
    }
    assert LsbBits(v, 0) == [] && bits + [] == bits;
    bits := bits + [1, 1];
  }

  method EncodePacket(slots: seq<byte>, ui: int, f: Format, c: int, leadIdle: bool) returns (runs: seq<int>)
    ensures runs == Ticks(RunsOf(PacketBits(slots, f, leadIdle)), ui, c)
  {
    hide RunsOf, SlotBits, SlotFrame, Held;
    var bits := (if leadIdle then Held(1, f.idleBits) else []) + Held(0, f.breakBits) + Held(1, f.mabBits);
    var head := bits;
    for i := 0 to |slots|
      invariant bits + SlotBits(slots[i..]) == head + SlotBits(slots)
    {
      SlotBitsStep(slots, i);
      var s := EncodeSlot(slots[i]);
      AssocSeq(bits, s, SlotBits(slots[i + 1..]));
      bits := bits + s;
    }
    SlotBitsEnd(slots[|slots|..]);
    AssocSeq(bits, [], []);
    bits := bits + Held(1, f.idleBits);
    AssocLine(if leadIdle then Held(1, f.idleBits) else [], Held(0, f.breakBits), Held(1, f.mabBits), SlotBits(slots),
              Held(1, f.idleBits));
    assert bits == PacketBits(slots, f, leadIdle);
    runs := RunTicks(bits, ui, c);
  }

  /** The grouping loop. */
  method RunTicks(bits: seq<bit>, ui: int, c: int) returns (runs: seq<int>)
    ensures runs == Ticks(RunsOf(bits), ui, c)
  {
    hide RunsOf, RunOn, Ticks;
    runs := [];
    var i := 0;
    assert bits[0..] == bits && runs + Ticks(RunsOf(bits), ui, c) == Ticks(RunsOf(bits), ui, c);
    while i < |bits|
      invariant i <= |bits| && runs + Ticks(RunsOf(bits[i..]), ui, c) == Ticks(RunsOf(bits), ui, c)
    {
      var j := i;
      RunFirst(bits, i);
      while j < |bits| && bits[j] == bits[i]
        invariant i <= j <= |bits|
        invariant j > i ==> RunOn(bits[i], j - i, bits[j..]) == RunsOf(bits[i..])
      {
        if j > i {
          RunStep(bits[i], j - i, bits, j);
        }
        j := j + 1;
      }
      RunStep(bits[i], j - i, bits, j);
      TicksCons(bits[i], j - i, RunsOf(bits[j..]), ui, c);
      AssocSeq(runs, [(j - i) * ui + c], Ticks(RunsOf(bits[j..]), ui, c));
      runs := runs + [(j - i) * ui + c];
      i := j;
    }
    assert bits[i..] == [];
    RunsEnd();
    TicksEnd(ui, c);
    AssocSeq(runs, [], []);
  }

  lemma SlotBitsStep(slots: seq<byte>, i: nat)
    requires i < |slots|
    ensures SlotBits(slots[i..]) == SlotFrame(slots[i]) + SlotBits(slots[i + 1..])
    ensures slots[0..] == slots
  {
    hide SlotFrame;
    assert slots[i..][1..] == slots[i + 1..];
  }

  lemma SlotBitsEnd(slots: seq<byte>)
    requires slots == []
    ensures SlotBits(slots) == []
  {}

  lemma AssocLine(a: seq<bit>, b: seq<bit>, m: seq<bit>, s: seq<bit>, t: seq<bit>)
    ensures a + b + m + s + t == a + (b + (m + (s + t)))
  {}

  lemma TicksCons(level: bit, n: nat, rest: seq<(bit, nat)>, ui: int, c: int)
    ensures Ticks([(level, n)] + rest, ui, c) == [n * ui + c] + Ticks(rest, ui, c)
  {
    assert ([(level, n)] + rest)[1..] == rest;
  }

  lemma TicksEnd(ui: int, c: int)
    ensures Ticks([], ui, c) == []
  {}

  // ---- the runs of a packet ------------------------------------------------------------------------------

  lemma {:induction false} RunOnHeld(level: bit, n: nat, m: nat, rest: seq<bit>)
    requires rest == [] || rest[0] != level
    ensures RunOn(level, n, Held(level, m) + rest) == [(level, n + m)] + RunsOf(rest)
    decreases m
  {
    var s := Held(level, m) + rest;
    if m == 0 {
      assert s == rest;
    } else {
      assert s[1..] == Held(level, m - 1) + rest;
      RunOnHeld(level, n + 1, m - 1, rest);
    }
  }

  lemma RunsOfHeld(level: bit, m: nat, rest: seq<bit>)
    requires m > 0 && (rest == [] || rest[0] != level)
    ensures RunsOf(Held(level, m) + rest) == [(level, m)] + RunsOf(rest)
  {
    var s := Held(level, m) + rest;
    assert s[1..] == Held(level, m - 1) + rest;
    RunOnHeld(level, 1, m - 1, rest);
  }

  /** The lengths with `more` added to the last. */
  function Stretched(lens: seq<nat>, more: nat): (r: seq<nat>)
    requires lens != []
    ensures |r| == |lens|
  {
    lens[..|lens| - 1] + [lens[|lens| - 1] + more]
  }

  /** Ones behind a string that ends HIGH lengthen its last run. */
  lemma {:induction false} LengthsTail(level: bit, n: nat, bits: seq<bit>, m: nat)
    requires (if bits == [] then level else bits[|bits| - 1]) == 1
    ensures Lengths(level, n, bits + Held(1, m)) == Stretched(Lengths(level, n, bits), m)
    decreases |bits|
  {
    if bits == [] {
      assert bits + Held(1, m) == Held(1, m);
      LengthsOfHeld(1, n, m);
      assert [n][..0] == [];
    } else {
      assert (bits + Held(1, m))[1..] == bits[1..] + Held(1, m);
      if bits[0] == level {
        LengthsTail(level, n + 1, bits[1..], m);
      } else {
        LengthsTail(bits[0], 1, bits[1..], m);
        var later := Lengths(bits[0], 1, bits[1..]);
        assert ([n] + later)[..|later|] == [n] + later[..|later| - 1];
        AssocSeq([n], later[..|later| - 1], [later[|later| - 1] + m]);
      }
    }
  }

  lemma SlotsRuns(slots: seq<byte>, idle: nat)
    requires slots != []
    ensures RunsOf(SlotBits(slots) + Held(1, idle)) == Alternating(0, Stretched(SlotLens(slots), idle))
  {
    SlotRuns(slots);
    LastIsHigh(slots);
    var b := SlotBits(slots);
    hide Lengths, RunOn, SlotBits, Alternating;
    assert b == [b[0]] + b[1..] && |b| >= 11;
    assert (b + Held(1, idle))[1..] == b[1..] + Held(1, idle);
    LengthsTail(0, 1, b[1..], idle);
    RunsAlternate(0, 1, b[1..] + Held(1, idle));
  }

  lemma PacketRunList(slots: seq<byte>, f: Format, leadIdle: bool)
    requires slots != [] && f.Valid()
    ensures var body := [(0, f.breakBits), (1, f.mabBits)] + Alternating(0, Stretched(SlotLens(slots), f.idleBits));
            RunsOf(PacketBits(slots, f, leadIdle)) == (if leadIdle then [(1, f.idleBits)] else []) + body
  {
    SlotRuns(slots);
    var s := SlotBits(slots) + Held(1, f.idleBits);
    assert s[0] == 0;
    hide SlotBits, SlotLens, Held, RunsOf, Alternating;
    var tail := RunsOf(s);
    SlotsRuns(slots, f.idleBits);
    HeldStarts(1, f.mabBits, s);
    RunsOfHeld(1, f.mabBits, s);
    var m := Held(1, f.mabBits) + s;
    RunsOfHeld(0, f.breakBits, m);
    HeldStarts(0, f.breakBits, m);
    var b := Held(0, f.breakBits) + m;
    RunsOfHeld(1, f.idleBits, b);
    assert [(0, f.breakBits)] + ([(1, f.mabBits)] + tail) == [(0, f.breakBits), (1, f.mabBits)] + tail;
    assert [] + b == b && [] + RunsOf(b) == RunsOf(b);
  }

  lemma HeldStarts(level: bit, n: nat, rest: seq<bit>)
    requires n > 0
    ensures (Held(level, n) + rest)[0] == level
  {}

  // ---- bias within the tolerance ----------------------------------------------------------------------------

  lemma {:induction false} RealProduct(n: nat, m: nat)
    ensures (n * m) as real == n as real * m as real
  {
    if n > 0 {
      RealProduct(n - 1, m);
      assert n * m == (n - 1) * m + m;
      assert n as real * m as real == (n - 1) as real * m as real + m as real;
    }
  }

  /** The bias is less than a twentieth of a bit time. */
  predicate Slight(c: int, ui: nat) { 20 * c < ui && -20 * c < ui }

  /** A biased run is within a twentieth of a bit time of its nominal length. */
  lemma BiasedRun(n: nat, more: nat, ui: nat, c: int)
    requires Slight(c, ui)
    ensures ((n + more) * ui + c) as real > (n as real - TOL) * ui as real
    ensures more == 0 ==> ((n + more) * ui + c) as real < (n as real + TOL) * ui as real
    ensures n + more > 0 ==> (n + more) * ui + c > 0
  {
    RealProduct(n, ui);
    Distributes(n, more, ui);
    Tolerances(n as real, ui as real);
    if n + more > 0 {
      AtLeastOne(n + more, ui);
    }
  }

  lemma Distributes(n: nat, more: nat, ui: nat)
    ensures (n + more) * ui == n * ui + more * ui && more * ui >= 0
  {}

  lemma AtLeastOne(n: nat, ui: nat)
    requires n > 0
    ensures n * ui >= ui
  {}

  lemma Tolerances(n: real, ui: real)
    ensures (n - TOL) * ui == n * ui - TOL * ui && (n + TOL) * ui == n * ui + TOL * ui
  {}

  function Nat(x: int): nat { if x < 0 then 0 else x }

  function Biased(lens: seq<nat>, ui: nat, c: int): (ticks: seq<nat>)
    ensures |ticks| == |lens|
    ensures forall k :: 0 <= k < |lens| ==> ticks[k] == Nat(lens[k] * ui + c)
  {
    if lens == [] then [] else [Nat(lens[0] * ui + c)] + Biased(lens[1..], ui, c)
  }

  lemma {:induction false} TicksAlternate(level: bit, lens: seq<nat>, ui: nat, c: int)
    requires Slight(c, ui) && forall k :: 0 <= k < |lens| ==> lens[k] > 0
    ensures Ticks(Alternating(level, lens), ui, c) == Biased(lens, ui, c)
    decreases |lens|
  {
    if lens != [] {
      TicksAlternate(1 - level, lens[1..], ui, c);
      BiasedRun(lens[0], 0, ui, c);
      TicksCons(level, lens[0], Alternating(1 - level, lens[1..]), ui, c);
    }
  }

  /** The packet as the receiver will measure it. */
  function CapturedOf(slots: seq<byte>, f: Format, ui: nat, c: int): Captured
    requires slots != []
  {
    Captured(slots, Nat(f.breakBits * ui + c), Nat(f.mabBits * ui + c),
             Biased(Stretched(SlotLens(slots), f.idleBits), ui, c))
  }

  /** No run is as long as a boundary mark: eight ones and two STOP bits may stand in front of the
      idle line. */
  predicate Fits(f: Format, ui: nat, c: int) {
    && f.breakBits * ui + c < BOUNDARY_RUN && f.mabBits * ui + c < BOUNDARY_RUN
    && (f.idleBits + 10) * ui + c < BOUNDARY_RUN
  }

  /** The receiver takes the first run for a BREAK. */
  predicate LongBreak(f: Format, ui: nat, c: int) { f.breakBits * ui + c >= 16 * ui }

  lemma {:induction false} SlotBitAt(slots: seq<byte>, q: nat)
    requires q < |slots|
    ensures SlotBits(slots)[11 * q] == 0 && SlotBits(slots)[11 * q + 9] == 1
    decreases q
  {
    hide LsbBits;
    var f := SlotFrame(slots[0]);
    assert f[0] == 0 && f[9] == 1;
    if q > 0 {
      SlotBitAt(slots[1..], q - 1);
      assert SlotBits(slots)[11..] == SlotBits(slots[1..]);
    }
  }

  lemma SameRun(b: seq<bit>, lens: seq<nat>, k: nat, m: nat, m': nat)
    requires RunsAre(b, lens) && In(lens, k, m) && In(lens, k, m')
    ensures m < |b| && m' < |b| && b[m] == b[m']
  {}

  /** START and STOP bits keep every run within ten bits. */
  lemma SlotLensBound(slots: seq<byte>, k: nat)
    requires slots != [] && k < |SlotLens(slots)|
    ensures 1 <= SlotLens(slots)[k] <= 10
  {
    SlotRuns(slots);
    var lens, b := SlotLens(slots), SlotBits(slots);
    hide SlotLens, SlotBits;
    ARises(lens, k + 1, |lens|);
    var a := A(lens, k);
    assert A(lens, k + 1) == a + lens[k];
    if lens[k] > 10 {
      var q := (a + 10) / 11;
      var r := (a + 1) / 11;
      SameRun(b, lens, k, 11 * q, 11 * r + 9);
      SlotBitAt(slots, q);
      SlotBitAt(slots, r);
    }
  }

  /** A biased run, as a tick count. */
  lemma TickMeasured(n: nat, more: nat, ui: nat, c: int)
    requires Slight(c, ui) && n > 0 && (n + more) * ui + c < BOUNDARY_RUN
    ensures var t := Nat((n + more) * ui + c);
            0 < t < BOUNDARY_RUN && t == (n + more) * ui + c && Near(t, n, ui as real, more > 0)
  {
    BiasedRun(n, more, ui, c);
  }

  lemma BodyFits(n: nat, more: nat, f: Format, ui: nat, c: int)
    requires Fits(f, ui, c) && n <= 10 && more <= f.idleBits
    ensures (n + more) * ui + c < BOUNDARY_RUN
  {
    Distributes(n + more, f.idleBits + 10 - (n + more), ui);
  }

  /** A run of the slots, as captured. */
  lemma BodyMeasured(slots: seq<byte>, f: Format, ui: nat, c: int, k: nat)
    requires slots != [] && f.Valid() && Slight(c, ui) && Fits(f, ui, c) && k < |SlotLens(slots)|
    ensures var body := CapturedOf(slots, f, ui, c).body;
            && |body| == |SlotLens(slots)| && 0 < body[k] < BOUNDARY_RUN
            && Near(body[k], SlotLens(slots)[k], ui as real, k == |body| - 1)
            && (k < |body| - 1 ==> body[k] < 16 * ui)
  {
    SlotLensBound(slots, k);
    BodyAt(slots, f, ui, c, k);
    hide *;
    var lens := SlotLens(slots);
    var more := if k < |lens| - 1 then 0 else f.idleBits;
    Idles(f);
    BodyFits(lens[k], more, f, ui, c);
    TickMeasured(lens[k], more, ui, c);
    ShortTick(lens[k], ui, c);
  }

  lemma Idles(f: Format)
    requires f.Valid()
    ensures f.idleBits > 0
  {}

  lemma ShortTick(n: nat, ui: nat, c: int)
    requires Slight(c, ui) && n <= 10
    ensures (n + 0) * ui + c < 16 * ui
  {
    Distributes(n, 10 - n, ui);
  }

  lemma BodyAt(slots: seq<byte>, f: Format, ui: nat, c: int, k: nat)
    requires slots != [] && k < |SlotLens(slots)|
    ensures var body := CapturedOf(slots, f, ui, c).body;
            |body| == |SlotLens(slots)| &&
            body[k] == Nat((SlotLens(slots)[k] + (if k < |body| - 1 then 0 else f.idleBits)) * ui + c)
  {
    hide SlotLens, Nat;
    assert Stretched(SlotLens(slots), f.idleBits)[k] ==
           SlotLens(slots)[k] + (if k < |SlotLens(slots)| - 1 then 0 else f.idleBits);
  }

  lemma EndsMeasured(slots: seq<byte>, f: Format, ui: nat, c: int)
    requires slots != [] && f.Valid() && Slight(c, ui) && Fits(f, ui, c)
    ensures var cap := CapturedOf(slots, f, ui, c);
            && cap.slots == slots && |cap.body| == |SlotLens(slots)| && ui as real > 0.0
            && 0 < cap.brk < BOUNDARY_RUN && 0 < cap.mab < BOUNDARY_RUN
            && (LongBreak(f, ui, c) <==> cap.brk as real >= BREAK_BITS * ui as real)
  {
    hide SlotLens;
    TickMeasured(f.breakBits, 0, ui, c);
    TickMeasured(f.mabBits, 0, ui, c);
    RealProduct(16, ui);
  }

  lemma PacketMeasured(slots: seq<byte>, f: Format, ui: nat, c: int)
    requires slots != [] && f.Valid() && Slight(c, ui) && Fits(f, ui, c) && LongBreak(f, ui, c)
    ensures Measured(CapturedOf(slots, f, ui, c), ui as real)
  {
    EndsMeasured(slots, f, ui, c);
    hide SlotLens, CapturedOf, Fits, Slight, Near;
    var cap := CapturedOf(slots, f, ui, c);
    forall k | 0 <= k < |cap.body|
      ensures Near(cap.body[k], SlotLens(slots)[k], ui as real, k == |cap.body| - 1)
    {
      BodyMeasured(slots, f, ui, c, k);
    }
  }

  // ---- without a BREAK ----------------------------------------------------------------------------------------

  /** Every second run, from the first, is LOW and too short for a BREAK. */
  ghost predicate Breakless(runs: seq<nat>, ui: real) {
    && |runs| % 2 == 0
    && forall k :: 0 <= k < |runs| ==>
         0 < runs[k] < BOUNDARY_RUN && (k % 2 == 0 ==> runs[k] as real < BREAK_BITS * ui)
  }

  lemma BreaklessConcat(a: seq<nat>, b: seq<nat>, ui: real)
    requires Breakless(a, ui) && Breakless(b, ui)
    ensures Breakless(a + b, ui)
  {
    forall k | 0 <= k < |a + b|
      ensures 0 < (a + b)[k] < BOUNDARY_RUN && (k % 2 == 0 ==> (a + b)[k] as real < BREAK_BITS * ui)
    {
      if k >= |a| {
        assert (a + b)[k] == b[k - |a|];
      }
    }
  }

  lemma PacketBreakless(slots: seq<byte>, f: Format, ui: nat, c: int)
    requires slots != [] && f.Valid() && Slight(c, ui) && Fits(f, ui, c) && !LongBreak(f, ui, c)
    ensures Breakless(PacketRuns(CapturedOf(slots, f, ui, c)), ui as real)
  {
    hide *;
    EndsMeasured(slots, f, ui, c);
    EvenRuns(slots);
    var cap := CapturedOf(slots, f, ui, c);
    forall k | 0 <= k < |cap.body|
      ensures 0 < cap.body[k] < BOUNDARY_RUN
      ensures k < |cap.body| - 1 ==> cap.body[k] as real < BREAK_BITS * ui as real
    {
      BodyMeasured(slots, f, ui, c, k);
      Sixteen(cap.body[k], ui);
    }
    BreaklessRuns(cap, ui as real);
  }

  lemma Sixteen(t: nat, ui: nat)
    ensures t < 16 * ui ==> t as real < BREAK_BITS * ui as real
  {
    RealProduct(16, ui);
  }

  lemma BreaklessRuns(cap: Captured, ui: real)
    requires |cap.body| % 2 == 0 && 0 < cap.brk < BOUNDARY_RUN && 0 < cap.mab < BOUNDARY_RUN
    requires cap.brk as real < BREAK_BITS * ui
    requires forall k :: 0 <= k < |cap.body| ==> 0 < cap.body[k] < BOUNDARY_RUN
    requires forall k :: 0 <= k < |cap.body| - 1 ==> cap.body[k] as real < BREAK_BITS * ui
    ensures Breakless(PacketRuns(cap), ui)
  {
    var runs, limit := PacketRuns(cap), BREAK_BITS * ui;
    forall k | 0 <= k < |runs|
      ensures 0 < runs[k] < BOUNDARY_RUN && (k % 2 == 0 ==> runs[k] as real < limit)
    {
      assert k >= 2 ==> runs[k] == cap.body[k - 2];
    }
  }

  /** Where no LOW run is a BREAK, nothing is decoded. */
  lemma NothingDecoded(lead: nat, runs: seq<nat>, ui: real)
    requires ui > 0.0 && 0 < lead < BOUNDARY_RUN && Breakless(runs, ui)
    ensures DecodedWith([lead] + runs, ui, true) == ([], [])
  {
    hide *;
    var all := [lead] + runs;
    var levels := Levels(all, 1, 1);
    AllShort(lead, runs, ui);
    LevelsAlternate(all, [], 1);
    assert all + [] == all;
    var tl := Laid(all, levels, ui, ui, 0.0);
    LaidIsOrdered(all, levels, ui, ui, 0.0);
    LaidShows(all, levels, ui, 0.0);
    ShownSize(tl.segs, 0, all, levels, ui);
    forall k | 0 <= k < |tl.segs|
      ensures !IsBreak(tl.segs[k])
    {
      SegmentShown(tl.segs, 0, all, levels, ui, k);
      if k % 2 == 1 {
        BreaklessAt(lead, runs, ui, k);
        Over(all[k] as real, BREAK_BITS, ui);
      }
      TooShortFor(tl.segs[k], all[k], levels[k], ui);
    }
    NoBreaks(tl.segs, 0, |tl.segs|);
    LaidUnmarked(all, levels, ui, 0.0);
    NoEdges(tl);
    PacketsEnd(tl.segs, [tl.end]);
    DecodedIs(all, ui);
  }

  lemma AllShort(lead: nat, runs: seq<nat>, ui: real)
    requires 0 < lead < BOUNDARY_RUN && Breakless(runs, ui)
    ensures forall k :: 0 <= k < |[lead] + runs| ==> 0 < ([lead] + runs)[k] < BOUNDARY_RUN
  {}

  lemma BreaklessAt(lead: nat, runs: seq<nat>, ui: real, k: nat)
    requires Breakless(runs, ui) && k <= |runs| && k % 2 == 1
    ensures ([lead] + runs)[k] as real < BREAK_BITS * ui && ([lead] + runs)[k] < BOUNDARY_RUN
  {}

  lemma TooShortFor(seg: Seg, run: nat, level: bit, ui: real)
    requires ui > 0.0 && seg.end - seg.start == run as real / ui && seg.level == level
    requires level == 1 || run as real / ui < BREAK_BITS
    ensures !IsBreak(seg)
  {}

  lemma NoEdges(tl: Timeline)
    requires tl.bounds == [] && Breaks(tl.segs, 0) == Breaks(tl.segs, |tl.segs|)
    ensures Edges(tl) == [tl.end]
  {
    assert Breaks(tl.segs, |tl.segs|) == [];
  }

  lemma {:induction false} StretchedPositive(slots: seq<byte>, idle: nat)
    requires slots != []
    ensures forall k :: 0 <= k < |SlotLens(slots)| ==> Stretched(SlotLens(slots), idle)[k] > 0
  {
    hide SlotLens;
    forall k | 0 <= k < |SlotLens(slots)|
      ensures Stretched(SlotLens(slots), idle)[k] > 0
    {
      SlotLensBound(slots, k);
    }
  }

  /** The encoder's output, in the receiver's terms. */
  lemma PacketTicks(slots: seq<byte>, f: Format, ui: nat, c: int, leadIdle: bool)
    requires slots != [] && f.Valid() && Slight(c, ui)
    ensures Ticks(RunsOf(PacketBits(slots, f, leadIdle)), ui, c) ==
            (if leadIdle then [f.idleBits * ui + c] else []) + PacketRuns(CapturedOf(slots, f, ui, c))
  {
    hide SlotLens, PacketBits, RunsOf, Ticks, Alternating;
    var lens := Stretched(SlotLens(slots), f.idleBits);
    PacketRunList(slots, f, leadIdle);
    StretchedPositive(slots, f.idleBits);
    TicksAlternate(0, lens, ui, c);
    BiasedRun(f.breakBits, 0, ui, c);
    BiasedRun(f.mabBits, 0, ui, c);
    var body := Alternating(0, lens);
    assert [(0, f.breakBits), (1, f.mabBits)] + body == [(0, f.breakBits)] + ([(1, f.mabBits)] + body);
    TicksCons(1, f.mabBits, body, ui, c);
    TicksCons(0, f.breakBits, [(1, f.mabBits)] + body, ui, c);
    var all := [(0, f.breakBits)] + ([(1, f.mabBits)] + body);
    TicksCons(1, f.idleBits, all, ui, c);
    assert [] + all == all;
  }

  // ---- main result ---------------------------------------------------------------------------------------------

  /** Packets back to back: only the first has a line at rest in front of it. */
  function Encoded(packets: seq<seq<byte>>, f: Format, ui: int, c: int, leadIdle: bool): seq<int>
    decreases |packets|
  {
    if packets == [] then []
    else Ticks(RunsOf(PacketBits(packets[0], f, leadIdle)), ui, c) + Encoded(packets[1..], f, ui, c, false)
  }

  predicate NonEmpty(packets: seq<seq<byte>>) { forall k :: 0 <= k < |packets| ==> packets[k] != [] }

  function AllCaptured(packets: seq<seq<byte>>, f: Format, ui: nat, c: int): (cs: seq<Captured>)
    requires NonEmpty(packets)
    ensures |cs| == |packets|
  {
    if packets == [] then [] else [CapturedOf(packets[0], f, ui, c)] + AllCaptured(packets[1..], f, ui, c)
  }

  lemma {:induction false} EncodedIs(packets: seq<seq<byte>>, f: Format, ui: nat, c: int)
    requires f.Valid() && Slight(c, ui) && Fits(f, ui, c) && NonEmpty(packets)
    ensures var cs := AllCaptured(packets, f, ui, c);
            && Encoded(packets, f, ui, c, false) == AllRuns(cs) && AllSlots(cs) == packets
            && if LongBreak(f, ui, c) then forall x :: x in cs ==> Measured(x, ui as real)
               else Breakless(AllRuns(cs), ui as real)
    decreases |packets|
  {
    hide Ticks, RunsOf, PacketBits, Measured, Fits, PacketRuns, CapturedOf, LongBreak;
    if packets != [] {
      var p, rest := packets[0], packets[1..];
      EncodedIs(rest, f, ui, c);
      PacketTicks(p, f, ui, c, false);
      CapturedSlots(p, f, ui, c);
      var later := AllCaptured(rest, f, ui, c);
      var cs := [CapturedOf(p, f, ui, c)] + later;
      assert AllCaptured(packets, f, ui, c) == cs && cs[1..] == later;
      assert packets == [p] + rest;
      if LongBreak(f, ui, c) {
        PacketMeasured(p, f, ui, c);
      } else {
        PacketBreakless(p, f, ui, c);
        BreaklessConcat(PacketRuns(CapturedOf(p, f, ui, c)), AllRuns(later), ui as real);
      }
    }
  }

  lemma CapturedSlots(slots: seq<byte>, f: Format, ui: nat, c: int)
    requires slots != []
    ensures CapturedOf(slots, f, ui, c).slots == slots
  {}

  /** Any list of packets, each with at least one slot, any bit time and any constant bias below
      a twentieth of it: the receiver returns exactly those packets, without a framing error, or,
      when the BREAK is measured shorter than 16 bit times, nothing at all. */
  lemma DmxRoundTrip(packets: seq<seq<byte>>, f: Format, ui: nat, c: int)
    requires f.Valid() && Slight(c, ui) && packets != [] && NonEmpty(packets) && Fits(f, ui, c)
    ensures forall k :: 0 <= k < |Encoded(packets, f, ui, c, true)| ==> Encoded(packets, f, ui, c, true)[k] >= 0
    ensures DecodedWith(Encoded(packets, f, ui, c, true), ui as real, true) ==
            if LongBreak(f, ui, c) then (packets, Zeros(|packets|)) else ([], [])
  {
    assert packets[0] != [];
    hide Encoded, AllCaptured, Fits, Slight, DecodedWith, AllRuns, AllSlots, Measured, Zeros, LongBreak, Breakless;
    var cs := AllCaptured(packets, f, ui, c);
    EncodedIs(packets, f, ui, c);
    var lead := f.idleBits * ui + c;
    LeadRun(f, ui, c);
    LeadTicks(packets, f, ui, c);
    if LongBreak(f, ui, c) {
      DecodeMeasured(lead, cs, ui as real);
    } else {
      NothingDecoded(lead, AllRuns(cs), ui as real);
    }
  }

  lemma LeadRun(f: Format, ui: nat, c: int)
    requires f.Valid() && Slight(c, ui) && Fits(f, ui, c)
    ensures ui > 0 && 0 < f.idleBits * ui + c < BOUNDARY_RUN
  {
    BiasedRun(f.idleBits, 0, ui, c);
    Distributes(f.idleBits, 10, ui);
  }

  lemma LeadTicks(packets: seq<seq<byte>>, f: Format, ui: nat, c: int)
    requires f.Valid() && Slight(c, ui) && packets != [] && packets[0] != []
    ensures Encoded(packets, f, ui, c, true) == [f.idleBits * ui + c] + Encoded(packets, f, ui, c, false)
  {
    PacketTicks(packets[0], f, ui, c, true);
    PacketTicks(packets[0], f, ui, c, false);
    hide Ticks, RunsOf, PacketBits, PacketRuns, CapturedOf;
    var lead, first, rest := [f.idleBits * ui + c], PacketRuns(CapturedOf(packets[0], f, ui, c)),
                             Encoded(packets[1..], f, ui, c, false);
    assert [] + first == first;
    assert lead + first + rest == lead + (first + rest);
  }
}
