/** The run-length path as a whole for CAN: from the samples of the data pin, through the capture
    program, the interrupt, the squelch and the host's run reconstruction, to frames. */
module RleToCan {
  import opened Bytes
  import opened Cobs
  import opened RunCodec
  import opened Squelch
  import opened RleWire
  import opened RleSniffer
  import opened CanBits
  import opened CanDecode

  /** The runs of a captured frame in front of its gap. */
  function Inner(c: Capture): seq<nat> {
    if c.ticks == [] then [] else c.ticks[..|c.ticks| - 1]
  }

  function AllKept(cs: seq<Capture>): seq<seq<nat>> {
    if cs == [] then [] else Kept(Inner(cs[0])) + AllKept(cs[1..])
  }

  lemma OpenRuns(k: nat, g: nat, inner: seq<nat>, rest: seq<nat>)
    requires rest != [] && forall i :: 0 <= i < |inner| ==> inner[i] / CAP < k
    ensures HostRunsOpen(k, [g] + inner + rest) == SquelchedRun(k, g) + (inner + HostRunsOpen(k, rest))
    ensures HostRunsOpen(k, [g]) == OpenRun(k, g)
  {
    hide SquelchedRun, OpenRun;
    var n := |rest| - 1;
    var runs := [g] + inner + rest;
    assert runs[..|runs| - 1] == [g] + (inner + rest[..n]);
    assert ([g] + (inner + rest[..n]))[1..] == inner + rest[..n];
    ShortRuns(k, inner, rest[..n]);
    AssocRuns(inner, SquelchedRuns(k, rest[..n]), OpenRun(k, rest[n]));
    AssocRuns(SquelchedRun(k, g), inner + SquelchedRuns(k, rest[..n]), OpenRun(k, rest[n]));
    assert [g][..0] == [] && SquelchedRuns(k, []) == [] && [] + OpenRun(k, g) == OpenRun(k, g);
  }

  lemma {:induction false} SplitInner(inner: seq<nat>, rest: seq<nat>, bound: nat, cur: seq<nat>)
    requires forall i :: 0 <= i < |inner| ==> inner[i] < bound
    ensures Split(inner + rest, bound, cur) == Split(rest, bound, cur + inner)
    decreases |inner|
  {
    hide Split;
    var runs := inner + rest;
    if inner == [] {
      assert runs == rest && cur + inner == cur;
    } else {
      SplitStep(runs, 0, bound, cur);
      assert runs[0..] == runs && runs[1..] == inner[1..] + rest;
      SplitInner(inner[1..], rest, bound, cur + [inner[0]]);
      assert cur + [inner[0]] + inner[1..] == cur + inner;
    }
  }

  /** Either form of a long gap ends the frame in front of it. */
  lemma SplitGap(k: nat, g: nat, rest: seq<nat>, bound: nat, cur: seq<nat>)
    requires k > 1 && 0 < bound <= CAP * (k - 1) && bound <= BOUNDARY_RUN && g >= bound
    ensures Split(SquelchedRun(k, g) + rest, bound, cur) == Kept(cur) + Split(rest, bound, [])
  {
    hide Split;
    var runs := SquelchedRun(k, g) + rest;
    SplitStep(runs, 0, bound, cur);
    assert runs[0..] == runs;
    if g / CAP < k {
      assert runs[1..] == rest;
    } else {
      assert runs[0] == CAP * (k - 1) && runs[1] == BOUNDARY_RUN && runs[2..] == rest;
      SplitStep(runs, 1, bound, []);
      assert Kept([]) == [] && [] + Split(rest, bound, []) == Split(rest, bound, []);
    }
  }

  lemma SplitOpen(k: nat, g: nat, bound: nat, cur: seq<nat>)
    requires k > 1 && 0 < bound <= CAP * (k - 1) && bound <= BOUNDARY_RUN && g >= bound
    ensures Split(OpenRun(k, g), bound, cur) == Kept(cur)
  {
    SplitEnd([], bound, cur);
    if g / CAP >= k {
      SplitGap(k, g, [], bound, cur);
      SplitEnd([], bound, []);
      hide Split;
      assert SquelchedRun(k, g) + [] == SquelchedRun(k, g) && Kept(cur) + [] == Kept(cur);
    }
  }

  lemma FrameParts(c: Capture, bound: nat, cal: Cal)
    requires cal.Valid() && GoodCapture(c, bound, cal)
    ensures c.ticks != [] && c.ticks[|c.ticks| - 1] >= bound
    ensures forall i :: 0 <= i < |Inner(c)| ==> Inner(c)[i] < bound
    ensures CanDecode.Decoded(Kept(Inner(c)), cal) == CanDecode.Reported(c)
  {
    hide GoodCapture, CanDecode.Decoded, CanDecode.Reported, Kept;
    var inner, gap := DecodeOne(c, bound, cal);
    assert Inner(c) == inner;
  }

  lemma SplitFrame(k: nat, g: nat, inner: seq<nat>, tail: seq<nat>, bound: nat, cur: seq<nat>)
    requires k > 1 && 0 < bound <= CAP * (k - 1) && bound <= BOUNDARY_RUN && g >= bound
    requires forall i :: 0 <= i < |inner| ==> inner[i] < bound
    ensures Split(SquelchedRun(k, g) + (inner + tail), bound, cur) == Kept(cur) + Split(tail, bound, inner)
  {
    hide *;
    SplitGap(k, g, inner + tail, bound, cur);
    SplitInner(inner, tail, bound, []);
    assert [] + inner == inner;
  }

  lemma TicksCons(g: nat, cs: seq<Capture>)
    requires cs != [] && cs[0].ticks != []
    ensures var t := cs[0].ticks;
            [g] + AllTicks(cs) == [g] + Inner(cs[0]) + ([t[|t| - 1]] + AllTicks(cs[1..]))
    ensures AllKept(cs) == Kept(Inner(cs[0])) + AllKept(cs[1..])
  {
    hide Kept;
    var t, later := cs[0].ticks, AllTicks(cs[1..]);
    assert AllTicks(cs) == t + later;
    LastApart(g, t, later);
  }

  lemma LastApart(g: nat, t: seq<nat>, later: seq<nat>)
    requires t != []
    ensures [g] + (t + later) == [g] + t[..|t| - 1] + ([t[|t| - 1]] + later)
  {}

  lemma NoTicks(g: nat)
    ensures [g] + AllTicks([]) == [g] && AllKept([]) == []
  {}

  /** Behind a gap, the host cuts out exactly the frames. */
  lemma {:induction false} SplitCaptured(k: nat, g: nat, cs: seq<Capture>, bound: nat, cal: Cal, cur: seq<nat>)
    requires k > 1 && 0 < bound <= CAP * (k - 1) && bound <= BOUNDARY_RUN && g >= bound
    requires cal.Valid() && forall c :: c in cs ==> GoodCapture(c, bound, cal)
    ensures Split(HostRunsOpen(k, [g] + AllTicks(cs)), bound, cur) == Kept(cur) + AllKept(cs)
    decreases |cs|
  {
    hide *;
    if cs == [] {
      NoTicks(g);
      OpenRuns(k, g, [], [g]);
      SplitOpen(k, g, bound, cur);
    } else {
      var c, rest := cs[0], cs[1..];
      assert c in cs && forall x :: x in rest ==> x in cs;
      FrameParts(c, bound, cal);
      var inner, gap := Inner(c), c.ticks[|c.ticks| - 1];
      SplitCaptured(k, gap, rest, bound, cal, inner);
      TicksCons(g, cs);
      ShortOnes(inner, bound, k);
      OpenRuns(k, g, inner, [gap] + AllTicks(rest));
      SplitFrame(k, g, inner, HostRunsOpen(k, [gap] + AllTicks(rest)), bound, cur);
    }
  }

  lemma ShortOnes(inner: seq<nat>, bound: nat, k: nat)
    requires k > 1 && bound <= CAP * (k - 1) && forall i :: 0 <= i < |inner| ==> inner[i] < bound
    ensures forall i :: 0 <= i < |inner| ==> inner[i] / CAP < k
  {}

  lemma {:induction false} KeptDecode(cs: seq<Capture>, bound: nat, cal: Cal)
    requires cal.Valid() && forall c :: c in cs ==> GoodCapture(c, bound, cal)
    ensures CanDecode.Decoded(AllKept(cs), cal) == AllSent(cs)
    decreases |cs|
  {
    hide GoodCapture, Kept, Inner, CanDecode.Decoded, CanDecode.Reported;
    if cs == [] {
      DecodedOne([], cal);
    } else {
      FrameParts(cs[0], bound, cal);
      KeptDecode(cs[1..], bound, cal);
      DecodedConcat(Kept(Inner(cs[0])), AllKept(cs[1..]), cal);
    }
  }

  /** A boundary repeated behind a boundary cuts off nothing. */
  lemma {:induction false} SplitThick(a: seq<nat>, b: seq<nat>, open: bool, bound: nat, cur: seq<nat>)
    requires Thick(a, b, open) && bound <= BOUNDARY_RUN && (open ==> cur == [])
    ensures Split(b, bound, cur) == Split(a, bound, cur)
    decreases |b|
  {
    if b != [] {
      SplitStep(b, 0, bound, cur);
      assert b[0..] == b;
      if a != [] && a[0] == b[0] && Thick(a[1..], b[1..], b[0] == BOUNDARY_RUN) {
        SplitStep(a, 0, bound, cur);
        assert a[0..] == a;
        if a[0] >= bound {
          SplitThick(a[1..], b[1..], b[0] == BOUNDARY_RUN, bound, []);
        } else {
          SplitThick(a[1..], b[1..], false, bound, cur + [a[0]]);
        }
      } else {
        SplitThick(a, b[1..], true, bound, []);
        assert Kept([]) == [] && [] + Split(a, bound, []) == Split(a, bound, []);
      }
    }
  }

  /** From the data pin to the frames: an idle line, then any frames, the gap behind the last
      still open. With every stored byte drained and none lost, whatever the interleaving of the
      interrupt, the budgets and the squelch, the host reports exactly these frames from the
      wire; the main loop was never without a byte for more than 3 ms, or its idle boundaries stand
      where the squelch has left its mark. */
  lemma FramesFromThePin(s: RleSniffer, samples: seq<bit>, lead: nat, cs: seq<Capture>, bound: nat, cal: Cal)
    requires Drained(s, samples) && Unbroken(s)
    requires Counted(samples, 1, 0) + [OpenBlock(samples, 1, 0)] == [lead] + AllTicks(cs)
    requires cal.Valid() && forall c :: c in cs ==> GoodCapture(c, bound, cal)
    requires lead >= bound && 0 < bound <= CAP * (CAP_IDLE_K - 1)
    ensures HostFrames(s.t.wire, bound, cal) == AllSent(cs)
  {
    hide *;
    HostFramesIs(s.t.wire, bound, cal);
    HostReadsRepeats(s, samples);
    SplitThick(PinRuns(samples), Rebuild(ItemsOf(s.t.wire), 0), false, bound, []);
    PinIsOpen(samples, lead, AllTicks(cs));
    SplitCaptured(CAP_IDLE_K, lead, cs, bound, cal, []);
    KeptDecode(cs, bound, cal);
    KeptIs([]);
    assert [] + AllKept(cs) == AllKept(cs);
  }

  lemma HostFramesIs(data: seq<byte>, bound: nat, cal: Cal)
    requires cal.Valid()
    ensures HostFrames(data, bound, cal) == CanDecode.Decoded(Split(Rebuild(ItemsOf(data), 0), bound, []), cal)
    ensures CAP_IDLE_K == 150 && CAP == 128 && BOUNDARY_RUN == 0x4000_0000
  {}

  lemma PinIsOpen(samples: seq<bit>, lead: nat, rest: seq<nat>)
    requires Counted(samples, 1, 0) + [OpenBlock(samples, 1, 0)] == [lead] + rest
    ensures PinRuns(samples) == HostRunsOpen(CAP_IDLE_K, [lead] + rest)
  {
    hide Counted, OpenBlock, SquelchedRuns, OpenRun;
    var closed, open := Counted(samples, 1, 0), OpenBlock(samples, 1, 0);
    assert (closed + [open])[..|closed|] == closed && (closed + [open])[|closed|] == open;
  }
}
