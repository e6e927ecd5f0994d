/** Whole DMX captures: from measured runs, with or without the firmware's idle boundaries, the
    decoder returns exactly the packets sent (scripts/dmx_rle_decode.py). */
module DmxStream {
  import opened Bytes
  import opened Cobs
  import opened RunCodec
  import opened CanBits
  import opened DmxTimeline
  import opened DmxDecode
  import opened DmxTolerance

  /** The runs of a packet's slots, from the first START edge on. */
  function SlotLens(slots: seq<byte>): (lens: seq<nat>)
    requires slots != []
    ensures |lens| >= 1
  {
    RunLens(SlotBits(slots))
  }

  lemma SlotRuns(slots: seq<byte>)
    requires slots != []
    ensures var b := SlotBits(slots); b != [] && b[0] == 0 && RunsAre(b, SlotLens(slots))
  {
    hide LsbBits;
    assert SlotFrame(slots[0])[0] == 0;
    RunLensAre(SlotBits(slots));
  }

  /** At segment i: a BREAK, a mark, and the slots. */
  ghost predicate PacketAt(segs: seq<Seg>, i: nat, slots: seq<byte>) {
    && slots != [] && i + 2 + |SlotLens(slots)| <= |segs|
    && IsBreak(segs[i]) && segs[i + 1].level == 1
    && Follows(segs, i + 2, SlotBits(slots), SlotLens(slots))
  }

  /** The segment behind the packet at i. */
  function Behind(i: nat, slots: seq<byte>): nat {
    i + 2 + (if slots == [] then 0 else |SlotLens(slots)|)
  }

  /** Where the axis is behind segment i - 1. */
  function Before(segs: seq<Seg>, i: nat): real
    requires 0 < i <= |segs|
  {
    segs[i - 1].end
  }

  /** Behind a BREAK the sampler reads the packet's slots, and then what is left of the region. */
  lemma PacketDecodes(segs: seq<Seg>, i: nat, slots: seq<byte>, pEnd: real)
    requires PacketAt(segs, i, slots) && Reaches(segs, Behind(i, slots), pEnd)
    ensures Ordered(segs) && i + 2 < |segs|
    ensures var r := From(segs, Behind(i, slots), pEnd);
            Uart(segs, segs[i + 2].start, pEnd) == UartFrom(segs, segs[i].end, pEnd) == (slots + r.0, r.1)
  {
    hide *;
    PacketShape(segs, i, slots);
    FirstStart(segs, i);
    SlotRuns(slots);
    BehindIs(i, slots);
    WholePacket(segs, i + 2, slots, pEnd);
    UartFromIs(segs, segs[i].end, segs[i + 2].start, pEnd);
  }

  /** ... nothing, when the region ends there. */
  lemma PacketAlone(segs: seq<Seg>, i: nat, slots: seq<byte>)
    requires PacketAt(segs, i, slots)
    ensures Ordered(segs) && UartFrom(segs, segs[i].end, Before(segs, Behind(i, slots))) == (slots, 0)
  {
    hide *;
    PacketShape(segs, i, slots);
    BehindIs(i, slots);
    var j := Behind(i, slots);
    BeforeIs(segs, j);
    EndReached(segs, j);
    PacketDecodes(segs, i, slots, Before(segs, j));
    assert slots + [] == slots;
  }

  lemma EndReached(segs: seq<Seg>, j: nat)
    requires Ordered(segs) && 0 < j <= |segs|
    ensures Reaches(segs, j, Before(segs, j)) && From(segs, j, Before(segs, j)) == ([], 0)
  {
    hide LevelAt, NextFalling;
  }

  lemma BehindIs(i: nat, slots: seq<byte>)
    requires slots != []
    ensures Behind(i, slots) == i + 2 + |SlotLens(slots)|
  {}

  lemma UartFromIs(segs: seq<Seg>, p: real, q: real, pEnd: real)
    requires Ordered(segs) && NextFalling(segs, p - NUDGE) == Some(q)
    ensures UartFrom(segs, p, pEnd) == Uart(segs, q, pEnd)
  {
    hide Uart, NextFalling;
  }

  lemma WholePacket(segs: seq<Seg>, i0: nat, slots: seq<byte>, pEnd: real)
    requires slots != [] && Follows(segs, i0, SlotBits(slots), SlotLens(slots))
    requires Reaches(segs, i0 + |SlotLens(slots)|, pEnd)
    ensures Ordered(segs) && i0 < |segs|
    ensures var r := From(segs, i0 + |SlotLens(slots)|, pEnd);
            Uart(segs, segs[i0].start, pEnd) == (slots + r.0, r.1)
  {
    var lens, b := SlotLens(slots), SlotBits(slots);
    assert A(lens, 0) == 0 && b[0..] == b;
    FollowsOrdered(segs, i0, b, lens);
    hide Follows, Uart, SlotBits, SlotLens;
    SlotsDecode(segs, i0, b, lens, 0, slots, pEnd);
    StIs(segs, i0, |lens|);
  }

  lemma StIs(segs: seq<Seg>, i0: nat, n: nat)
    requires 0 < n && i0 + n <= |segs|
    ensures St(segs, i0, n, 0) == segs[i0].start && St(segs, i0, n, n) == segs[i0 + n - 1].end
  {}

  lemma PacketShape(segs: seq<Seg>, i: nat, slots: seq<byte>)
    requires PacketAt(segs, i, slots)
    ensures Ordered(segs) && slots != [] && i + 2 + |SlotLens(slots)| <= |segs|
    ensures i + 2 < |segs| && segs[i + 2].level == 0 && segs[i + 1].level == 1 && IsBreak(segs[i])
    ensures Follows(segs, i + 2, SlotBits(slots), SlotLens(slots))
  {
    hide SlotBits, SlotLens, RunsAre;
    assert segs[i + 2 + 0].level == 0 % 2;
  }

  /** Behind the BREAK the first falling edge is the first START. */
  lemma FirstStart(segs: seq<Seg>, i: nat)
    requires Ordered(segs) && i + 2 < |segs| && IsBreak(segs[i]) && segs[i + 1].level == 1 && segs[i + 2].level == 0
    ensures NextFalling(segs, segs[i].end - NUDGE) == Some(segs[i + 2].start)
  {
    var p := segs[i].end - NUDGE;
    forall k | 0 <= k < i + 2 && segs[k].level == 0
      ensures segs[k].start <= p
    {
      StartsRise(segs, k, i);
    }
    StartsRise(segs, i, i + 2);
    FallsAt(segs, p, i + 2);
  }

  // ---- where the BREAKs are -----------------------------------------------------------------------------

  /** Inside the slots no LOW run is longer than nine bits. */
  lemma {:induction false} ShortLows(b: seq<bit>, lens: seq<nat>, a: nat, slots: seq<byte>, k: nat)
    requires RunsAre(b, lens) && a <= |b| && b[a..] == SlotBits(slots)
    requires k < |lens| && k % 2 == 0 && a <= A(lens, k)
    ensures lens[k] <= 9
    decreases |slots|
  {
    ARises(lens, k, k + 1);
    assert In(lens, k, A(lens, k));
    ARises(lens, k + 1, |lens|);
    assert |b| - a == |b[a..]| == 11 * |slots|;
    if slots != [] {
      FrameFirst(b, a, slots);
      if A(lens, k) >= a + 11 {
        ShortLows(b, lens, a + 11, slots[1..], k);
      } else {
        var stop := if A(lens, k) <= a + 9 then a + 9 else a + 10;
        assert !In(lens, k, stop);
      }
    }
  }

  /** Runs alternate from LOW and end HIGH. */
  lemma EvenRuns(slots: seq<byte>)
    requires slots != []
    ensures |SlotLens(slots)| % 2 == 0
  {
    SlotRuns(slots);
    var b, lens := SlotBits(slots), SlotLens(slots);
    LastIsHigh(slots);
    var n := |lens|;
    ARises(lens, n - 1, n);
    assert In(lens, n - 1, |b| - 1);
  }

  lemma {:induction false} LastIsHigh(slots: seq<byte>)
    requires slots != []
    ensures SlotBits(slots)[|SlotBits(slots)| - 1] == 1
  {
    hide LsbBits;
    if |slots| > 1 {
      LastIsHigh(slots[1..]);
      var f, rest := SlotFrame(slots[0]), SlotBits(slots[1..]);
      assert (f + rest)[|f| + |rest| - 1] == rest[|rest| - 1];
    } else {
      assert SlotBits(slots[1..]) == [];
      assert SlotFrame(slots[0])[10] == 1;
    }
  }

  lemma NotBreak(segs: seq<Seg>, i: nat, slots: seq<byte>, k: nat)
    requires PacketAt(segs, i, slots) && i < k < Behind(i, slots)
    ensures !IsBreak(segs[k])
  {
    var lens, b, r := SlotLens(slots), SlotBits(slots), k - (i + 2);
    EvenRuns(slots);
    if r >= 0 && r % 2 == 0 {
      assert b[0..] == b;
      ShortLows(b, lens, 0, slots, r);
      hide SlotBits, SlotLens, RunsAre, A;
      ShortSegment(segs, i + 2, b, lens, r);
    } else {
      hide SlotBits, SlotLens, RunsAre, A;
      HighSegment(segs, i, slots, k);
    }
  }

  lemma ShortSegment(segs: seq<Seg>, i0: nat, b: seq<bit>, lens: seq<nat>, r: nat)
    requires Follows(segs, i0, b, lens) && r < |lens| - 1 && lens[r] <= 9
    ensures !IsBreak(segs[i0 + r])
  {
    hide RunsAre;
  }

  lemma HighSegment(segs: seq<Seg>, i: nat, slots: seq<byte>, k: nat)
    requires PacketAt(segs, i, slots) && i < k < Behind(i, slots) && (k == i + 1 || (k - (i + 2)) % 2 == 1)
    ensures segs[k].level == 1
  {
    hide RunsAre, SlotLens, SlotBits;
    if k > i + 1 {
      assert segs[i + 2 + (k - (i + 2))].level == (k - (i + 2)) % 2;
    }
  }

  /** The only BREAK of a packet is its first segment. */
  lemma OneBreak(segs: seq<Seg>, i: nat, slots: seq<byte>)
    requires PacketAt(segs, i, slots)
    ensures i < Behind(i, slots) <= |segs| && Breaks(segs, i) == [segs[i].start] + Breaks(segs, Behind(i, slots))
  {
    hide *;
    PacketShape(segs, i, slots);
    BreaksStep(segs, i);
    PacketFits(segs, i, slots);
    forall k | i < k < Behind(i, slots)
      ensures !IsBreak(segs[k])
    {
      NotBreak(segs, i, slots, k);
    }
    NoBreaks(segs, i + 1, Behind(i, slots));
  }

  lemma PacketFits(segs: seq<Seg>, i: nat, slots: seq<byte>)
    requires PacketAt(segs, i, slots)
    ensures i + 2 < Behind(i, slots) <= |segs|
  {
    hide SlotLens;
  }

  lemma {:induction false} NoBreaks(segs: seq<Seg>, i: nat, j: nat)
    requires i <= j <= |segs| && forall k :: i <= k < j ==> !IsBreak(segs[k])
    ensures Breaks(segs, i) == Breaks(segs, j)
    decreases j - i
  {
    hide IsBreak;
    if i < j {
      NoBreaks(segs, i + 1, j);
    }
  }

  // ---- streams cut at their BREAKs ------------------------------------------------------------------------

  /** From segment i on: these packets, back to back. */
  ghost predicate Stream(segs: seq<Seg>, i: nat, packets: seq<seq<byte>>)
    decreases |packets|
  {
    if packets == [] then i == |segs|
    else PacketAt(segs, i, packets[0]) && Stream(segs, Behind(i, packets[0]), packets[1..])
  }

  function Zeros(n: nat): seq<nat> { seq(n, _ => 0) }

  /** The cuts from segment i on. */
  function Cuts(segs: seq<Seg>, i: nat, end: real): seq<real>
    requires i <= |segs|
  {
    Breaks(segs, i) + [end]
  }

  lemma CutsCons(segs: seq<Seg>, i: nat, slots: seq<byte>, end: real)
    requires PacketAt(segs, i, slots)
    ensures i < Behind(i, slots) <= |segs| && Cuts(segs, i, end) == [segs[i].start] + Cuts(segs, Behind(i, slots), end)
    ensures Cuts(segs, i, end)[0] == segs[i].start
  {
    OneBreak(segs, i, slots);
    hide PacketAt, Breaks, Behind;
    AssocSeq([segs[i].start], Breaks(segs, Behind(i, slots)), [end]);
  }

  lemma {:induction false} StreamDecodes(segs: seq<Seg>, i: nat, packets: seq<seq<byte>>, end: real)
    requires Ordered(segs) && segs != [] && i <= |segs| && Stream(segs, i, packets) && end == Before(segs, |segs|)
    ensures Packets(segs, Cuts(segs, i, end)) == (packets, Zeros(|packets|))
    ensures Cuts(segs, i, end) != [] && (i > 0 ==> Cuts(segs, i, end)[0] == Before(segs, i))
    decreases |packets|
  {
    hide *;
    StreamCases(segs, i, packets);
    if packets == [] {
      NoPackets(segs, end);
    } else {
      var slots, i' := packets[0], Behind(i, packets[0]);
      StreamDecodes(segs, i', packets[1..], end);
      PacketAlone(segs, i, slots);
      CutsCons(segs, i, slots, end);
      StreamRegion(segs, i, slots);
      OneMore(segs, segs[i].start, segs[i].end, Before(segs, i'), slots, 0, packets[1..], Zeros(|packets| - 1),
              Cuts(segs, i', end));
      ZerosCons(|packets|);
      assert packets == [slots] + packets[1..];
    }
  }

  /** One region in front of the others. */
  lemma OneMore(segs: seq<Seg>, p0: real, mab: real, p1: real, slots: seq<byte>, e: nat, packets: seq<seq<byte>>,
                errs: seq<nat>, edges: seq<real>)
    requires Ordered(segs) && slots != [] && edges != [] && edges[0] == p1
    requires FirstBreakEnd(segs, p0, p1) == Some(mab) && UartFrom(segs, mab, p1) == (slots, e)
    requires Packets(segs, edges) == (packets, errs)
    ensures Packets(segs, [p0] + edges) == ([slots] + packets, [e] + errs)
  {
    var all := [p0] + edges;
    assert all[1..] == edges && all[0..] == all;
    PacketsStep(segs, all, 0);
  }

  lemma StreamCases(segs: seq<Seg>, i: nat, packets: seq<seq<byte>>)
    requires Stream(segs, i, packets)
    ensures if packets == [] then i == |segs|
            else PacketAt(segs, i, packets[0]) && i < Behind(i, packets[0]) <= |segs|
                 && Stream(segs, Behind(i, packets[0]), packets[1..])
  {}

  lemma NoPackets(segs: seq<Seg>, end: real)
    requires Ordered(segs)
    ensures Cuts(segs, |segs|, end) == [end] && Packets(segs, Cuts(segs, |segs|, end)) == ([], Zeros(0))
  {
    PacketsEnd(segs, [end]);
    assert [] + [end] == [end] && Zeros(0) == [];
  }

  lemma ZerosCons(n: nat)
    requires n > 0
    ensures Zeros(n) == [0] + Zeros(n - 1)
  {}

  lemma StreamRegion(segs: seq<Seg>, i: nat, slots: seq<byte>)
    requires PacketAt(segs, i, slots)
    ensures i > 0 ==> segs[i].start == Before(segs, i)
    ensures FirstBreakEnd(segs, segs[i].start, Before(segs, Behind(i, slots))) == Some(segs[i].end)
  {
    PacketShape(segs, i, slots);
    StartsRise(segs, i, Behind(i, slots) - 1);
    hide Follows, SlotLens;
    BreakFound(segs, i, Before(segs, Behind(i, slots)));
  }

  /** Looking from a BREAK finds it. */
  lemma BreakFound(segs: seq<Seg>, i: nat, p1: real)
    requires Ordered(segs) && i < |segs| && IsBreak(segs[i]) && segs[i].start < p1
    ensures FirstBreakEnd(segs, segs[i].start, p1) == Some(segs[i].end)
  {
    StartsRise(segs, i, i);
    if i + 1 < |segs| {
      StartsRise(segs, i, i + 1);
    }
    BisectIs(segs, segs[i].start, i + 1);
  }

  // ---- streams cut at the firmware's boundaries -----------------------------------------------------------

  /** From segment i on: these packets, back to back. */
  ghost predicate GroupAt(segs: seq<Seg>, i: nat, g: seq<seq<byte>>)
    decreases |g|
  {
    g == [] || (PacketAt(segs, i, g[0]) && GroupAt(segs, Behind(i, g[0]), g[1..]))
  }

  /** The segment behind them. */
  function GroupEnd(i: nat, g: seq<seq<byte>>): (j: nat)
    ensures j >= i
    decreases |g|
  {
    if g == [] then i else GroupEnd(Behind(i, g[0]), g[1..])
  }

  /** The slots of a group in a row: the decoder does not look for a second BREAK in a region. */
  function Glued(g: seq<seq<byte>>): seq<byte> { if g == [] then [] else g[0] + Glued(g[1..]) }

  lemma GroupCases(segs: seq<Seg>, i: nat, g: seq<seq<byte>>)
    requires GroupAt(segs, i, g) && g != []
    ensures PacketAt(segs, i, g[0]) && GroupAt(segs, Behind(i, g[0]), g[1..])
    ensures GroupEnd(i, g) == GroupEnd(Behind(i, g[0]), g[1..]) && Glued(g) == g[0] + Glued(g[1..])
    ensures g[1..] == [] ==> GroupEnd(i, g) == Behind(i, g[0]) && Glued(g) == g[0]
  {}

  lemma {:induction false} GroupFits(segs: seq<Seg>, i: nat, g: seq<seq<byte>>)
    requires GroupAt(segs, i, g) && g != []
    ensures Ordered(segs) && i + 2 < Behind(i, g[0]) <= GroupEnd(i, g) <= |segs|
    decreases |g|
  {
    hide *;
    GroupCases(segs, i, g);
    PacketShape(segs, i, g[0]);
    PacketFits(segs, i, g[0]);
    if g[1..] != [] {
      GroupFits(segs, Behind(i, g[0]), g[1..]);
    }
  }

  /** A further BREAK is sampled as a slot without STOP bits: one framing error, and the sampler goes on
      with the first START behind it. */
  lemma BreakGlitch(segs: seq<Seg>, j: nat, pEnd: real)
    requires Ordered(segs) && j + 2 < |segs| && IsBreak(segs[j]) && segs[j + 1].level == 1 && segs[j + 2].level == 0
    requires segs[j].end <= pEnd
    ensures var r := Uart(segs, segs[j + 2].start, pEnd); From(segs, j, pEnd) == (r.0, r.1 + 1)
  {
    var p := segs[j].start;
    LongLow(segs, j);
    BehindBreak(segs, j);
    LowFrom(segs, j, pEnd);
    UartStep(segs, p, pEnd);
    OnwardIs(segs, Some(segs[j + 2].start), pEnd);
    hide *;
  }

  lemma LongLow(segs: seq<Seg>, j: nat)
    requires Ordered(segs) && j < |segs| && IsBreak(segs[j])
    ensures var p := segs[j].start; LevelAt(segs, p + 0.5) == LevelAt(segs, p + 9.5) == 0 && p + 9.5 < segs[j].end
  {
    LevelIn(segs, j, segs[j].start + 0.5);
    LevelIn(segs, j, segs[j].start + 9.5);
  }

  lemma LowFrom(segs: seq<Seg>, j: nat, pEnd: real)
    requires Ordered(segs) && j < |segs| && IsBreak(segs[j])
    ensures From(segs, j, pEnd) == Uart(segs, segs[j].start, pEnd)
  {
    hide Uart;
  }

  lemma BehindBreak(segs: seq<Seg>, j: nat)
    requires Ordered(segs) && j + 2 < |segs| && IsBreak(segs[j]) && segs[j + 1].level == 1 && segs[j + 2].level == 0
    ensures NextFalling(segs, segs[j].start + 0.5) == Some(segs[j + 2].start)
  {
    var p := segs[j].start + 0.5;
    forall k | 0 <= k < j + 2 && segs[k].level == 0
      ensures segs[k].start <= p
    {
      StartsRise(segs, k, j);
    }
    StartsRise(segs, j, j + 2);
    RegionOrder(segs, j, j + 2);
    RegionOrder(segs, j, j + 3);
    FallsAt(segs, p, j + 2);
  }

  /** Packets back to back in one region come out as one, with a framing error for each BREAK but the
      first. */
  lemma {:induction false} GroupDecodes(segs: seq<Seg>, i: nat, g: seq<seq<byte>>)
    requires GroupAt(segs, i, g) && g != []
    ensures Ordered(segs) && i + 2 < GroupEnd(i, g) <= |segs|
    ensures var pEnd := Before(segs, GroupEnd(i, g));
            Uart(segs, segs[i + 2].start, pEnd) == UartFrom(segs, segs[i].end, pEnd) == (Glued(g), |g| - 1)
    decreases |g|
  {
    hide *;
    GroupCases(segs, i, g);
    GroupFits(segs, i, g);
    PacketShape(segs, i, g[0]);
    var j, e := Behind(i, g[0]), GroupEnd(i, g);
    var pEnd := Before(segs, e);
    BeforeIs(segs, e);
    BeforeIs(segs, j);
    if g[1..] == [] {
      EndReached(segs, j);
      PacketDecodes(segs, i, g[0], pEnd);
      assert g[0] + [] == g[0];
    } else {
      GroupDecodes(segs, j, g[1..]);
      GroupCases(segs, j, g[1..]);
      GroupFits(segs, j, g[1..]);
      PacketShape(segs, j, g[1]);
      RegionOrder(segs, j, e);
      LaterReached(segs, j, pEnd);
      PacketDecodes(segs, i, g[0], pEnd);
      BreakGlitch(segs, j, pEnd);
    }
  }

  lemma LaterReached(segs: seq<Seg>, j: nat, pEnd: real)
    requires Ordered(segs) && 0 < j < |segs| && IsBreak(segs[j]) && segs[j].end <= pEnd
    ensures Reaches(segs, j, pEnd)
  {}

  /** From segment i on: idle boundaries, and any number of packets behind each. */
  ghost predicate Framed(segs: seq<Seg>, i: nat, groups: seq<seq<seq<byte>>>, bounds: seq<real>)
    decreases |groups|
  {
    if groups == [] then i == |segs| && bounds == []
    else
      && i < |segs| && segs[i].level == 1 && bounds != [] && bounds[0] == segs[i].start
      && GroupAt(segs, i + 1, groups[0]) && Framed(segs, GroupEnd(i + 1, groups[0]), groups[1..], bounds[1..])
  }

  /** What the decoder reports of them, and with how many framing errors. */
  function Heard(groups: seq<seq<seq<byte>>>): (r: seq<seq<byte>>)
  {
    if groups == [] then [] else (if groups[0] == [] then [] else [Glued(groups[0])]) + Heard(groups[1..])
  }

  function Glitches(groups: seq<seq<seq<byte>>>): (r: seq<nat>)
  {
    if groups == [] then [] else (if groups[0] == [] then [] else [|groups[0]| - 1]) + Glitches(groups[1..])
  }

  lemma HeardCons(g: seq<seq<byte>>, rest: seq<seq<seq<byte>>>)
    ensures Heard([g] + rest) == (if g == [] then [] else [Glued(g)]) + Heard(rest)
    ensures Glitches([g] + rest) == (if g == [] then [] else [|g| - 1]) + Glitches(rest)
    ensures [] + Heard(rest) == Heard(rest) && [] + Glitches(rest) == Glitches(rest)
  {
    assert ([g] + rest)[1..] == rest;
  }

  function Front(segs: seq<Seg>, i: nat, end: real): real { if i < |segs| then segs[i].start else end }

  lemma FramedCases(segs: seq<Seg>, i: nat, groups: seq<seq<seq<byte>>>, bounds: seq<real>)
    requires Framed(segs, i, groups, bounds)
    ensures if groups == [] then i == |segs| && bounds == []
            else
              && i < |segs| && segs[i].level == 1 && bounds != [] && bounds[0] == segs[i].start
              && GroupAt(segs, i + 1, groups[0])
              && Framed(segs, GroupEnd(i + 1, groups[0]), groups[1..], bounds[1..])
              && (groups[0] == [] ==> GroupEnd(i + 1, groups[0]) == i + 1)
  {}

  lemma {:induction false} FramedDecodes(segs: seq<Seg>, i: nat, groups: seq<seq<seq<byte>>>, bounds: seq<real>,
                                         end: real)
    requires Ordered(segs) && segs != [] && Framed(segs, i, groups, bounds) && end == Before(segs, |segs|)
    ensures Packets(segs, bounds + [end]) == (Heard(groups), Glitches(groups))
    ensures (bounds + [end])[0] == Front(segs, i, end)
    decreases |groups|
  {
    hide *;
    FramedCases(segs, i, groups, bounds);
    FrontIs(segs, i, end);
    if groups == [] {
      NothingFramed(segs, groups, bounds, end);
    } else {
      var g, edges := groups[0], bounds[1..] + [end];
      assert bounds + [end] == [segs[i].start] + edges && groups == [g] + groups[1..];
      HeardCons(g, groups[1..]);
      FramedDecodes(segs, GroupEnd(i + 1, g), groups[1..], bounds[1..], end);
      if g == [] {
        BareMark(segs, i, end);
        OneLess(segs, segs[i].start, edges);
      } else {
        GroupDecodes(segs, i + 1, g);
        FramedRegion(segs, i, g, end);
        OneMore(segs, segs[i].start, segs[i + 1].end, Before(segs, GroupEnd(i + 1, g)), Glued(g), |g| - 1,
                Heard(groups[1..]), Glitches(groups[1..]), edges);
      }
    }
  }

  lemma NothingFramed(segs: seq<Seg>, groups: seq<seq<seq<byte>>>, bounds: seq<real>, end: real)
    requires Ordered(segs) && groups == [] && bounds == []
    ensures Packets(segs, bounds + [end]) == (Heard(groups), Glitches(groups)) && bounds + [end] == [end]
  {
    PacketsEnd(segs, [end]);
    assert bounds + [end] == [end];
  }

  /** A boundary with no packet behind it. */
  lemma BareMark(segs: seq<Seg>, i: nat, end: real)
    requires Ordered(segs) && i < |segs| && segs[i].level == 1
    ensures FirstBreakEnd(segs, segs[i].start, Front(segs, i + 1, end)) == None
  {
    StartsRise(segs, i, i);
    if i + 1 < |segs| {
      StartsRise(segs, i, i + 1);
    }
    BisectIs(segs, segs[i].start, i + 1);
    hide Bisect;
    var p1 := Front(segs, i + 1, end);
    assert BreakEnd(segs, i + 1, p1) == None;
  }

  /** A region without a BREAK gives nothing. */
  lemma OneLess(segs: seq<Seg>, p0: real, edges: seq<real>)
    requires Ordered(segs) && edges != [] && FirstBreakEnd(segs, p0, edges[0]) == None
    ensures Packets(segs, [p0] + edges) == Packets(segs, edges)
  {
    var all := [p0] + edges;
    assert all[1..] == edges && all[0..] == all;
    PacketsStep(segs, all, 0);
  }

  lemma FrontIs(segs: seq<Seg>, i: nat, end: real)
    ensures Front(segs, i, end) == if i < |segs| then segs[i].start else end
  {}

  /** Looking from a boundary finds the BREAK behind it, up to the next boundary. */
  lemma FramedRegion(segs: seq<Seg>, i: nat, g: seq<seq<byte>>, end: real)
    requires i < |segs| && segs[i].level == 1 && GroupAt(segs, i + 1, g) && g != [] && end == Before(segs, |segs|)
    ensures i + 1 < GroupEnd(i + 1, g) <= |segs| && Glued(g) != []
    ensures var p1 := Before(segs, GroupEnd(i + 1, g));
            && FirstBreakEnd(segs, segs[i].start, p1) == Some(segs[i + 1].end)
            && Front(segs, GroupEnd(i + 1, g), end) == p1
  {
    hide *;
    GroupCases(segs, i + 1, g);
    GroupFits(segs, i + 1, g);
    PacketShape(segs, i + 1, g[0]);
    var j := GroupEnd(i + 1, g);
    RegionOrder(segs, i, j);
    BisectIs(segs, segs[i].start, i + 1);
    BreakBehind(segs, i, segs[j - 1].end);
    FrontIs(segs, j, end);
    BeforeIs(segs, j);
    BeforeIs(segs, |segs|);
  }

  lemma BeforeIs(segs: seq<Seg>, j: nat)
    requires 0 < j <= |segs|
    ensures Before(segs, j) == segs[j - 1].end
  {}

  lemma RegionOrder(segs: seq<Seg>, i: nat, j: nat)
    requires Ordered(segs) && i + 1 < j <= |segs|
    ensures segs[i].start < segs[i + 1].start < segs[j - 1].end
    ensures j < |segs| ==> segs[j].start == segs[j - 1].end
    ensures segs[i].end == segs[i + 1].start
  {
    StartsRise(segs, i, i + 1);
    StartsRise(segs, i + 1, j - 1);
  }

  lemma BreakBehind(segs: seq<Seg>, i: nat, p1: real)
    requires i + 1 < |segs| && segs[i].level == 1 && IsBreak(segs[i + 1])
    requires segs[i].start < p1 && segs[i + 1].start < p1 && Bisect(segs, segs[i].start) == i + 1
    ensures FirstBreakEnd(segs, segs[i].start, p1) == Some(segs[i + 1].end)
  {
    hide Bisect;
    assert BreakEnd(segs, i, p1) == BreakEnd(segs, i + 1, p1);
  }

  // ---- from runs to segments ----------------------------------------------------------------------------------

  /** A packet and the tick counts of its runs as captured: BREAK, mark, slots. */
  datatype Captured = Captured(slots: seq<byte>, brk: nat, mab: nat, body: seq<nat>)

  function PacketRuns(c: Captured): (runs: seq<nat>)
    ensures |runs| == 2 + |c.body|
  {
    [c.brk, c.mab] + c.body
  }

  /** The BREAK lasts 16 bit times or more, and every run inside the slots is measured within a
      twentieth of a bit time; the last run may contain any amount of idle time. */
  ghost predicate Measured(c: Captured, ui: real) {
    && c.slots != [] && |c.body| == |SlotLens(c.slots)| && ui > 0.0
    && c.brk < BOUNDARY_RUN && 0 < c.mab < BOUNDARY_RUN && c.brk as real >= BREAK_BITS * ui
    && forall k :: 0 <= k < |c.body| ==> Near(c.body[k], SlotLens(c.slots)[k], ui, k == |c.body| - 1)
  }

  /** A run of n bits was measured within the tolerance; the last one may be longer. */
  predicate Near(t: nat, n: nat, ui: real, last: bool) {
    t < BOUNDARY_RUN && t as real > (n as real - TOL) * ui && (!last ==> t as real < (n as real + TOL) * ui)
  }

  /** From segment i on the axis shows these runs. */
  ghost predicate Shows(segs: seq<Seg>, i: nat, runs: seq<nat>, levels: seq<bit>, ui: real) {
    && ui > 0.0 && |levels| == |runs| && i + |runs| == |segs|
    && forall k :: 0 <= k < |runs| ==>
         && segs[i + k].end - segs[i + k].start == Bits(runs[k], levels[k], ui, ui)
         && segs[i + k].level == if runs[k] >= BOUNDARY_RUN then 1 else levels[k]
  }

  lemma Over(t: real, x: real, ui: real)
    requires ui > 0.0
    ensures (t > x * ui ==> t / ui > x) && (t < x * ui ==> t / ui < x) && (t >= x * ui ==> t / ui >= x)
  {
    var q := t / ui;
    assert t == q * ui;
    if q <= x {
      Monotone(q, x, ui);
    }
    if q >= x {
      Monotone(x, q, ui);
    }
    if q < x {
      Strict(q, x, ui);
    }
  }

  lemma Monotone(a: real, b: real, ui: real)
    requires a <= b && ui > 0.0
    ensures a * ui <= b * ui
  {}

  lemma Strict(a: real, b: real, ui: real)
    requires a < b && ui > 0.0
    ensures a * ui < b * ui
  {}

  /** Levels of a packet's runs: LOW, HIGH, LOW, … and LOW again behind it. */
  lemma {:induction false} LevelsAlternate(a: seq<nat>, rest: seq<nat>, lv: bit)
    requires forall k :: 0 <= k < |a| ==> a[k] < BOUNDARY_RUN
    ensures var l := Levels(a + rest, 1, lv);
            && (forall k :: 0 <= k < |a| ==> l[k] == if k % 2 == 0 then lv else 1 - lv)
            && l[|a|..] == Levels(rest, 1, if |a| % 2 == 0 then lv else 1 - lv)
    decreases |a|
  {
    hide Levels;
    if a == [] {
      assert a + rest == rest;
    } else {
      var more := a[1..] + rest;
      LevelsAlternate(a[1..], rest, 1 - lv);
      LevelsRun(a[0], more, lv);
      assert a + rest == [a[0]] + more;
      var l := Levels(more, 1, 1 - lv);
      assert ([lv] + l)[|a|..] == l[|a| - 1..];
      forall k | 0 <= k < |a|
        ensures ([lv] + l)[k] == if k % 2 == 0 then lv else 1 - lv
      {
        if k > 0 {
          assert ([lv] + l)[k] == l[k - 1];
        }
      }
    }
  }

  lemma LevelsRun(m: nat, rest: seq<nat>, lv: bit)
    requires m < BOUNDARY_RUN
    ensures Levels([m] + rest, 1, lv) == [lv] + Levels(rest, 1, 1 - lv)
  {
    assert ([m] + rest)[1..] == rest;
  }

  lemma LevelsMark(m: nat, rest: seq<nat>, lv: bit)
    requires m >= BOUNDARY_RUN
    ensures Levels([m] + rest, 1, lv) == [1] + Levels(rest, 1, 0)
  {
    assert ([m] + rest)[1..] == rest;
  }

  /** A measured packet, shown from segment i on. */
  lemma PacketShown(segs: seq<Seg>, i: nat, c: Captured, rest: seq<nat>, ui: real)
    requires Ordered(segs) && Measured(c, ui)
    requires Shows(segs, i, PacketRuns(c) + rest, Levels(PacketRuns(c) + rest, 1, 0), ui)
    ensures PacketAt(segs, i, c.slots) && Behind(i, c.slots) == i + |PacketRuns(c)|
    ensures Shows(segs, i + |PacketRuns(c)|, rest, Levels(rest, 1, 0), ui)
  {
    hide *;
    var runs := PacketRuns(c);
    var l := Levels(runs + rest, 1, 0);
    MeasuredRuns(c, ui);
    LevelsAlternate(runs, rest, 0);
    SlotRuns(c.slots);
    ShownDrop(segs, i, runs, rest, l, ui);
    RunsShown(segs, i, c, rest, l, ui);
  }

  lemma MeasuredRuns(c: Captured, ui: real)
    requires Measured(c, ui)
    ensures c.slots != [] && |PacketRuns(c)| % 2 == 0
    ensures forall k :: 0 <= k < |PacketRuns(c)| ==> PacketRuns(c)[k] < BOUNDARY_RUN
  {
    EvenRuns(c.slots);
    hide SlotLens;
  }

  lemma ShownDrop(segs: seq<Seg>, i: nat, a: seq<nat>, rest: seq<nat>, l: seq<bit>, ui: real)
    requires Shows(segs, i, a + rest, l, ui)
    ensures Shows(segs, i + |a|, rest, l[|a|..], ui)
  {
    hide Bits;
    var l' := l[|a|..];
    forall k | 0 <= k < |rest|
      ensures segs[i + |a| + k].end - segs[i + |a| + k].start == Bits(rest[k], l'[k], ui, ui)
      ensures segs[i + |a| + k].level == if rest[k] >= BOUNDARY_RUN then 1 else l'[k]
    {
      var j := |a| + k;
      assert (a + rest)[j] == rest[k] && l'[k] == l[j] && i + |a| + k == i + j;
    }
  }

  /** What one run looks like on the axis. */
  lemma SegmentShown(segs: seq<Seg>, i: nat, runs: seq<nat>, l: seq<bit>, ui: real, k: nat)
    requires Shows(segs, i, runs, l, ui) && k < |runs| && runs[k] < BOUNDARY_RUN
    ensures ui > 0.0 && |l| == |runs| && i + k < |segs| && segs[i + k].level == l[k]
    ensures segs[i + k].end - segs[i + k].start == runs[k] as real / ui
  {}

  lemma RunsShown(segs: seq<Seg>, i: nat, c: Captured, rest: seq<nat>, l: seq<bit>, ui: real)
    requires Ordered(segs) && Measured(c, ui) && Shows(segs, i, PacketRuns(c) + rest, l, ui)
    requires forall k :: 0 <= k < |PacketRuns(c)| ==> l[k] == if k % 2 == 0 then 0 else 1
    requires RunsAre(SlotBits(c.slots), SlotLens(c.slots))
    ensures PacketAt(segs, i, c.slots) && Behind(i, c.slots) == i + |PacketRuns(c)|
  {
    MeasuredEnds(c, ui);
    ShownSize(segs, i, PacketRuns(c) + rest, l, ui);
    EndsShown(segs, i, c, rest, l, ui);
    var lens := SlotLens(c.slots);
    hide SlotLens, SlotBits, RunsAre, Shows, Measured;
    forall k | 0 <= k < |lens|
      ensures segs[i + 2 + k].level == k % 2
      ensures segs[i + 2 + k].end - segs[i + 2 + k].start > lens[k] as real - TOL
      ensures k < |lens| - 1 ==> segs[i + 2 + k].end - segs[i + 2 + k].start < lens[k] as real + TOL
    {
      BodyShown(segs, i, c, rest, l, ui, k);
    }
  }

  lemma EndsShown(segs: seq<Seg>, i: nat, c: Captured, rest: seq<nat>, l: seq<bit>, ui: real)
    requires Measured(c, ui) && Shows(segs, i, PacketRuns(c) + rest, l, ui) && l[0] == 0 && l[1] == 1
    ensures i + 1 < |segs| && IsBreak(segs[i]) && segs[i + 1].level == 1
  {
    hide SlotLens, Shows;
    var runs := PacketRuns(c) + rest;
    assert runs[0] == c.brk && runs[1] == c.mab;
    SegmentShown(segs, i, runs, l, ui, 0);
    SegmentShown(segs, i, runs, l, ui, 1);
    Over(c.brk as real, BREAK_BITS, ui);
  }

  lemma BodyShown(segs: seq<Seg>, i: nat, c: Captured, rest: seq<nat>, l: seq<bit>, ui: real, k: nat)
    requires Measured(c, ui) && Shows(segs, i, PacketRuns(c) + rest, l, ui) && k < |SlotLens(c.slots)| == |c.body|
    requires forall k :: 0 <= k < |PacketRuns(c)| ==> l[k] == if k % 2 == 0 then 0 else 1
    ensures i + 2 + k < |segs| && segs[i + 2 + k].level == k % 2
    ensures segs[i + 2 + k].end - segs[i + 2 + k].start > SlotLens(c.slots)[k] as real - TOL
    ensures k < |c.body| - 1 ==> segs[i + 2 + k].end - segs[i + 2 + k].start < SlotLens(c.slots)[k] as real + TOL
  {
    hide *;
    MeasuredEnds(c, ui);
    MeasuredAt(c, ui, k);
    var n, runs := SlotLens(c.slots)[k], PacketRuns(c) + rest;
    PacketRunsAt(c, k);
    assert runs[2 + k] == c.body[k] && i + 2 + k == i + (2 + k);
    SegmentShown(segs, i, runs, l, ui, 2 + k);
    OverNear(c.body[k], n, ui);
  }

  lemma OverNear(t: nat, n: nat, ui: real)
    requires ui > 0.0
    ensures t as real > (n as real - TOL) * ui ==> t as real / ui > n as real - TOL
    ensures t as real < (n as real + TOL) * ui ==> t as real / ui < n as real + TOL
  {
    Over(t as real, n as real - TOL, ui);
    Over(t as real, n as real + TOL, ui);
    hide *;
  }

  lemma PacketRunsAt(c: Captured, k: nat)
    requires k < |c.body|
    ensures |PacketRuns(c)| == 2 + |c.body| && PacketRuns(c)[2 + k] == c.body[k]
  {}

  lemma MeasuredEnds(c: Captured, ui: real)
    requires Measured(c, ui)
    ensures c.slots != [] && |c.body| == |SlotLens(c.slots)| && ui > 0.0
    ensures c.brk < BOUNDARY_RUN && 0 < c.mab < BOUNDARY_RUN && c.brk as real >= BREAK_BITS * ui
  {
    hide SlotLens;
  }

  lemma MeasuredAt(c: Captured, ui: real, k: nat)
    requires Measured(c, ui) && k < |c.body|
    ensures |c.body| == |SlotLens(c.slots)| && c.body[k] < BOUNDARY_RUN
    ensures c.body[k] as real > (SlotLens(c.slots)[k] as real - TOL) * ui
    ensures k < |c.body| - 1 ==> c.body[k] as real < (SlotLens(c.slots)[k] as real + TOL) * ui
  {
    hide SlotLens;
    assert Near(c.body[k], SlotLens(c.slots)[k], ui, k == |c.body| - 1);
  }

  lemma ShownSize(segs: seq<Seg>, i: nat, runs: seq<nat>, l: seq<bit>, ui: real)
    requires Shows(segs, i, runs, l, ui)
    ensures |l| == |runs| && i + |runs| == |segs|
  {}

  // ---- whole captures -------------------------------------------------------------------------------------------

  function AllRuns(cs: seq<Captured>): seq<nat> {
    if cs == [] then [] else PacketRuns(cs[0]) + AllRuns(cs[1..])
  }

  /** Idle boundaries, and any number of packets behind each. */
  function FramedRuns(xs: seq<seq<Captured>>): seq<nat> {
    if xs == [] then [] else [BOUNDARY_RUN] + (AllRuns(xs[0]) + FramedRuns(xs[1..]))
  }

  function SlotsIn(xs: seq<seq<Captured>>): (groups: seq<seq<seq<byte>>>)
    ensures |groups| == |xs|
  {
    if xs == [] then [] else [AllSlots(xs[0])] + SlotsIn(xs[1..])
  }

  ghost predicate AllMeasured(xs: seq<seq<Captured>>, ui: real) {
    forall g :: g in xs ==> GroupMeasured(g, ui)
  }

  ghost predicate GroupMeasured(g: seq<Captured>, ui: real) {
    forall c :: c in g ==> Measured(c, ui)
  }

  function AllSlots(cs: seq<Captured>): (packets: seq<seq<byte>>)
    ensures |packets| == |cs|
  {
    if cs == [] then [] else [cs[0].slots] + AllSlots(cs[1..])
  }

  lemma {:induction false} StreamShown(segs: seq<Seg>, i: nat, cs: seq<Captured>, ui: real)
    requires Ordered(segs) && forall c :: c in cs ==> Measured(c, ui)
    requires Shows(segs, i, AllRuns(cs), Levels(AllRuns(cs), 1, 0), ui)
    ensures Stream(segs, i, AllSlots(cs))
    decreases |cs|
  {
    hide Levels, PacketAt, Measured, Behind;
    if cs == [] {
      ShownSize(segs, i, [], Levels([], 1, 0), ui);
    } else {
      var c, rest := cs[0], cs[1..];
      assert c in cs && forall x :: x in rest ==> x in cs;
      assert AllRuns(cs) == PacketRuns(c) + AllRuns(rest);
      PacketShown(segs, i, c, AllRuns(rest), ui);
      StreamShown(segs, i + |PacketRuns(c)|, rest, ui);
      assert AllSlots(cs) == [c.slots] + AllSlots(rest) && AllSlots(cs)[1..] == AllSlots(rest);
    }
  }

  /** Where the boundaries of a framed capture are. */
  function MarksAt(segs: seq<Seg>, i: nat, xs: seq<seq<Captured>>): seq<real>
    decreases |xs|
  {
    if xs == [] || i >= |segs| then []
    else [segs[i].start] + MarksAt(segs, i + 1 + |AllRuns(xs[0])|, xs[1..])
  }

  lemma {:induction false} GroupShown(segs: seq<Seg>, i: nat, g: seq<Captured>, rest: seq<nat>, ui: real)
    requires Ordered(segs) && GroupMeasured(g, ui)
    requires Shows(segs, i, AllRuns(g) + rest, Levels(AllRuns(g) + rest, 1, 0), ui)
    ensures GroupAt(segs, i, AllSlots(g)) && GroupEnd(i, AllSlots(g)) == i + |AllRuns(g)|
    ensures Shows(segs, i + |AllRuns(g)|, rest, Levels(rest, 1, 0), ui)
    decreases |g|
  {
    hide Levels, PacketAt, Measured, Behind, PacketRuns, Shows;
    if g == [] {
      assert AllRuns(g) + rest == rest;
    } else {
      var c, later := g[0], g[1..];
      assert c in g && forall x :: x in later ==> x in g;
      var more := AllRuns(later) + rest;
      assert AllRuns(g) + rest == PacketRuns(c) + more;
      PacketShown(segs, i, c, more, ui);
      GroupShown(segs, i + |PacketRuns(c)|, later, rest, ui);
      assert AllSlots(g)[1..] == AllSlots(later);
    }
  }

  lemma {:induction false} FramedShown(segs: seq<Seg>, i: nat, xs: seq<seq<Captured>>, ui: real)
    requires Ordered(segs) && AllMeasured(xs, ui)
    requires Shows(segs, i, FramedRuns(xs), Levels(FramedRuns(xs), 1, 0), ui)
    ensures Framed(segs, i, SlotsIn(xs), MarksAt(segs, i, xs))
    decreases |xs|
  {
    hide *;
    FramedRunsCases(xs, ui);
    if xs == [] {
      ShownSize(segs, i, [], Levels([], 1, 0), ui);
      NoMarks(segs, i);
    } else {
      var behind := FramedRuns(xs[1..]);
      var more := AllRuns(xs[0]) + behind;
      LevelsMark(BOUNDARY_RUN, more, 0);
      MarkShown(segs, i, more, Levels(more, 1, 0), ui);
      GroupShown(segs, i + 1, xs[0], behind, ui);
      FramedShown(segs, i + 1 + |AllRuns(xs[0])|, xs[1..], ui);
      FramedOne(segs, i, xs);
    }
  }

  lemma NoMarks(segs: seq<Seg>, i: nat)
    requires i == |segs|
    ensures Framed(segs, i, SlotsIn([]), MarksAt(segs, i, []))
  {}

  lemma FramedRunsCases(xs: seq<seq<Captured>>, ui: real)
    ensures xs == [] ==> FramedRuns(xs) == []
    ensures xs != [] ==>
              && FramedRuns(xs) == [BOUNDARY_RUN] + (AllRuns(xs[0]) + FramedRuns(xs[1..]))
              && (AllMeasured(xs, ui) ==> AllMeasured(xs[1..], ui) && GroupMeasured(xs[0], ui))
  {
    hide AllRuns, GroupMeasured;
  }

  lemma {:induction false} FramedOne(segs: seq<Seg>, i: nat, xs: seq<seq<Captured>>)
    requires xs != [] && i < |segs| && segs[i].level == 1
    requires GroupAt(segs, i + 1, AllSlots(xs[0])) && GroupEnd(i + 1, AllSlots(xs[0])) == i + 1 + |AllRuns(xs[0])|
    requires var j := i + 1 + |AllRuns(xs[0])|; Framed(segs, j, SlotsIn(xs[1..]), MarksAt(segs, j, xs[1..]))
    ensures Framed(segs, i, SlotsIn(xs), MarksAt(segs, i, xs))
  {
    hide *;
    MarksCons(segs, i, xs);
    SlotsCons(xs);
    FramedCons(segs, i, AllSlots(xs[0]), SlotsIn(xs[1..]), MarksAt(segs, i + 1 + |AllRuns(xs[0])|, xs[1..]));
  }

  lemma SlotsCons(xs: seq<seq<Captured>>)
    requires xs != []
    ensures SlotsIn(xs) == [AllSlots(xs[0])] + SlotsIn(xs[1..])
  {}

  lemma {:induction false} FramedCons(segs: seq<Seg>, i: nat, g: seq<seq<byte>>, groups: seq<seq<seq<byte>>>,
                                      bounds: seq<real>)
    requires i < |segs| && segs[i].level == 1
    requires GroupAt(segs, i + 1, g) && Framed(segs, GroupEnd(i + 1, g), groups, bounds)
    ensures Framed(segs, i, [g] + groups, [segs[i].start] + bounds)
  {
    hide GroupAt, GroupEnd;
    assert ([g] + groups)[1..] == groups && ([segs[i].start] + bounds)[1..] == bounds;
  }

  lemma MarkShown(segs: seq<Seg>, i: nat, more: seq<nat>, l: seq<bit>, ui: real)
    requires Shows(segs, i, [BOUNDARY_RUN] + more, [1] + l, ui)
    ensures i < |segs| && segs[i].level == 1 && Shows(segs, i + 1, more, l, ui)
  {
    assert ([BOUNDARY_RUN] + more)[0] == BOUNDARY_RUN && segs[i + 0].level == 1;
    assert ([1] + l)[1..] == l;
    ShownDrop(segs, i, [BOUNDARY_RUN], more, [1] + l, ui);
  }

  lemma LaidCons(runs: seq<nat>, levels: seq<bit>, ui: real, pos: real)
    requires |levels| == |runs| > 0 && ui > 0.0 && Bits(runs[0], levels[0], ui, ui) > 0.0
    ensures var mark, dur := runs[0] >= BOUNDARY_RUN, Bits(runs[0], levels[0], ui, ui);
            var rest := Laid(runs[1..], levels[1..], ui, ui, pos + dur);
            Laid(runs, levels, ui, ui, pos) ==
            Timeline([Seg(pos, pos + dur, if mark then 1 else levels[0])] + rest.segs,
                     (if mark then [pos] else []) + rest.bounds, rest.end)
  {
    hide Bits;
  }

  lemma LongEnough(run: nat, level: bit, ui: real)
    requires run > 0 && ui > 0.0
    ensures Bits(run, level, ui, ui) > 0.0
  {
    Over(run as real, 0.0, ui);
  }

  /** Non-empty runs each leave one segment. */
  lemma {:induction false} LaidShows(runs: seq<nat>, levels: seq<bit>, ui: real, pos: real)
    requires |levels| == |runs| && ui > 0.0 && forall k :: 0 <= k < |runs| ==> runs[k] > 0
    ensures var tl := Laid(runs, levels, ui, ui, pos);
            Shows(tl.segs, 0, runs, levels, ui) && tl.end == (if runs == [] then pos else Before(tl.segs, |tl.segs|))
    decreases |runs|
  {
    hide Bits, Laid;
    if runs == [] {
      LaidEnd(runs, levels, ui, ui, pos);
    } else {
      LongEnough(runs[0], levels[0], ui);
      LaidCons(runs, levels, ui, pos);
      var dur := Bits(runs[0], levels[0], ui, ui);
      LaidShows(runs[1..], levels[1..], ui, pos + dur);
      var segs, later := Laid(runs, levels, ui, ui, pos).segs, Laid(runs[1..], levels[1..], ui, ui, pos + dur).segs;
      hide Shows;
      ShowsCons(segs[0], later, runs, levels, ui);
    }
  }

  lemma ShowsCons(first: Seg, later: seq<Seg>, runs: seq<nat>, levels: seq<bit>, ui: real)
    requires |levels| == |runs| > 0 && ui > 0.0 && Shows(later, 0, runs[1..], levels[1..], ui)
    requires first.end - first.start == Bits(runs[0], levels[0], ui, ui)
    requires first.level == if runs[0] >= BOUNDARY_RUN then 1 else levels[0]
    ensures Shows([first] + later, 0, runs, levels, ui)
  {
    hide Bits;
    var segs := [first] + later;
    forall k | 0 <= k < |runs|
      ensures segs[0 + k].end - segs[0 + k].start == Bits(runs[k], levels[k], ui, ui)
      ensures segs[0 + k].level == if runs[k] >= BOUNDARY_RUN then 1 else levels[k]
    {
      if k > 0 {
        assert segs[k] == later[0 + (k - 1)] && runs[k] == runs[1..][k - 1] && levels[k] == levels[1..][k - 1];
      }
    }
  }

  lemma {:induction false} LaidConcat(a: seq<nat>, la: seq<bit>, b: seq<nat>, lb: seq<bit>, ui: real, pos: real)
    requires |la| == |a| && |lb| == |b| && ui > 0.0 && forall k :: 0 <= k < |a| ==> a[k] < BOUNDARY_RUN
    ensures var first := Laid(a, la, ui, ui, pos);
            var later := Laid(b, lb, ui, ui, first.end);
            Laid(a + b, la + lb, ui, ui, pos) == Timeline(first.segs + later.segs, later.bounds, later.end)
    decreases |a|
  {
    hide Bits;
    if a == [] {
      assert a + b == b && la + lb == lb;
      assert [] + Laid(b, lb, ui, ui, pos).segs == Laid(b, lb, ui, ui, pos).segs;
    } else {
      var dur := Bits(a[0], la[0], ui, ui);
      var next := if dur <= 0.0 then pos else pos + dur;
      LaidConcat(a[1..], la[1..], b, lb, ui, next);
      assert (a + b)[1..] == a[1..] + b && (la + lb)[1..] == la[1..] + lb;
      var head := if dur <= 0.0 then [] else [Seg(pos, pos + dur, la[0])];
      var first := Laid(a[1..], la[1..], ui, ui, next);
      AssocSeq(head, first.segs, Laid(b, lb, ui, ui, first.end).segs);
    }
  }

  lemma MeasuredPositive(c: Captured, ui: real)
    requires Measured(c, ui)
    ensures forall k :: 0 <= k < |PacketRuns(c)| ==> PacketRuns(c)[k] > 0
  {
    hide *;
    MeasuredEnds(c, ui);
    LensPositive(c.slots);
    BreakPositive(c.brk, ui);
    forall k | 0 <= k < |c.body|
      ensures c.body[k] > 0
    {
      MeasuredAt(c, ui, k);
      PositiveRun(c.body[k], SlotLens(c.slots)[k], ui);
    }
    PacketRunsEach(c);
  }

  lemma LensPositive(slots: seq<byte>)
    requires slots != []
    ensures forall k :: 0 <= k < |SlotLens(slots)| ==> SlotLens(slots)[k] >= 1
  {
    SlotRuns(slots);
    hide SlotLens;
  }

  lemma BreakPositive(brk: nat, ui: real)
    requires ui > 0.0 && brk as real >= BREAK_BITS * ui
    ensures brk > 0
  {
    PositiveProduct(BREAK_BITS, ui);
  }

  lemma PacketRunsEach(c: Captured)
    requires c.brk > 0 && c.mab > 0 && forall k :: 0 <= k < |c.body| ==> c.body[k] > 0
    ensures forall k :: 0 <= k < |PacketRuns(c)| ==> PacketRuns(c)[k] > 0
  {}

  lemma PositiveRun(t: nat, n: nat, ui: real)
    requires n >= 1 && ui > 0.0 && t as real > (n as real - TOL) * ui
    ensures t > 0
  {
    PositiveProduct(n as real - TOL, ui);
  }

  lemma PositiveProduct(x: real, ui: real)
    requires x > 0.0 && ui > 0.0
    ensures x * ui > 0.0
  {}

  lemma {:induction false} AllPositive(cs: seq<Captured>, ui: real)
    requires forall c :: c in cs ==> Measured(c, ui)
    ensures forall k :: 0 <= k < |AllRuns(cs)| ==> AllRuns(cs)[k] > 0
    ensures forall k :: 0 <= k < |AllRuns(cs)| ==> AllRuns(cs)[k] < BOUNDARY_RUN
    decreases |cs|
  {
    hide Measured, PacketRuns;
    if cs != [] {
      var c, rest := cs[0], cs[1..];
      assert c in cs && forall x :: x in rest ==> x in cs;
      MeasuredPositive(c, ui);
      MeasuredRuns(c, ui);
      AllPositive(rest, ui);
    }
  }

  lemma {:induction false} FramedPositive(xs: seq<seq<Captured>>, ui: real)
    requires AllMeasured(xs, ui)
    ensures forall k :: 0 <= k < |FramedRuns(xs)| ==> FramedRuns(xs)[k] > 0
    decreases |xs|
  {
    FramedRunsCases(xs, ui);
    hide FramedRuns, AllRuns, AllMeasured;
    if xs != [] {
      AllPositive(xs[0], ui);
      FramedPositive(xs[1..], ui);
    }
  }

  // ---- main results ---------------------------------------------------------------------------------------------

  /** No boundaries: the capture is cut at its BREAKs. */
  lemma DecodeMeasured(lead: nat, cs: seq<Captured>, ui: real)
    requires ui > 0.0 && 0 < lead < BOUNDARY_RUN && forall c :: c in cs ==> Measured(c, ui)
    ensures DecodedWith([lead] + AllRuns(cs), ui, true) == (AllSlots(cs), Zeros(|cs|))
  {
    hide *;
    var runs := [lead] + AllRuns(cs);
    var levels := Levels(runs, 1, 1);
    AllPositive(cs, ui);
    var tl := Laid(runs, levels, ui, ui, 0.0);
    LaidIsOrdered(runs, levels, ui, ui, 0.0);
    LaidShows(runs, levels, ui, 0.0);
    LevelsAlternate([lead], AllRuns(cs), 1);
    ShownDrop(tl.segs, 0, [lead], AllRuns(cs), levels, ui);
    StreamShown(tl.segs, 1, cs, ui);
    ShownSize(tl.segs, 0, runs, levels, ui);
    SegmentShown(tl.segs, 0, runs, levels, ui, 0);
    StreamDecodes(tl.segs, 1, AllSlots(cs), tl.end);
    LaidUnmarked(runs, levels, ui, 0.0);
    EdgesUnmarked(tl);
    DecodedIs(runs, ui);
  }

  /** The fallback for inverted wiring starts with LOW: a capture that begins with a BREAK, with no idle line in
      front, decodes there as one with an idle line does otherwise. */
  lemma DecodeInverted(cs: seq<Captured>, ui: real)
    requires ui > 0.0 && cs != [] && forall c :: c in cs ==> Measured(c, ui)
    ensures DecodedWith(AllRuns(cs), ui, false) == (AllSlots(cs), Zeros(|cs|))
  {
    hide *;
    var runs := AllRuns(cs);
    AllPositive(cs, ui);
    LevelsUnmarked(runs, 0);
    var levels := Levels(runs, 1, 0);
    var tl := Laid(runs, levels, ui, ui, 0.0);
    LaidIsOrdered(runs, levels, ui, ui, 0.0);
    LaidShows(runs, levels, ui, 0.0);
    StreamShown(tl.segs, 0, cs, ui);
    ShownSize(tl.segs, 0, runs, levels, ui);
    SomeRuns(cs);
    SegmentShown(tl.segs, 0, runs, levels, ui, 0);
    StreamDecodes(tl.segs, 0, AllSlots(cs), tl.end);
    LaidUnmarked(runs, levels, ui, 0.0);
    EdgesAll(tl);
    InvertedIs(runs, ui);
  }

  lemma SomeRuns(cs: seq<Captured>)
    requires cs != []
    ensures AllRuns(cs) != []
  {}

  lemma {:induction false} LevelsUnmarked(runs: seq<nat>, lv: bit)
    requires forall k :: 0 <= k < |runs| ==> runs[k] < BOUNDARY_RUN
    ensures Levels(runs, 0, lv) == Levels(runs, 1, lv)
    decreases |runs|
  {
    if runs != [] {
      LevelsUnmarked(runs[1..], 1 - lv);
    }
  }

  lemma EdgesAll(tl: Timeline)
    requires tl.bounds == []
    ensures Edges(tl) == Cuts(tl.segs, 0, tl.end)
  {}

  lemma InvertedIs(runs: seq<nat>, ui: real)
    requires ui > 0.0
    ensures var tl := Laid(runs, Levels(runs, 0, 0), ui, ui, 0.0);
            Ordered(tl.segs) && DecodedWith(runs, ui, false) == Packets(tl.segs, Edges(tl))
  {
    hide Laid, Levels, Packets, Edges, Ordered;
    LaidIsOrdered(runs, Levels(runs, 0, 0), ui, ui, 0.0);
  }

  lemma DecodedIs(runs: seq<nat>, ui: real)
    requires ui > 0.0
    ensures var tl := Laid(runs, Levels(runs, 1, 1), ui, ui, 0.0);
            Ordered(tl.segs) && DecodedWith(runs, ui, true) == Packets(tl.segs, Edges(tl))
  {
    hide Laid, Levels, Packets, Edges, Ordered;
    LaidIsOrdered(runs, Levels(runs, 1, 1), ui, ui, 0.0);
  }

  lemma {:induction false} LaidUnmarked(runs: seq<nat>, levels: seq<bit>, ui: real, pos: real)
    requires |levels| == |runs| && ui > 0.0 && forall k :: 0 <= k < |runs| ==> runs[k] < BOUNDARY_RUN
    ensures Laid(runs, levels, ui, ui, pos).bounds == []
    decreases |runs|
  {
    hide Bits;
    if runs != [] {
      var dur := Bits(runs[0], levels[0], ui, ui);
      LaidUnmarked(runs[1..], levels[1..], ui, if dur <= 0.0 then pos else pos + dur);
    }
  }

  /** The first segment is idle, so the cuts are those behind it. */
  lemma EdgesUnmarked(tl: Timeline)
    requires tl.bounds == [] && tl.segs != [] && tl.segs[0].level == 1
    ensures Edges(tl) == Cuts(tl.segs, 1, tl.end)
  {
    BreaksStep(tl.segs, 0);
  }

  /** With the firmware's boundaries: whatever the capture starts with, and however often a boundary is
      repeated, the packets behind a boundary are read, each group as one. A packet alone behind its
      boundary comes out as it was, without an error. */
  lemma DecodeFramed(prefix: seq<nat>, xs: seq<seq<Captured>>, ui: real)
    requires ui > 0.0 && xs != [] && AllMeasured(xs, ui)
    requires forall k :: 0 <= k < |prefix| ==> prefix[k] < BOUNDARY_RUN
    ensures DecodedWith(prefix + FramedRuns(xs), ui, true) == (Heard(SlotsIn(xs)), Glitches(SlotsIn(xs)))
  {
    hide *;
    var more := FramedRuns(xs);
    var runs := prefix + more;
    var tl := Laid(runs, Levels(runs, 1, 1), ui, ui, 0.0);
    FramedPositive(xs, ui);
    FramedRunsCases(xs, ui);
    MarkIsMark();
    var i, pos := FramedLaid(prefix, more, ui);
    LaidIsOrdered(runs, Levels(runs, 1, 1), ui, ui, 0.0);
    FramedShown(tl.segs, i, xs, ui);
    LaidMarks(tl.segs, i, xs, ui, pos);
    ShownSize(tl.segs, i, more, Levels(more, 1, 0), ui);
    FramedDecodes(tl.segs, i, SlotsIn(xs), tl.bounds, tl.end);
    MarksCons(tl.segs, i, xs);
    EdgesMarked(tl);
    DecodedIs(runs, ui);
  }

  lemma MarkIsMark()
    ensures BOUNDARY_RUN >= BOUNDARY_RUN
  {}

  /** Behind the prefix the line starts over at the first boundary. */
  lemma FramedLevels(prefix: seq<nat>, more: seq<nat>)
    requires forall k :: 0 <= k < |prefix| ==> prefix[k] < BOUNDARY_RUN
    requires more != [] && more[0] >= BOUNDARY_RUN
    ensures Levels(prefix + more, 1, 1)[|prefix|..] == Levels(more, 1, 0)
  {
    hide *;
    LevelsAlternate(prefix, more, 1);
    assert more == [more[0]] + more[1..];
    LevelsMark(more[0], more[1..], if |prefix| % 2 == 0 then 1 else 0);
    LevelsMark(more[0], more[1..], 0);
  }

  lemma FramedLaid(prefix: seq<nat>, more: seq<nat>, ui: real) returns (i: nat, pos: real)
    requires ui > 0.0 && forall k :: 0 <= k < |prefix| ==> prefix[k] < BOUNDARY_RUN
    requires more != [] && more[0] >= BOUNDARY_RUN && forall k :: 0 <= k < |more| ==> more[k] > 0
    ensures var tl := Laid(prefix + more, Levels(prefix + more, 1, 1), ui, ui, 0.0);
            var later := Laid(more, Levels(more, 1, 0), ui, ui, pos);
            && i < |tl.segs| && tl.segs[i..] == later.segs && tl.bounds == later.bounds
            && Shows(tl.segs, i, more, Levels(more, 1, 0), ui) && tl.end == Before(tl.segs, |tl.segs|)
  {
    hide *;
    var levels := Levels(prefix + more, 1, 1);
    var la, lb := levels[..|prefix|], levels[|prefix|..];
    FramedLevels(prefix, more);
    assert la + lb == levels;
    var first := Laid(prefix, la, ui, ui, 0.0);
    i, pos := |first.segs|, first.end;
    var later := Laid(more, lb, ui, ui, pos);
    LaidConcat(prefix, la, more, lb, ui, 0.0);
    LaidShows(more, lb, ui, pos);
    ShownSize(later.segs, 0, more, lb, ui);
    ShowsBehind(first.segs, later.segs, more, lb, ui);
    EndOf(first.segs, later.segs);
    assert (first.segs + later.segs)[i..] == later.segs;
  }

  lemma EndOf(a: seq<Seg>, b: seq<Seg>)
    requires b != []
    ensures Before(a + b, |a + b|) == Before(b, |b|)
  {}

  lemma EdgesMarked(tl: Timeline)
    requires tl.bounds != []
    ensures Edges(tl) == tl.bounds + [tl.end]
  {}

  lemma ShowsBehind(a: seq<Seg>, b: seq<Seg>, runs: seq<nat>, levels: seq<bit>, ui: real)
    requires Shows(b, 0, runs, levels, ui)
    ensures Shows(a + b, |a|, runs, levels, ui)
  {
    hide Bits;
    forall k | 0 <= k < |runs|
      ensures (a + b)[|a| + k].end - (a + b)[|a| + k].start == Bits(runs[k], levels[k], ui, ui)
      ensures (a + b)[|a| + k].level == if runs[k] >= BOUNDARY_RUN then 1 else levels[k]
    {
      assert (a + b)[|a| + k] == b[0 + k];
    }
  }

  /** The boundaries the timeline notes are the starts of the mark segments. */
  lemma {:induction false} LaidMarks(segs: seq<Seg>, i: nat, xs: seq<seq<Captured>>, ui: real, pos: real)
    requires ui > 0.0 && AllMeasured(xs, ui)
    requires var runs := FramedRuns(xs);
             i <= |segs| && segs[i..] == Laid(runs, Levels(runs, 1, 0), ui, ui, pos).segs
    ensures var runs := FramedRuns(xs);
            Laid(runs, Levels(runs, 1, 0), ui, ui, pos).bounds == MarksAt(segs, i, xs)
    decreases |xs|
  {
    FramedRunsCases(xs, ui);
    hide Laid, Levels, Measured, Bits, FramedRuns, PacketRuns, MarksAt, AllRuns, AllMeasured, GroupMeasured;
    if xs == [] {
      LevelsEnd(1, 0);
      LaidEnd([], Levels([], 1, 0), ui, ui, pos);
      MarksEnd(segs, i);
    } else {
      var rest := xs[1..];
      var packets, behind := AllRuns(xs[0]), FramedRuns(rest);
      var more := packets + behind;
      assert ([BOUNDARY_RUN] + more)[1..] == more;
      LevelsMark(BOUNDARY_RUN, more, 0);
      GroupLevels(xs[0], behind, ui);
      var l := Levels(more, 1, 0);
      assert ([1] + l)[1..] == l && l[..|packets|] + l[|packets|..] == l;
      LongEnough(BOUNDARY_RUN, 1, ui);
      LaidCons(FramedRuns(xs), [1] + l, ui, pos);
      var pos' := pos + Bits(BOUNDARY_RUN, 1, ui, ui);
      LaidConcat(packets, l[..|packets|], behind, l[|packets|..], ui, pos');
      var first := Laid(packets, l[..|packets|], ui, ui, pos');
      LaidShows(packets, l[..|packets|], ui, pos');
      ShownSize(first.segs, 0, packets, l[..|packets|], ui);
      SuffixOf(segs, i, first.segs, Laid(behind, Levels(behind, 1, 0), ui, ui, first.end).segs, pos);
      LaidMarks(segs, i + 1 + |packets|, rest, ui, first.end);
      MarksCons(segs, i, xs);
    }
  }

  /** Packets take an even number of runs, so the line is LOW again behind them. */
  lemma GroupLevels(g: seq<Captured>, behind: seq<nat>, ui: real)
    requires GroupMeasured(g, ui)
    ensures var packets := AllRuns(g);
            && (forall k :: 0 <= k < |packets| ==> 0 < packets[k] < BOUNDARY_RUN)
            && |Levels(packets + behind, 1, 0)| == |packets| + |behind|
            && Levels(packets + behind, 1, 0)[|packets|..] == Levels(behind, 1, 0)
  {
    AllPositive(g, ui);
    EvenPackets(g, ui);
    hide Levels, Measured, AllRuns;
    LevelsAlternate(AllRuns(g), behind, 0);
  }

  lemma {:induction false} EvenPackets(g: seq<Captured>, ui: real)
    requires GroupMeasured(g, ui)
    ensures |AllRuns(g)| % 2 == 0
    decreases |g|
  {
    hide Measured, PacketRuns;
    if g != [] {
      assert g[0] in g && forall x :: x in g[1..] ==> x in g;
      MeasuredRuns(g[0], ui);
      EvenPackets(g[1..], ui);
    }
  }

  lemma MarksEnd(segs: seq<Seg>, i: nat)
    ensures MarksAt(segs, i, []) == []
  {}

  lemma MarksCons(segs: seq<Seg>, i: nat, xs: seq<seq<Captured>>)
    requires xs != [] && i < |segs|
    ensures MarksAt(segs, i, xs) == [segs[i].start] + MarksAt(segs, i + 1 + |AllRuns(xs[0])|, xs[1..])
  {}

  lemma SuffixOf(segs: seq<Seg>, i: nat, a: seq<Seg>, b: seq<Seg>, pos: real)
    requires i < |segs| && segs[i].start == pos && segs[i..] == [segs[i]] + (a + b)
    ensures i + 1 + |a| <= |segs| && segs[i + 1 + |a|..] == b
  {
    assert segs[i..][1 + |a|..] == b;
  }
}
