/** The run-length path as a whole for DMX: from the samples of the data pin, through the capture
    program, the interrupt, the squelch and the host's run reconstruction, to packets. */
module RleToDmx {
  import opened Bytes
  import opened Cobs
  import opened RunCodec
  import opened Squelch
  import opened RleWire
  import opened RleSniffer
  import opened DmxTimeline
  import opened DmxDecode
  import opened DmxStream

  /** The packet as the host sees it: the idle line behind it cut short at its boundary. */
  function Cut(k: nat, c: Captured): Captured
    requires k > 0
  {
    if c.body == [] then c else c.(body := c.body[..|c.body| - 1] + [CAP * (k - 1)])
  }

  /** Only the run behind the last slot may last long enough to be taken for an idle line. */
  predicate Spaced(k: nat, c: Captured) {
    var n := |c.body| - 1;
    && n >= 0 && c.brk / CAP < k && c.mab / CAP < k && forall i :: 0 <= i < n ==> c.body[i] / CAP < k
  }

  /** It does. */
  predicate Idle(k: nat, c: Captured) { c.body != [] && c.body[|c.body| - 1] / CAP >= k }

  /** The packets between two idle lines; `open` are those since the last one. */
  function Grouped(k: nat, open: seq<Captured>, cs: seq<Captured>): (gs: seq<seq<Captured>>)
    requires k > 0
    ensures gs != []
    decreases |cs|
  {
    if cs == [] then [open]
    else if Idle(k, cs[0]) then [open + [Cut(k, cs[0])]] + Grouped(k, [], cs[1..])
    else Grouped(k, open + [cs[0]], cs[1..])
  }

  lemma SquelchedPacket(k: nat, c: Captured, rest: seq<nat>)
    requires k > 1 && Spaced(k, c) && Idle(k, c)
    ensures SquelchedRuns(k, PacketRuns(c) + rest) ==
            PacketRuns(Cut(k, c)) + ([BOUNDARY_RUN] + SquelchedRuns(k, rest))
  {
    var n := |c.body| - 1;
    var front, last := [c.brk, c.mab] + c.body[..n], c.body[n];
    assert PacketRuns(c) + rest == front + ([last] + rest) && ([last] + rest)[1..] == rest;
    ShortRuns(k, front, [last] + rest);
    assert SquelchedRun(k, last) == [CAP * (k - 1)] + [BOUNDARY_RUN];
    assert PacketRuns(Cut(k, c)) == front + [CAP * (k - 1)];
  }

  lemma PassedPacket(k: nat, c: Captured, rest: seq<nat>)
    requires Spaced(k, c) && !Idle(k, c)
    ensures SquelchedRuns(k, PacketRuns(c) + rest) == PacketRuns(c) + SquelchedRuns(k, rest)
  {
    ShortRuns(k, PacketRuns(c), rest);
  }

  lemma {:induction false} RunsSnoc(open: seq<Captured>, c: Captured)
    ensures AllRuns(open + [c]) == AllRuns(open) + PacketRuns(c)
  {
    hide PacketRuns;
    if open == [] {
      assert AllRuns([c]) == PacketRuns(c) + AllRuns([]);
      assert open + [c] == [c];
    } else {
      RunsSnoc(open[1..], c);
      assert (open + [c])[1..] == open[1..] + [c];
    }
  }

  /** The squelch puts a boundary in front of each group. */
  lemma {:induction false} SquelchedGroups(k: nat, open: seq<Captured>, cs: seq<Captured>)
    requires k > 1 && forall c :: c in cs ==> Spaced(k, c)
    ensures [BOUNDARY_RUN] + (AllRuns(open) + SquelchedRuns(k, AllRuns(cs))) == FramedRuns(Grouped(k, open, cs))
    decreases |cs|
  {
    hide PacketRuns, Cut, Spaced, SquelchedRun, Idle, AllRuns;
    if cs == [] {
      NoRuns(k);
      FramedAdd(open, [], 1.0);
      assert [open] + [] == [open];
    } else {
      var c, rest := cs[0], cs[1..];
      assert c in cs && forall x :: x in rest ==> x in cs;
      RunsCons(cs);
      if Idle(k, c) {
        SquelchedGroups(k, [], rest);
        SquelchedPacket(k, c, AllRuns(rest));
        NoRuns(k);
        assert [] + SquelchedRuns(k, AllRuns(rest)) == SquelchedRuns(k, AllRuns(rest));
        RunsSnoc(open, Cut(k, c));
        FramedAdd(open + [Cut(k, c)], Grouped(k, [], rest), 1.0);
        AssocRuns(AllRuns(open), PacketRuns(Cut(k, c)), FramedRuns(Grouped(k, [], rest)));
      } else {
        SquelchedGroups(k, open + [c], rest);
        PassedPacket(k, c, AllRuns(rest));
        RunsSnoc(open, c);
        AssocRuns(AllRuns(open), PacketRuns(c), SquelchedRuns(k, AllRuns(rest)));
      }
    }
  }

  lemma NoRuns(k: nat)
    ensures AllRuns([]) == [] && SquelchedRuns(k, []) == [] && FramedRuns([]) == []
    ensures forall r: seq<nat> :: r + [] == r
  {}

  lemma RunsCons(cs: seq<Captured>)
    requires cs != []
    ensures AllRuns(cs) == PacketRuns(cs[0]) + AllRuns(cs[1..])
  {}

  lemma {:induction false} GroupsMeasured(k: nat, open: seq<Captured>, cs: seq<Captured>, ui: real)
    requires k > 0 && GroupMeasured(open, ui)
    requires forall c :: c in cs ==> Measured(if Idle(k, c) then Cut(k, c) else c, ui)
    ensures AllMeasured(Grouped(k, open, cs), ui)
    decreases |cs|
  {
    hide Measured, Cut, Idle;
    if cs != [] {
      assert cs[0] in cs && forall x :: x in cs[1..] ==> x in cs;
      GroupsMeasured(k, if Idle(k, cs[0]) then [] else open + [cs[0]], cs[1..], ui);
    }
  }

  /** With an idle line behind every packet, each is a group of its own. */
  lemma {:induction false} AloneHeard(k: nat, cs: seq<Captured>)
    requires k > 0 && forall c :: c in cs ==> Idle(k, c) && c.slots != []
    ensures Heard(SlotsIn(Grouped(k, [], cs))) == AllSlots(cs) && Glitches(SlotsIn(Grouped(k, [], cs))) == Zeros(|cs|)
    decreases |cs|
  {
    hide Idle, Cut;
    if cs == [] {
      FramedAdd([], [], 1.0);
      assert Grouped(k, [], cs) == [[]] + [] && Zeros(0) == [];
    } else {
      var c, rest := cs[0], cs[1..];
      assert c in cs && forall x :: x in rest ==> x in cs;
      AloneHeard(k, rest);
      SlotsKept(k, c);
      assert [] + [Cut(k, c)] == [Cut(k, c)];
      assert AllSlots([Cut(k, c)]) == [c.slots] && Glued([c.slots]) == c.slots;
      FramedAdd([Cut(k, c)], Grouped(k, [], rest), 1.0);
      ZerosCons(|cs|);
    }
  }

  lemma SlotsKept(k: nat, c: Captured)
    requires k > 0
    ensures Cut(k, c).slots == c.slots
  {}

  // ---- boundaries repeated -----------------------------------------------------------------------

  /** Nothing can be repeated inside a stretch without boundaries. */
  lemma {:induction false} ThickPlain(p: seq<nat>, a: seq<nat>, b: seq<nat>) returns (b': seq<nat>)
    requires Thick(p + a, b, false) && forall k :: 0 <= k < |p| ==> p[k] < BOUNDARY_RUN
    ensures b == p + b' && Thick(a, b', false)
    decreases |p|
  {
    if p == [] {
      assert p + a == a;
      b' := b;
    } else {
      assert (p + a)[1..] == p[1..] + a;
      b' := ThickPlain(p[1..], a, b[1..]);
    }
  }

  lemma ThickClosed(a: seq<nat>, b: seq<nat>)
    requires Thick(a, b, true)
    ensures Thick(a, b, false) || (b != [] && b[0] == BOUNDARY_RUN && Thick(a, b[1..], true))
  {}

  /** A group in front. */
  lemma FramedAdd(g: seq<Captured>, xs: seq<seq<Captured>>, ui: real)
    ensures FramedRuns([g] + xs) == [BOUNDARY_RUN] + (AllRuns(g) + FramedRuns(xs))
    ensures var later := SlotsIn(xs);
            && Heard(SlotsIn([g] + xs)) == (if g == [] then [] else [Glued(AllSlots(g))]) + Heard(later)
            && Glitches(SlotsIn([g] + xs)) == (if g == [] then [] else [|g| - 1]) + Glitches(later)
    ensures GroupMeasured(g, ui) && AllMeasured(xs, ui) <==> AllMeasured([g] + xs, ui)
  {
    hide GroupMeasured, AllRuns, Glued;
    assert ([g] + xs)[1..] == xs && g in [g] + xs;
    HeardCons(AllSlots(g), SlotsIn(xs));
    assert AllSlots(g) == [] <==> g == [];
  }

  /** Further boundaries are boundaries without a packet. */
  lemma {:induction false} ThickFramed(xs: seq<seq<Captured>>, b: seq<nat>, ui: real)
    returns (ys: seq<seq<Captured>>)
    requires Thick(FramedRuns(xs), b, false) && AllMeasured(xs, ui)
    ensures b == FramedRuns(ys) && AllMeasured(ys, ui) && Heard(SlotsIn(ys)) == Heard(SlotsIn(xs))
    ensures Glitches(SlotsIn(ys)) == Glitches(SlotsIn(xs)) && (xs != [] ==> ys != [])
    decreases |b|, 0
  {
    if xs == [] {
      ys := [];
    } else {
      FramedAdd(xs[0], xs[1..], ui);
      assert xs == [xs[0]] + xs[1..];
      var a := AllRuns(xs[0]) + FramedRuns(xs[1..]);
      assert ([BOUNDARY_RUN] + a)[1..] == a && b != [] && b == [BOUNDARY_RUN] + b[1..];
      ys := ThickItem(xs[0], xs[1..], b[1..], ui);
    }
  }

  lemma {:induction false} ThickItem(g: seq<Captured>, rest: seq<seq<Captured>>, b: seq<nat>, ui: real)
    returns (ys: seq<seq<Captured>>)
    requires Thick(AllRuns(g) + FramedRuns(rest), b, true) && GroupMeasured(g, ui) && AllMeasured(rest, ui)
    ensures ys != [] && [BOUNDARY_RUN] + b == FramedRuns(ys) && AllMeasured(ys, ui)
    ensures Heard(SlotsIn(ys)) == Heard(SlotsIn([g] + rest)) && Glitches(SlotsIn(ys)) == Glitches(SlotsIn([g] + rest))
    decreases |b|, 1
  {
    var a := AllRuns(g) + FramedRuns(rest);
    ThickClosed(a, b);
    FramedAdd(g, rest, ui);
    hide *;
    if Thick(a, b, false) {
      ShortOfMark(g, ui);
      var b' := ThickPlain(AllRuns(g), FramedRuns(rest), b);
      ys := ThickFramed(rest, b', ui);
      FramedAdd(g, ys, ui);
      ys := [g] + ys;
    } else {
      ys := ThickItem(g, rest, b[1..], ui);
      FramedAdd([], ys, ui);
      NobodyMeasured(ui);
      assert [BOUNDARY_RUN] + b[1..] == b && [] + FramedRuns(ys) == FramedRuns(ys);
      var more := SlotsIn(ys);
      assert [] + Heard(more) == Heard(more) && [] + Glitches(more) == Glitches(more);
      ys := [[]] + ys;
    }
  }

  lemma NobodyMeasured(ui: real)
    ensures GroupMeasured([], ui) && AllRuns([]) == []
  {}

  lemma ShortOfMark(g: seq<Captured>, ui: real)
    requires GroupMeasured(g, ui)
    ensures forall k :: 0 <= k < |AllRuns(g)| ==> AllRuns(g)[k] < BOUNDARY_RUN
  {
    hide Measured, AllRuns;
    AllPositive(g, ui);
  }

  // ---- from the pin --------------------------------------------------------------------------------

  /** What the host is to make of the pin: the squelched runs, the last of them open, in which case
      only an idle line is reported, or followed by a shorter open one. */
  predicate Seen(samples: seq<bit>, runs: seq<nat>) {
    var closed, open := Counted(samples, 1, 0), OpenBlock(samples, 1, 0);
    if open / CAP < CAP_IDLE_K then closed == runs else closed + [open] == runs
  }

  lemma PinSeen(samples: seq<bit>, runs: seq<nat>)
    requires Seen(samples, runs)
    ensures PinRuns(samples) == SquelchedRuns(CAP_IDLE_K, runs)
  {
    hide Counted, OpenBlock, SquelchedRuns, SquelchedRun;
    var closed, open := Counted(samples, 1, 0), OpenBlock(samples, 1, 0);
    if open / CAP >= CAP_IDLE_K {
      assert (closed + [open])[..|closed|] == closed && (closed + [open])[|closed|] == open;
      OpenIdle(CAP_IDLE_K, runs);
    }
  }

  /** The first idle line, whatever stands in front of it. */
  lemma FirstIdle(k: nat, first: seq<nat>, lead: nat, rest: seq<nat>)
    requires k > 1 && lead / CAP >= k && forall i :: 0 <= i < |first| ==> first[i] / CAP < k
    ensures SquelchedRuns(k, first + [lead] + rest) ==
            first + [CAP * (k - 1)] + ([BOUNDARY_RUN] + SquelchedRuns(k, rest))
  {
    assert first + [lead] + rest == first + ([lead] + rest) && ([lead] + rest)[1..] == rest;
    ShortRuns(k, first, [lead] + rest);
    hide SquelchedRuns;
    assert SquelchedRun(k, lead) == [CAP * (k - 1)] + [BOUNDARY_RUN];
    assert first + ([CAP * (k - 1)] + [BOUNDARY_RUN] + SquelchedRuns(k, rest)) ==
           first + [CAP * (k - 1)] + ([BOUNDARY_RUN] + SquelchedRuns(k, rest));
  }

  /** From the data pin to the packets, whatever the gaps: what stands in front of the first idle line
      is not reported; from there on the packets between two idle lines come out as one, with a framing
      error for each BREAK but the first. With every stored byte drained and none lost, this holds
      whatever the interleaving of the interrupt, the budgets and the squelch, for the bytes on the
      wire; further idle boundaries stand where the squelch has left its mark, as with a main loop
      that was never without a byte for more than 3 ms. */
  lemma GroupsFromThePin(s: RleSniffer, samples: seq<bit>, first: seq<nat>, lead: nat, cs: seq<Captured>, ui: real)
    requires Drained(s, samples) && Unbroken(s)
    requires Seen(samples, first + [lead] + AllRuns(cs)) && ui > 0.0
    requires lead / CAP >= CAP_IDLE_K && forall i :: 0 <= i < |first| ==> first[i] / CAP < CAP_IDLE_K
    requires forall c :: c in cs ==>
               Spaced(CAP_IDLE_K, c) && Measured(if Idle(CAP_IDLE_K, c) then Cut(CAP_IDLE_K, c) else c, ui)
    ensures var groups := SlotsIn(Grouped(CAP_IDLE_K, [], cs));
            DecodedWith(Rebuild(ItemsOf(s.t.wire), 0), ui, true) == (Heard(groups), Glitches(groups))
  {
    hide *;
    var k := CAP_IDLE_K;
    Threshold();
    HostReadsRepeats(s, samples);
    PinSeen(samples, first + [lead] + AllRuns(cs));
    FirstIdle(k, first, lead, AllRuns(cs));
    SquelchedGroups(k, [], cs);
    NobodyMeasured(ui);
    assert [] + SquelchedRuns(k, AllRuns(cs)) == SquelchedRuns(k, AllRuns(cs));
    GroupsMeasured(k, [], cs, ui);
    var prefix := first + [CAP * (k - 1)];
    ShortOnes(first);
    var b := ThickPlain(prefix, FramedRuns(Grouped(k, [], cs)), Rebuild(ItemsOf(s.t.wire), 0));
    var ys := ThickFramed(Grouped(k, [], cs), b, ui);
    DecodeFramed(prefix, ys, ui);
  }

  lemma Threshold()
    ensures CAP_IDLE_K == 150 && CAP == 128 && BOUNDARY_RUN == 0x4000_0000
  {}

  lemma ShortOnes(runs: seq<nat>)
    requires forall i :: 0 <= i < |runs| ==> runs[i] / CAP < CAP_IDLE_K
    ensures forall i :: 0 <= i < |runs| ==> runs[i] < BOUNDARY_RUN
  {
    forall i | 0 <= i < |runs|
      ensures runs[i] < BOUNDARY_RUN
    {
      assert runs[i] / CAP < CAP_IDLE_K;
    }
  }

  /** With an idle line behind each, exactly the packets, without a framing error. */
  lemma PacketsFromThePin(s: RleSniffer, samples: seq<bit>, first: seq<nat>, lead: nat, cs: seq<Captured>, ui: real)
    requires Drained(s, samples) && Unbroken(s)
    requires Seen(samples, first + [lead] + AllRuns(cs)) && ui > 0.0
    requires lead / CAP >= CAP_IDLE_K && forall i :: 0 <= i < |first| ==> first[i] / CAP < CAP_IDLE_K
    requires forall c :: c in cs ==>
               Spaced(CAP_IDLE_K, c) && Idle(CAP_IDLE_K, c) && Measured(Cut(CAP_IDLE_K, c), ui)
    ensures DecodedWith(Rebuild(ItemsOf(s.t.wire), 0), ui, true) == (AllSlots(cs), Zeros(|cs|))
  {
    hide *;
    Threshold();
    GroupsFromThePin(s, samples, first, lead, cs, ui);
    forall c | c in cs
      ensures c.slots != []
    {
      SlotsKept(CAP_IDLE_K, c);
      MeasuredEnds(Cut(CAP_IDLE_K, c), ui);
    }
    AloneHeard(CAP_IDLE_K, cs);
  }

  lemma {:induction false} ThickNone(a: seq<nat>, b: seq<nat>)
    requires Thick(a, b, false) && forall k :: 0 <= k < |a| ==> a[k] < BOUNDARY_RUN
    ensures b == a
  {
    assert a + [] == a;
    var b' := ThickPlain(a, [], b);
  }

  lemma AllShort(k: nat, runs: seq<nat>)
    requires forall i :: 0 <= i < |runs| ==> runs[i] / CAP < k
    ensures SquelchedRuns(k, runs) == runs
  {
    ShortRuns(k, runs, []);
    assert runs + [] == runs;
  }

  /** With no idle line at all the stream has no boundary, and the host finds the packets by their BREAKs. */
  lemma CloseFromThePin(s: RleSniffer, samples: seq<bit>, lead: nat, cs: seq<Captured>, ui: real)
    requires Drained(s, samples) && Unbroken(s)
    requires Seen(samples, [lead] + AllRuns(cs)) && ui > 0.0 && lead > 0
    requires forall i :: 0 <= i < 1 + |AllRuns(cs)| ==> ([lead] + AllRuns(cs))[i] / CAP < CAP_IDLE_K
    requires forall c :: c in cs ==> Measured(c, ui)
    ensures DecodedWith(Rebuild(ItemsOf(s.t.wire), 0), ui, true) == (AllSlots(cs), Zeros(|cs|))
  {
    hide *;
    var runs := [lead] + AllRuns(cs);
    Threshold();
    HostReadsRepeats(s, samples);
    PinSeen(samples, runs);
    AllShort(CAP_IDLE_K, runs);
    ShortOnes(runs);
    ThickNone(runs, Rebuild(ItemsOf(s.t.wire), 0));
    assert runs[0] == lead;
    DecodeMeasured(lead, cs, ui);
  }
}
