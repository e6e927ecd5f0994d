/** The host side of a clocked capture: cap-split records are joined into logical bursts,
    bursts become bits, and the bit hunter is reset at every seam
    (scripts/mdio_lib.py, app/test/mdio_codec.js). */
module HostCapture {
  import opened Bytes
  import opened Cobs
  import opened RecordFramer
  import opened Clause22
  import Mmd

  // ---- the flags byte --------------------------------------------------------------

  const FLAG_OVF_PIOC: bv8 := 1
  const FLAG_OVF_RAM: bv8 := 2
  const FLAG_CONTINUED: bv8 := 4

  predicate Overflowed(f: bv8) { f & (FLAG_OVF_PIOC | FLAG_OVF_RAM) != 0 }

  predicate Continued(f: bv8) { f & FLAG_CONTINUED != 0 }

  /** How many bits of a burst's last byte count; 0 stands for all eight. */
  type tailcount = n: nat | n < 8

  function ValidBits(f: bv8): tailcount {
    assert (f >> 3) & 7 < 8;
    ((f >> 3) & 7) as nat
  }

  /** The flags byte emitRecord assembles. */
  function MakeFlags(ovfPioc: bool, ovfRam: bool, continued: bool, tailBits: bv8): bv8 {
    (if ovfPioc then 1 else 0) | (if ovfRam then 2 else 0) | (if continued then 4 else 0) | ((tailBits & 7) << 3)
  }

  /** ... carries each of its four fields. */
  lemma FlagsCarry(ovfPioc: bool, ovfRam: bool, continued: bool, tailBits: bv8)
    requires tailBits < 8
    ensures var f := MakeFlags(ovfPioc, ovfRam, continued, tailBits);
            && Overflowed(f) == (ovfPioc || ovfRam) && Continued(f) == continued && ValidBits(f) == tailBits as nat
            && f == (if ovfPioc then 1 else 0) + (if ovfRam then 2 else 0) + (if continued then 4 else 0) + 8 * tailBits
  {
    var f := MakeFlags(ovfPioc, ovfRam, continued, tailBits);
    assert (f >> 3) & 7 == tailBits;
  }

  function OrFlags(f: bv8, g: bv8): bv8 { f | g }

  function NotContinued(f: bv8): bv8 { f & !FLAG_CONTINUED }

  lemma FlagsJoin(f: bv8, g: bv8)
    ensures Overflowed(OrFlags(f, g)) == (Overflowed(f) || Overflowed(g))
    ensures Overflowed(NotContinued(f)) == Overflowed(f)
    ensures !Overflowed(0)
  {}

  // ---- records of a byte stream ----------------------------------------------------

  /** The valid type-1 records among the decoded segments. */
  function RecordsOf(raws: seq<seq<byte>>): seq<Record> {
    if raws == [] then []
    else RecordsOf(raws[..|raws| - 1]) +
         match Parse(raws[|raws| - 1])
         case None => []
         case Some(r) => if r.typ == TYPE_MDIO then [r] else []
  }

  /** recordsFromBinary, wire=2. */
  method RecordsFromBinary(data: seq<byte>) returns (records: seq<Record>, metas: seq<seq<byte>>, losses: nat)
    ensures var xs := Demux([], data);
            records == RecordsOf(RecsOf(xs)) && metas == MetasOf(xs) && losses == LossesOf(xs)
  {
    hide Parse, Demux, RecsOf, MetasOf, LossesOf;
    var recs;
    recs, metas, losses := DemuxV2(data);
    records := [];
    var i := 0;
    while i < |recs|
      invariant i <= |recs| && records == RecordsOf(recs[..i])
    {
      assert recs[..i + 1][..i] == recs[..i];
      assert records + [] == records;
      var r := Parse(recs[i]);
      if r.Some? && r.value.typ == TYPE_MDIO {
        records := records + [r.value];
      }
      i := i + 1;
    }
    assert recs[..|recs|] == recs;
  }

  // ---- bits of a burst ---------------------------------------------------------------

  /** burst_to_bits: the last byte contributes only its validBits top bits, when non-zero. */
  function BurstBits(payload: seq<byte>, validBits: tailcount): seq<bit> {
    if payload == [] || validBits == 0 then BytesToBits(payload)
    else BytesToBits(payload[..|payload| - 1]) + ToBits(payload[|payload| - 1], 8)[..validBits]
  }

  lemma BurstBitsConcat(a: seq<byte>, b: seq<byte>, validBits: tailcount)
    requires b == [] ==> validBits == 0
    ensures BurstBits(a + b, validBits) == BytesToBits(a) + BurstBits(b, validBits)
  {
    hide BytesToBits, ToBits;
    BytesToBitsConcat(a, b);
    if b != [] {
      var init := b[..|b| - 1];
      BytesToBitsConcat(a, init);
      assert (a + b)[..|a + b| - 1] == a + init;
    }
  }

  // ---- joining -----------------------------------------------------------------------

  datatype Burst = Burst(tUs: nat, durUs: nat, onsetUs: nat, flags: bv8, payload: seq<byte>, validBits: tailcount)

  /** The joiner's state between records. */
  datatype Chain = Chain(pay: seq<byte>, t0: Option<nat>, onset: nat, dur: nat, flags: bv8)

  const NO_CHAIN := Chain([], None, 0, 0, 0)

  function Extend(c: Chain, r: Record): Chain {
    var first := c.t0.None?;
    Chain(c.pay + r.payload, if first then Some(r.tUs) else c.t0, if first then r.onsetUs else c.onset,
          c.dur + r.durUs, OrFlags(c.flags, r.flags))
  }

  function Close(c: Chain, r: Record): Burst
    requires c.t0.Some?
  {
    Burst(c.t0.value, c.dur, c.onset, NotContinued(c.flags), c.pay, ValidBits(r.flags))
  }

  lemma ExtendFields(c: Chain, r: Record)
    ensures var d := Extend(c, r);
            && d.pay == c.pay + r.payload && d.dur == c.dur + r.durUs && d.flags == OrFlags(c.flags, r.flags)
            && d.t0 == (if c.t0.None? then Some(r.tUs) else c.t0)
            && d.onset == (if c.t0.None? then r.onsetUs else c.onset)
  {}

  lemma CloseFields(c: Chain, r: Record)
    requires c.t0.Some?
    ensures Close(c, r) == Burst(c.t0.value, c.dur, c.onset, NotContinued(c.flags), c.pay, ValidBits(r.flags))
  {}

  /** The logical bursts of a record list, with a chain already open. */
  function Bursts(c: Chain, rs: seq<Record>): seq<Burst>
    decreases |rs|
  {
    if rs == [] then []
    else
      var r := rs[0];
      var d := Extend(if Overflowed(r.flags) then NO_CHAIN else c, r);
      if Continued(r.flags) then Bursts(d, rs[1..]) else [Close(d, r)] + Bursts(NO_CHAIN, rs[1..])
  }

  class BurstJoiner {
    var pay: seq<byte>
    var t0: Option<nat>
    var onset: nat
    var dur: nat
    var flags: bv8

    ghost function State(): Chain
      reads this
    {
      Chain(pay, t0, onset, dur, flags)
    }

    constructor ()
      ensures State() == NO_CHAIN
    {
      pay, t0, onset, dur, flags := [], None, 0, 0, 0;
    }

    method Feed(rec: Record) returns (out: Option<Burst>)
      modifies this
      ensures var d := Extend(old(State()), rec);
              if Continued(rec.flags) then State() == d && out == None
              else State() == NO_CHAIN && out == Some(Close(d, rec))
    {
      hide Extend, Close, ValidBits, Continued, OrFlags, NotContinued;
      ExtendFields(State(), rec);
      CloseFields(Extend(State(), rec), rec);
      if t0 == None {
        t0 := Some(rec.tUs);
        onset := rec.onsetUs;
      }
      pay := pay + rec.payload;
      dur := dur + rec.durUs;
      flags := OrFlags(flags, rec.flags);
      if Continued(rec.flags) {
        return None;
      }
      out := Some(Burst(t0.value, dur, onset, NotContinued(flags), pay, ValidBits(rec.flags)));
      pay, t0, onset, dur, flags := [], None, 0, 0, 0;
    }
  }

  /** logical_bursts. */
  method LogicalBursts(records: seq<Record>) returns (out: seq<Burst>)
    ensures out == Bursts(NO_CHAIN, records)
  {
    hide Bursts;
    out := [];
    var j := new BurstJoiner();
    assert records[0..] == records;
    assert out + Bursts(NO_CHAIN, records) == Bursts(NO_CHAIN, records);
    var i := 0;
    while i < |records|
      invariant i <= |records| && fresh(j)
      invariant out + Bursts(j.State(), records[i..]) == Bursts(NO_CHAIN, records)
    {
      BurstsStep(j.State(), records, i);
      if Overflowed(records[i].flags) {
        j := new BurstJoiner();
      }
      var lb := j.Feed(records[i]);
      if lb.Some? {
        AssocBursts(out, [lb.value], Bursts(NO_CHAIN, records[i + 1..]));
        out := out + [lb.value];
      }
      i := i + 1;
    }
    BurstsEnd(j.State(), records[i..]);
  }

  lemma BurstsStep(c: Chain, rs: seq<Record>, i: nat)
    requires i < |rs|
    ensures var d := Extend(if Overflowed(rs[i].flags) then NO_CHAIN else c, rs[i]);
            Bursts(c, rs[i..]) == if Continued(rs[i].flags) then Bursts(d, rs[i + 1..])
                                  else [Close(d, rs[i])] + Bursts(NO_CHAIN, rs[i + 1..])
  {
    assert rs[i..][1..] == rs[i + 1..];
  }

  lemma BurstsEnd(c: Chain, rs: seq<Record>)
    requires rs == []
    ensures Bursts(c, rs) == []
  {}

  lemma AssocBursts(a: seq<Burst>, b: seq<Burst>, c: seq<Burst>)
    ensures a + (b + c) == (a + b) + c
  {}

  // ---- what a device that may drop records delivers -------------------------------------

  /** A delivered record and where its bits stand in the sampled bit string. */
  datatype Sent = Sent(rec: Record, start: nat) {
    function Bits(): seq<bit> { BurstBits(rec.payload, ValidBits(rec.flags)) }
    function End(): nat { start + |Bits()| }
  }

  ghost predicate SliceAt(all: seq<bit>, start: nat, bits: seq<bit>) {
    start + |bits| <= |all| && all[start..start + |bits|] == bits
  }

  /** One delivered record behind another: in order, and with no hole unless it says so. */
  ghost predicate Follows(end: nat, s: Sent) {
    end <= s.start && (!Overflowed(s.rec.flags) ==> end == s.start)
  }

  ghost predicate WellTagged(all: seq<bit>, s: Sent) {
    && SliceAt(all, s.start, s.Bits())
    && (Continued(s.rec.flags) ==> ValidBits(s.rec.flags) == 0)
    && (ValidBits(s.rec.flags) > 0 ==> s.rec.payload != [])
  }

  /** The records are slices of `all`, in order from `end` on, holes flagged. */
  ghost predicate Delivered(all: seq<bit>, end: nat, sent: seq<Sent>)
    decreases |sent|
  {
    sent != [] ==>
      WellTagged(all, sent[0]) && Follows(end, sent[0]) && Delivered(all, sent[0].End(), sent[1..])
  }

  function RecordsSent(sent: seq<Sent>): (rs: seq<Record>)
    ensures |rs| == |sent|
  {
    if sent == [] then [] else [sent[0].rec] + RecordsSent(sent[1..])
  }

  /** A logical burst with the place of its bits. */
  datatype Placed = Placed(burst: Burst, start: nat) {
    function Bits(): seq<bit> { BurstBits(burst.payload, burst.validBits) }
    function End(): nat { start + |Bits()| }
  }

  /** Bursts are slices of `all`, ordered and disjoint; a burst that does not start where
      the one before it ended says so. */
  ghost predicate Seamed(all: seq<bit>, end: nat, bs: seq<Placed>)
    decreases |bs|
  {
    bs != [] ==>
      && SliceAt(all, bs[0].start, bs[0].Bits())
      && end <= bs[0].start
      && (!Overflowed(bs[0].burst.flags) ==> end == bs[0].start)
      && Seamed(all, bs[0].End(), bs[1..])
  }

  function BurstsPlaced(bs: seq<Placed>): (r: seq<Burst>)
    ensures |r| == |bs|
  {
    if bs == [] then [] else [bs[0].burst] + BurstsPlaced(bs[1..])
  }

  /** What a chain opened at bit `start` holds when the last record ended at `end`. */
  ghost predicate ChainHolds(all: seq<bit>, c: Chain, from: nat, start: nat, end: nat) {
    if c.t0.None? then c == NO_CHAIN && start == end && from <= end
    else
      && from <= start <= end <= |all| && all[start..end] == BytesToBits(c.pay)
      && (!Overflowed(c.flags) ==> from == start)
  }

  /** One record extends the open chain, or a new one if it is flagged. */
  lemma ChainExtends(all: seq<bit>, c: Chain, from: nat, start: nat, end: nat, s: Sent)
    returns (start': nat)
    requires ChainHolds(all, c, from, start, end) && WellTagged(all, s) && Follows(end, s)
    requires c.t0.None? ==> from == end
    ensures var c0 := if Overflowed(s.rec.flags) then NO_CHAIN else c;
            var d := Extend(c0, s.rec);
            && d.t0.Some? && start' <= s.start && from <= start'
            && SliceAt(all, start', BurstBits(d.pay, ValidBits(s.rec.flags)))
            && start' + |BurstBits(d.pay, ValidBits(s.rec.flags))| == s.End()
            && (!Overflowed(d.flags) ==> from == start')
  {
    var f := s.rec.flags;
    var c0 := if Overflowed(f) then NO_CHAIN else c;
    FlagsJoin(c0.flags, f);
    hide BurstBits, BytesToBits, ValidBits;
    BurstBitsConcat(c0.pay, s.rec.payload, ValidBits(f));
    if c0.t0.None? {
      start' := s.start;
      NoBits();
      assert [] + s.Bits() == s.Bits();
    } else {
      start' := start;
      assert all[start..s.End()] == all[start..end] + all[end..s.End()];
    }
  }

  lemma NoBits()
    ensures BytesToBits([]) == []
  {}

  /** Loss seams: whatever records were dropped, every logical burst is a contiguous slice
      of the sampled bits, slices are ordered and disjoint, and each hole is flagged. */
  lemma {:induction false} SeamsAreFlagged(all: seq<bit>, c: Chain, from: nat, start: nat, end: nat, sent: seq<Sent>)
    returns (bs: seq<Placed>)
    requires Delivered(all, end, sent) && ChainHolds(all, c, from, start, end)
    requires c.t0.None? ==> from == end
    ensures Bursts(c, RecordsSent(sent)) == BurstsPlaced(bs)
    ensures Seamed(all, from, bs)
    ensures Lossless(sent) && !Overflowed(c.flags) ==> forall p :: p in bs ==> !Overflowed(p.burst.flags)
    ensures Terminated(c, sent) ==> PlacedEnd(from, bs) == SentEnd(end, sent)
    decreases |sent|
  {
    hide *;
    if sent == [] {
      bs := [];
      NothingSent(all, c, from, end);
    } else {
      var s := sent[0];
      var f := s.rec.flags;
      FirstSent(all, end, sent);
      var start' := ChainExtends(all, c, from, start, end, s);
      var d := Extend(if Overflowed(f) then NO_CHAIN else c, s.rec);
      FirstRecord(c, sent);
      if Continued(f) {
        WholeBytes(d.pay, f);
        ChainGrown(all, d, from, start', s);
        bs := SeamsAreFlagged(all, d, from, start', s.End(), sent[1..]);
        LosslessStep(c, sent);
      } else {
        NoChain(all, s.End());
        var rest := SeamsAreFlagged(all, NO_CHAIN, s.End(), s.End(), s.End(), sent[1..]);
        var p := Placed(Close(d, s.rec), start');
        ClosedBurst(d, s.rec);
        bs := [p] + rest;
        SeamedCons(all, from, p, rest);
        PlacedEndCons(from, p, rest);
        LosslessStep(c, sent);
      }
    }
  }

  /** No record announces a loss. */
  ghost predicate Lossless(sent: seq<Sent>) {
    forall s :: s in sent ==> !Overflowed(s.rec.flags)
  }

  /** No chain is left open. */
  ghost predicate Terminated(c: Chain, sent: seq<Sent>) {
    if sent == [] then c.t0.None? else !Continued(sent[|sent| - 1].rec.flags)
  }

  ghost function SentEnd(end: nat, sent: seq<Sent>): nat {
    if sent == [] then end else sent[|sent| - 1].End()
  }

  ghost function PlacedEnd(end: nat, bs: seq<Placed>): nat
  {
    if bs == [] then end else bs[|bs| - 1].End()
  }

  lemma NothingSent(all: seq<bit>, c: Chain, from: nat, end: nat)
    ensures Bursts(c, RecordsSent([])) == BurstsPlaced([]) && Seamed(all, from, [])
    ensures PlacedEnd(from, []) == from && SentEnd(end, []) == end && (Terminated(c, []) ==> c.t0.None?)
  {}

  lemma PlacedEndCons(end: nat, p: Placed, rest: seq<Placed>)
    ensures PlacedEnd(end, [p] + rest) == PlacedEnd(p.End(), rest)
  {}

  lemma LosslessStep(c: Chain, sent: seq<Sent>)
    requires sent != []
    ensures var f, d := sent[0].rec.flags, Extend(if Overflowed(sent[0].rec.flags) then NO_CHAIN else c, sent[0].rec);
            && (Lossless(sent) ==> !Overflowed(f) && Lossless(sent[1..]))
            && (Lossless(sent) && !Overflowed(c.flags) ==> !Overflowed(d.flags))
            && (Terminated(c, sent) && Continued(f) ==> Terminated(d, sent[1..]))
            && (Terminated(c, sent) && !Continued(f) ==> Terminated(NO_CHAIN, sent[1..]))
            && (forall end :: SentEnd(sent[0].End(), sent[1..]) == SentEnd(end, sent))
            && !Overflowed(NO_CHAIN.flags)
  {
    FlagsJoin(c.flags, sent[0].rec.flags);
  }

  lemma FirstSent(all: seq<bit>, end: nat, sent: seq<Sent>)
    requires Delivered(all, end, sent) && sent != []
    ensures WellTagged(all, sent[0]) && Follows(end, sent[0]) && Delivered(all, sent[0].End(), sent[1..])
    ensures Continued(sent[0].rec.flags) ==> ValidBits(sent[0].rec.flags) == 0
  {}

  lemma FirstRecord(c: Chain, sent: seq<Sent>)
    requires sent != []
    ensures var r := sent[0].rec;
            var d := Extend(if Overflowed(r.flags) then NO_CHAIN else c, r);
            Bursts(c, RecordsSent(sent)) ==
            if Continued(r.flags) then Bursts(d, RecordsSent(sent[1..]))
            else [Close(d, r)] + Bursts(NO_CHAIN, RecordsSent(sent[1..]))
  {
    assert RecordsSent(sent)[1..] == RecordsSent(sent[1..]);
  }

  lemma ClosedBurst(d: Chain, r: Record)
    requires d.t0.Some?
    ensures var b := Close(d, r);
            b.payload == d.pay && b.validBits == ValidBits(r.flags) && Overflowed(b.flags) == Overflowed(d.flags)
    ensures forall start: nat ::
              Placed(Close(d, r), start).End() == start + |BurstBits(d.pay, ValidBits(r.flags))|
  {
    FlagsJoin(d.flags, 0);
  }

  lemma NoChain(all: seq<bit>, end: nat)
    ensures ChainHolds(all, NO_CHAIN, end, end, end) && NO_CHAIN.t0.None? && !Overflowed(NO_CHAIN.flags)
  {}

  lemma ChainGrown(all: seq<bit>, d: Chain, from: nat, start: nat, s: Sent)
    requires d.t0.Some? && from <= start <= s.start && SliceAt(all, start, BytesToBits(d.pay))
    requires start + |BytesToBits(d.pay)| == s.End() && (!Overflowed(d.flags) ==> from == start)
    ensures ChainHolds(all, d, from, start, s.End())
  {}

  lemma SeamedCons(all: seq<bit>, end: nat, p: Placed, rest: seq<Placed>)
    requires SliceAt(all, p.start, BurstBits(p.burst.payload, p.burst.validBits))
    requires end <= p.start && (!Overflowed(p.burst.flags) ==> end == p.start)
    requires Seamed(all, p.End(), rest)
    ensures Seamed(all, end, [p] + rest)
    ensures BurstsPlaced([p] + rest) == [p.burst] + BurstsPlaced(rest)
  {
    assert ([p] + rest)[1..] == rest;
  }

  lemma WholeBytes(pay: seq<byte>, f: bv8)
    requires ValidBits(f) == 0
    ensures BurstBits(pay, ValidBits(f)) == BytesToBits(pay)
  {}

  // ---- decoding a capture ----------------------------------------------------------------

  /** The bits of all bursts, in order. */
  function BitsOf(bs: seq<Burst>): seq<bit>
  {
    if bs == [] then [] else BurstBits(bs[0].payload, bs[0].validBits) + BitsOf(bs[1..])
  }

  /** Without a flagged burst the bursts hold the sampled bits themselves, gap-free. */
  lemma {:induction false} GapFree(all: seq<bit>, end: nat, bs: seq<Placed>)
    requires Seamed(all, end, bs) && end <= |all|
    requires forall p :: p in bs ==> !Overflowed(p.burst.flags)
    ensures end <= PlacedEnd(end, bs) <= |all|
    ensures BitsOf(BurstsPlaced(bs)) == all[end..PlacedEnd(end, bs)]
    decreases |bs|
  {
    hide *;
    if bs == [] {
      GapNone(all, end);
    } else {
      var p, rest := bs[0], bs[1..];
      GapStep(all, end, bs);
      GapFree(all, p.End(), rest);
      var e := PlacedEnd(p.End(), rest);
      assert all[end..e] == all[end..p.End()] + all[p.End()..e];
    }
  }

  lemma GapNone(all: seq<bit>, end: nat)
    requires end <= |all|
    ensures PlacedEnd(end, []) == end && BitsOf(BurstsPlaced([])) == [] == all[end..end]
  {}

  lemma GapStep(all: seq<bit>, end: nat, bs: seq<Placed>)
    requires bs != [] && Seamed(all, end, bs) && end <= |all|
    requires forall p :: p in bs ==> !Overflowed(p.burst.flags)
    ensures var p, rest := bs[0], bs[1..];
            && end <= p.End() <= |all| && Seamed(all, p.End(), rest) && PlacedEnd(end, bs) == PlacedEnd(p.End(), rest)
            && (forall q :: q in rest ==> !Overflowed(q.burst.flags))
            && BitsOf(BurstsPlaced(bs)) == all[end..p.End()] + BitsOf(BurstsPlaced(rest))
  {
    hide BurstBits, Overflowed;
    var p, rest := bs[0], bs[1..];
    assert p in bs && forall q :: q in rest ==> q in bs;
    assert BurstsPlaced(bs)[1..] == BurstsPlaced(rest);
  }

  /** The bit strings the hunter works through between two resets: it is reset before a
      flagged burst and behind a flushed partial byte. */
  function Stretches(open: seq<bit>, bs: seq<Burst>): (ss: seq<seq<bit>>)
    ensures |ss| >= 1
    decreases |bs|
  {
    if bs == [] then [open]
    else
      var b := bs[0];
      var o := (if Overflowed(b.flags) then [] else open) + BurstBits(b.payload, b.validBits);
      (if Overflowed(b.flags) then [open] else [])
      + (if b.validBits != 0 then [o] + Stretches([], bs[1..]) else Stretches(o, bs[1..]))
  }

  /** Stretches again, in one list for each part of the capture between two flagged bursts: the MMD
      tables are forgotten with a flagged burst only. */
  function Epochs(past: seq<seq<bit>>, open: seq<bit>, bs: seq<Burst>): seq<seq<seq<bit>>>
    decreases |bs|
  {
    if bs == [] then [past + [open]]
    else
      var b := bs[0];
      var flagged := Overflowed(b.flags);
      var p := if flagged then [] else past;
      var o := (if flagged then [] else open) + BurstBits(b.payload, b.validBits);
      (if flagged then [past + [open]] else [])
      + (if b.validBits != 0 then Epochs(p + [o], [], bs[1..]) else Epochs(p, o, bs[1..]))
  }

  function Flatten(es: seq<seq<seq<bit>>>): seq<seq<bit>> {
    if es == [] then [] else es[0] + Flatten(es[1..])
  }

  /** The events of a capture: each epoch is folded from empty tables. */
  function EventsOf(es: seq<seq<seq<bit>>>): seq<Mmd.Event> {
    if es == [] then [] else EventsOf(es[..|es| - 1]) + Mmd.Folded(Mmd.UNKNOWN, FramesOf(es[|es| - 1]))
  }

  lemma {:induction false} EpochsAreStretches(past: seq<seq<bit>>, open: seq<bit>, bs: seq<Burst>)
    ensures Flatten(Epochs(past, open, bs)) == past + Stretches(open, bs)
    ensures (forall b :: b in bs ==> !Overflowed(b.flags)) ==> Epochs(past, open, bs) == [past + Stretches(open, bs)]
    decreases |bs|
  {
    hide Overflowed, BurstBits, Flatten, Stretches;
    FlattenNone();
    if bs == [] {
      StretchesEnd(open, bs);
      FlattenCons(past + [open], []);
    } else {
      var b := bs[0];
      StretchesHead(open, bs);
      assert b in bs && forall x :: x in bs[1..] ==> x in bs;
      var flagged := Overflowed(b.flags);
      var p := if flagged then [] else past;
      var o := (if flagged then [] else open) + BurstBits(b.payload, b.validBits);
      if b.validBits != 0 {
        EpochsAreStretches(p + [o], [], bs[1..]);
        FlattenCons(past + [open], Epochs(p + [o], [], bs[1..]));
        assert [] + [o] == [o];
        Regroup(past, open, [o] + Stretches([], bs[1..]));
        assert p + [o] + Stretches([], bs[1..]) == p + ([o] + Stretches([], bs[1..]));
      } else {
        EpochsAreStretches(p, o, bs[1..]);
        FlattenCons(past + [open], Epochs(p, o, bs[1..]));
        Regroup(past, open, Stretches(o, bs[1..]));
      }
    }
  }

  lemma Regroup(past: seq<seq<bit>>, open: seq<bit>, rest: seq<seq<bit>>)
    ensures past + [open] + ([] + rest) == past + ([open] + rest) && past + ([] + rest) == past + rest
    ensures [] + rest == rest && past + [open] + rest == past + ([open] + rest)
  {}

  lemma FlattenNone()
    ensures Flatten([]) == []
  {}

  lemma FlattenCons(e: seq<seq<bit>>, es: seq<seq<seq<bit>>>)
    ensures Flatten([e] + es) == e + Flatten(es) && Flatten([e]) == e
    ensures [] + es == es
  {
    assert ([e] + es)[1..] == es && [e][1..] == [];
  }

  lemma {:induction false} FlattenSnoc(es: seq<seq<seq<bit>>>, e: seq<seq<bit>>)
    ensures Flatten(es + [e]) == Flatten(es) + e
  {
    hide Flatten;
    FlattenNone();
    if es == [] {
      FlattenCons(e, []);
      assert es + [e] == [e];
    } else {
      FlattenSnoc(es[1..], e);
      FlattenCons(es[0], es[1..]);
      FlattenCons(es[0], es[1..] + [e]);
      assert es == [es[0]] + es[1..] && es + [e] == [es[0]] + (es[1..] + [e]);
    }
  }

  /** decodeCapture: the frames, and the events folded from them. */
  method DecodeCapture(bs: seq<Burst>) returns (frames: seq<Frame>, events: seq<Mmd.Event>)
    ensures SameFrames(FramesOf(Stretches([], bs)), frames)
    ensures events == EventsOf(Epochs([], [], bs))
  {
    hide *;
    frames, events := [], [];
    var folder := new Mmd.MmdFolder();
    var stream := new BitStream();
    ghost var b := Behind([], [], [], []);
    NothingBehind(bs);
    Mmd.FoldEnd(Mmd.UNKNOWN);
    var i := 0;
    while i < |bs|
      invariant i <= |bs| && fresh(stream) && fresh(folder) && stream.Valid()
      invariant b.done + Epochs(b.past, stream.fed, bs[i..]) == Epochs([], [], bs) && b.Valid()
      invariant frames == b.left + b.held + stream.emitted
      invariant events == EventsOf(b.done) + Mmd.Folded(Mmd.UNKNOWN, b.held + stream.emitted)
      invariant folder.State() == Mmd.RegsAfter(Mmd.UNKNOWN, b.held + stream.emitted)
    {
      var lb := bs[i];
      EpochsStep(b.done, b.past, stream.fed, bs, i);
      if Overflowed(lb.flags) {
        StreamTracks(stream);
        b := LeaveEpoch(b, stream.fed, stream.emitted, stream.carry);
        stream.Reset();
        folder.Reset();
        Mmd.FoldEnd(Mmd.UNKNOWN);
        NothingMore(frames, events);
      }
      ghost var before := b.held + stream.emitted;
      var more := stream.Feed(BurstBits(lb.payload, lb.validBits));
      var reported := folder.FeedAll(more);
      Mmd.FoldSplits(Mmd.UNKNOWN, before, more);
      frames, events := frames + more, events + reported;
      Appended(b, stream.emitted, more);
      if lb.validBits != 0 {
        StreamTracks(stream);
        b := LeaveStretch(b, stream.fed, stream.emitted, stream.carry);
        stream.Reset();
        NothingMore(frames, events);
      }
      i := i + 1;
    }
    EpochsEnd(b.past, stream.fed, bs[i..]);
    StreamTracks(stream);
    b := LeaveEpoch(b, stream.fed, stream.emitted, stream.carry);
    BehindAll(b, bs);
  }

  /** What the hunter has left behind: finished epochs and the frames reported in them, and the
      same for the current epoch up to its latest reset. */
  datatype Behind = Behind(done: seq<seq<seq<bit>>>, left: seq<Frame>, past: seq<seq<bit>>, held: seq<Frame>)
  {
    ghost predicate Valid() {
      SameFrames(FramesOf(Flatten(done)), left) && SameFrames(FramesOf(past), held)
    }
  }

  function FramesOf(ss: seq<seq<bit>>): seq<Frame> {
    if ss == [] then [] else FramesOf(ss[..|ss| - 1]) + DecodeBits(ss[|ss| - 1])
  }

  lemma NothingBehind(bs: seq<Burst>)
    ensures Behind([], [], [], []).Valid() && [] + Epochs([], [], bs) == Epochs([], [], bs)
    ensures bs[0..] == bs && EventsOf([]) == []
  {}

  lemma NothingMore(frames: seq<Frame>, events: seq<Mmd.Event>)
    ensures frames + [] == frames && events + [] == events
  {}

  lemma Appended(b: Behind, emitted: seq<Frame>, more: seq<Frame>)
    requires |more| <= |emitted| && emitted[|emitted| - |more|..] == more
    ensures var e := emitted[..|emitted| - |more|];
            b.left + b.held + e + more == b.left + b.held + emitted && b.held + e + more == b.held + emitted
  {}

  lemma StreamTracks(stream: BitStream)
    ensures stream.Valid() ==> Tracks(stream.fed, stream.emitted, stream.carry)
  {
    hide Tracks, Unread;
  }

  lemma StretchesEnd(open: seq<bit>, bs: seq<Burst>)
    requires bs == []
    ensures Stretches(open, bs) == [open]
  {}

  lemma EpochsEnd(past: seq<seq<bit>>, open: seq<bit>, bs: seq<Burst>)
    requires bs == []
    ensures Epochs(past, open, bs) == [past + [open]]
  {}

  lemma EpochsStep(done: seq<seq<seq<bit>>>, past: seq<seq<bit>>, open: seq<bit>, bs: seq<Burst>, i: nat)
    requires i < |bs|
    ensures var b, rest := bs[i], bs[i + 1..];
            var flagged := Overflowed(b.flags);
            var p := if flagged then [] else past;
            var o := (if flagged then [] else open) + BurstBits(b.payload, b.validBits);
            var d := if flagged then done + [past + [open]] else done;
            done + Epochs(past, open, bs[i..]) ==
            d + if b.validBits != 0 then Epochs(p + [o], [], rest) else Epochs(p, o, rest)
  {
    hide *;
    EpochsHead(past, open, bs[i..]);
    assert bs[i..][1..] == bs[i + 1..] && bs[i..][0] == bs[i];
    var p := if Overflowed(bs[i].flags) then [] else past;
    var o := (if Overflowed(bs[i].flags) then [] else open) + BurstBits(bs[i].payload, bs[i].validBits);
    var rest := if bs[i].validBits != 0 then Epochs(p + [o], [], bs[i + 1..]) else Epochs(p, o, bs[i + 1..]);
    AssocEpochs(done, [past + [open]], rest);
  }

  lemma AssocEpochs(a: seq<seq<seq<bit>>>, b: seq<seq<seq<bit>>>, c: seq<seq<seq<bit>>>)
    ensures a + (b + c) == (a + b) + c && a + ([] + c) == a + c
  {}

  lemma EpochsHead(past: seq<seq<bit>>, open: seq<bit>, bs: seq<Burst>)
    requires bs != []
    ensures var b, flagged := bs[0], Overflowed(bs[0].flags);
            var p := if flagged then [] else past;
            var o := (if flagged then [] else open) + BurstBits(b.payload, b.validBits);
            Epochs(past, open, bs) ==
            (if flagged then [past + [open]] else [])
            + if b.validBits != 0 then Epochs(p + [o], [], bs[1..]) else Epochs(p, o, bs[1..])
  {
    hide Overflowed, BurstBits;
  }

  lemma BehindAll(b: Behind, bs: seq<Burst>)
    requires b.Valid() && b.done == Epochs([], [], bs)
    ensures SameFrames(FramesOf(Stretches([], bs)), b.left)
  {
    hide Epochs, FramesOf, SameFrames, Stretches;
    EpochsAreStretches([], [], bs);
    assert [] + Stretches([], bs) == Stretches([], bs);
  }

  /** The frames of a stretch left behind are those of its bits. */
  lemma LeaveStretch(b: Behind, fed: seq<bit>, emitted: seq<Frame>, carry: seq<bit>) returns (b': Behind)
    requires b.Valid() && Tracks(fed, emitted, carry)
    ensures b'.Valid() && b' == b.(past := b.past + [fed], held := b.held + emitted)
    ensures b'.left + b'.held + [] == b.left + b.held + emitted && b'.held + [] == b.held + emitted
  {
    StreamedIsBatch(fed, emitted, carry);
    hide Tracks, DecodeBits, Flatten;
    assert (b.past + [fed])[..|b.past|] == b.past;
    b' := b.(past := b.past + [fed], held := b.held + emitted);
  }

  /** ... and so are those of an epoch, with its events. */
  lemma LeaveEpoch(b: Behind, fed: seq<bit>, emitted: seq<Frame>, carry: seq<bit>) returns (b': Behind)
    requires b.Valid() && Tracks(fed, emitted, carry)
    ensures b'.Valid() && b' == Behind(b.done + [b.past + [fed]], b.left + b.held + emitted, [], [])
    ensures EventsOf(b'.done) == EventsOf(b.done) + Mmd.Folded(Mmd.UNKNOWN, b.held + emitted)
    ensures b'.left + b'.held + [] == b.left + b.held + emitted && b'.held + [] == []
  {
    var c := LeaveStretch(b, fed, emitted, carry);
    hide Mmd.Folded, Flatten, Tracks;
    var e := c.past;
    Mmd.FoldSame(Mmd.UNKNOWN, FramesOf(e), c.held);
    FlattenSnoc(b.done, e);
    FramesConcat(Flatten(b.done), e);
    SameBoth(FramesOf(Flatten(b.done)), FramesOf(e), b.left, c.held);
    b' := Behind(b.done + [e], b.left + c.held, [], []);
    assert b.left + c.held == b.left + b.held + emitted;
    assert (b.done + [e])[..|b.done|] == b.done;
  }

  lemma SameBoth(f: seq<Frame>, f': seq<Frame>, g: seq<Frame>, g': seq<Frame>)
    requires SameFrames(f, g) && SameFrames(f', g')
    ensures SameFrames(f + f', g + g')
  {}

  lemma {:induction false} FramesConcat(a: seq<seq<bit>>, b: seq<seq<bit>>)
    ensures FramesOf(a + b) == FramesOf(a) + FramesOf(b)
    decreases |b|
  {
    hide DecodeBits;
    if b == [] {
      assert a + b == a;
    } else {
      var n := |b| - 1;
      FramesConcat(a, b[..n]);
      assert (a + b)[..|a + b| - 1] == a + b[..n];
    }
  }

  /** The places in order, each stretch a slice of the sampled bits. */
  ghost predicate Slices(all: seq<bit>, starts: seq<nat>, ss: seq<seq<bit>>) {
    && |starts| == |ss|
    && (forall i :: 0 <= i < |ss| ==> SliceAt(all, starts[i], ss[i]))
    && (forall i :: 0 <= i < |ss| - 1 ==> starts[i] + |ss[i]| <= starts[i + 1])
  }

  lemma SlicesCons(all: seq<bit>, start: nat, s: seq<bit>, starts: seq<nat>, ss: seq<seq<bit>>)
    requires SliceAt(all, start, s) && Slices(all, starts, ss) && ss != [] && start + |s| <= starts[0]
    ensures Slices(all, [start] + starts, [s] + ss)
  {}

  /** No reported frame is glued across a hole: each stretch the hunter works through is one
      contiguous slice of the sampled bits, stretches in order and disjoint. */
  lemma {:induction false} StretchesAreSlices(all: seq<bit>, start: nat, end: nat, bs: seq<Placed>)
    returns (starts: seq<nat>)
    requires Seamed(all, end, bs) && start <= end <= |all|
    ensures Slices(all, starts, Stretches(all[start..end], BurstsPlaced(bs))) && starts[0] == start
    decreases |bs|
  {
    hide *;
    var open := all[start..end];
    if bs == [] {
      starts := [start];
      OneSlice(all, start, open);
      NoStretch(open);
    } else {
      var p, rest := bs[0], bs[1..];
      SeamedHead(all, end, bs);
      StretchesHead(open, BurstsPlaced(bs));
      var s := if Overflowed(p.burst.flags) then p.start else start;
      var o := all[s..p.End()];
      assert o == (if Overflowed(p.burst.flags) then [] else open) + all[p.start..p.End()];
      SliceIs(all, s, p.End());
      SliceIs(all, start, end);
      var ss;
      if p.burst.validBits != 0 {
        starts := StretchesAreSlices(all, p.End(), p.End(), rest);
        assert all[p.End()..p.End()] == [];
        ss := Stretches([], BurstsPlaced(rest));
        FirstSlice(all, starts, ss);
        SlicesCons(all, s, o, starts, ss);
        starts, ss := [s] + starts, [o] + ss;
      } else {
        starts := StretchesAreSlices(all, s, p.End(), rest);
        ss := Stretches(o, BurstsPlaced(rest));
        FirstSlice(all, starts, ss);
      }
      if Overflowed(p.burst.flags) {
        SlicesCons(all, start, open, starts, ss);
        starts := [start] + starts;
      } else {
        assert [] + ss == ss;
      }
    }
  }

  lemma NoStretch(open: seq<bit>)
    ensures Stretches(open, BurstsPlaced([])) == [open]
  {}

  lemma SliceIs(all: seq<bit>, from: nat, to: nat)
    requires from <= to <= |all|
    ensures SliceAt(all, from, all[from..to])
  {}

  lemma SeamedHead(all: seq<bit>, end: nat, bs: seq<Placed>)
    requires Seamed(all, end, bs) && bs != []
    ensures var p, rest := bs[0], bs[1..];
            && end <= p.start <= p.End() <= |all| && (!Overflowed(p.burst.flags) ==> end == p.start)
            && all[p.start..p.End()] == BurstBits(p.burst.payload, p.burst.validBits) && Seamed(all, p.End(), rest)
            && BurstsPlaced(bs) != [] && BurstsPlaced(bs)[0] == p.burst && BurstsPlaced(bs)[1..] == BurstsPlaced(rest)
  {
    hide BurstBits, Overflowed;
  }

  lemma StretchesHead(open: seq<bit>, bs: seq<Burst>)
    requires bs != []
    ensures var b := bs[0];
            var o := (if Overflowed(b.flags) then [] else open) + BurstBits(b.payload, b.validBits);
            Stretches(open, bs) ==
            (if Overflowed(b.flags) then [open] else [])
            + (if b.validBits != 0 then [o] + Stretches([], bs[1..]) else Stretches(o, bs[1..]))
  {
    hide BurstBits, Overflowed;
  }

  lemma OneSlice(all: seq<bit>, start: nat, s: seq<bit>)
    requires SliceAt(all, start, s)
    ensures Slices(all, [start], [s])
  {}

  lemma FirstSlice(all: seq<bit>, starts: seq<nat>, ss: seq<seq<bit>>)
    requires Slices(all, starts, ss)
    ensures |starts| == |ss|
  {}
}
