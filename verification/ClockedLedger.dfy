/** What the clocked datapath owes: which sampled bits stand in the open burst, in the
    records already staged, and on the wire. All of it is about values; ClockedSniffer keeps
    the books balanced while it runs. */
module ClockedLedger {
  import opened Bytes
  import opened Cobs
  import opened RecordFramer
  import opened HostCapture

  /** `base` is the first sampled bit the device saw, `start` the first bit of the open burst;
      `clean` says that no FIFO lap and no wrap of the loss counter has happened, `dropped` that
      some record found no room; `lost` counts the samples that flushes have thrown away, and
      `twice` the bits they have sent a second time. */
  datatype Log = Log(sent: seq<Sent>, items: seq<Item>, shipped: seq<byte>, base: nat, start: nat,
                     clean: bool, dropped: bool, lost: nat, twice: nat)
  {
    predicate Exact() { clean && lost == 0 && twice == 0 }
  }

  /** A flush delivers the samples up to `end` of n samples taken. */
  function AfterPartial(log: Log, n: nat, end: nat): Log {
    if n < end then log.(twice := log.twice + (end - n)) else log.(lost := log.lost + (n - end))
  }

  /** Where the records that end in a flushed partial byte end. */
  function TailEnds(sent: seq<Sent>): seq<nat> {
    if sent == [] then []
    else TailEnds(sent[..|sent| - 1]) +
         (var s := sent[|sent| - 1]; if ValidBits(s.rec.flags) > 0 then [s.End()] else [])
  }

  /** The open burst holds the bits from log.start to `end`; everything delivered before it
      is a slice, and a missing piece is remembered in the loss counter. */
  ghost predicate BitBooks(log: Log, all: seq<bit>, end: nat, buf: seq<byte>, tail: tailcount,
                           ovfRam: nat, ovfPioc: nat, restarts: seq<nat>)
  {
    && (log.clean ==> CountBooks(log, end, |buf|, tail, ovfRam, ovfPioc))
    && (log.Exact() ==>
          && log.base <= log.start <= end <= |all|
          && all[log.start..end] == BurstBits(buf, tail)
          && Delivered(all, log.base, log.sent)
          && SentEnd(log.base, log.sent) <= log.start
          && (ovfRam == 0 ==> SentEnd(log.base, log.sent) == log.start)
          && ovfPioc == 0
          && (!log.dropped ==> ovfRam == 0 && Lossless(log.sent) && TailEnds(log.sent) == restarts))
  }

  /** Every sample up to `end` is in a record, in the open burst, or was lost in a flush. */
  ghost predicate CountBooks(log: Log, end: nat, n: nat, tail: tailcount, ovfRam: nat, ovfPioc: nat) {
    && ovfPioc == 0 && log.base <= end
    && (!log.dropped ==>
          && ovfRam == 0 && Lossless(log.sent) && Tagged(log.sent)
          && log.base + SizeSent(log.sent) + BurstSize(n, tail) + log.lost == end + log.twice)
  }

  /** Only a terminal record ends in a partial byte. */
  predicate Tagged(sent: seq<Sent>) {
    forall s :: s in sent ==> TailTag(s.rec)
  }

  predicate TailTag(r: Record) {
    (Continued(r.flags) ==> ValidBits(r.flags) == 0) && (ValidBits(r.flags) > 0 ==> r.payload != [])
  }

  function BurstSize(n: nat, tail: tailcount): nat {
    if n == 0 || tail == 0 then 8 * n else 8 * (n - 1) + tail
  }

  lemma SizeOfBurst(payload: seq<byte>, tail: tailcount)
    ensures |BurstBits(payload, tail)| == BurstSize(|payload|, tail)
  {}

  function SizeSent(sent: seq<Sent>): nat {
    if sent == [] then 0
    else SizeSent(sent[..|sent| - 1]) +
         (var r := sent[|sent| - 1].rec; BurstSize(|r.payload|, ValidBits(r.flags)))
  }

  /** The books of an exact run, opened and closed. */
  lemma BooksOpened(log: Log, all: seq<bit>, end: nat, buf: seq<byte>, tail: tailcount,
                    ovfRam: nat, ovfPioc: nat, restarts: seq<nat>)
    requires BitBooks(log, all, end, buf, tail, ovfRam, ovfPioc, restarts) && log.Exact()
    ensures log.base <= log.start <= end <= |all| && all[log.start..end] == BurstBits(buf, tail)
    ensures Delivered(all, log.base, log.sent) && SentEnd(log.base, log.sent) <= log.start
    ensures (ovfRam == 0 ==> SentEnd(log.base, log.sent) == log.start) && ovfPioc == 0
    ensures !log.dropped ==> ovfRam == 0 && Lossless(log.sent) && TailEnds(log.sent) == restarts
  {
    hide BurstBits, Delivered, SentEnd, Lossless, TailEnds;
  }

  lemma BooksClosed(log: Log, all: seq<bit>, end: nat, buf: seq<byte>, tail: tailcount,
                    ovfRam: nat, ovfPioc: nat, restarts: seq<nat>)
    requires log.clean ==> CountBooks(log, end, |buf|, tail, ovfRam, ovfPioc)
    requires log.Exact() ==>
               && log.base <= log.start <= end <= |all| && all[log.start..end] == BurstBits(buf, tail)
               && Delivered(all, log.base, log.sent) && SentEnd(log.base, log.sent) <= log.start
               && (ovfRam == 0 ==> SentEnd(log.base, log.sent) == log.start) && ovfPioc == 0
               && (!log.dropped ==> ovfRam == 0 && Lossless(log.sent) && TailEnds(log.sent) == restarts)
    ensures BitBooks(log, all, end, buf, tail, ovfRam, ovfPioc, restarts)
  {
    hide BurstBits, Delivered, SentEnd, Lossless, TailEnds;
  }

  function Raws(sent: seq<Sent>): seq<seq<byte>> {
    if sent == [] then [] else Raws(sent[..|sent| - 1]) + [Serialized(sent[|sent| - 1].rec)]
  }

  /** Shipped bytes and staging ring together are the boundary sent at start-up and the framed
      items; the records among the items are the ones booked as sent. */
  ghost predicate WireBooks(log: Log, ring: seq<byte>) {
    && log.shipped + ring == [BOUNDARY] + WireAll(log.items)
    && (forall x :: x in log.items ==> Frameable(x))
    && RecsOf(log.items) == Raws(log.sent)
    && (forall s :: s in log.sent ==> s.rec.Valid() && s.rec.typ == TYPE_MDIO)
  }

  /** The last record staged announces a continuation. */
  predicate OpenChain(log: Log) {
    log.sent != [] && Continued(log.sent[|log.sent| - 1].rec.flags)
  }

  // ---- the bits ------------------------------------------------------------------------

  lemma {:induction false} DeliveredGrows(all: seq<bit>, more: seq<bit>, end: nat, sent: seq<Sent>)
    requires Delivered(all, end, sent) && all <= more
    ensures Delivered(more, end, sent)
    decreases |sent|
  {
    hide BurstBits, ValidBits, Overflowed, Continued;
    if sent != [] {
      DeliveredGrows(all, more, sent[0].End(), sent[1..]);
      assert SliceAt(all, sent[0].start, sent[0].Bits());
    }
  }

  lemma {:induction false} DeliveredSnoc(all: seq<bit>, end: nat, sent: seq<Sent>, s: Sent)
    requires Delivered(all, end, sent) && WellTagged(all, s) && Follows(SentEnd(end, sent), s)
    ensures Delivered(all, end, sent + [s])
    decreases |sent|
  {
    hide BurstBits, WellTagged, Follows;
    if sent == [] {
      assert (sent + [s])[1..] == [];
    } else {
      var rest := sent[1..];
      assert SentEnd(sent[0].End(), rest) == SentEnd(end, sent);
      DeliveredSnoc(all, sent[0].End(), rest, s);
      assert (sent + [s])[1..] == rest + [s];
    }
  }

  lemma BooksGrow(log: Log, all: seq<bit>, more: seq<bit>, end: nat, buf: seq<byte>, tail: tailcount,
                  ovfRam: nat, ovfPioc: nat, restarts: seq<nat>)
    requires BitBooks(log, all, end, buf, tail, ovfRam, ovfPioc, restarts) && all <= more
    ensures BitBooks(log, more, end, buf, tail, ovfRam, ovfPioc, restarts)
  {
    hide BurstBits, Delivered, SentEnd, Lossless, TailEnds, CountBooks;
    if log.Exact() {
      DeliveredGrows(all, more, log.base, log.sent);
    }
  }

  /** A drained byte joins the open burst. */
  lemma BooksByte(log: Log, all: seq<bit>, end: nat, buf: seq<byte>, b: byte,
                  ovfRam: nat, ovfPioc: nat, restarts: seq<nat>)
    requires BitBooks(log, all, end, buf, 0, ovfRam, ovfPioc, restarts)
    requires log.Exact() ==> end + 8 <= |all| && b == Val(all[end..end + 8])
    ensures BitBooks(log, all, end + 8, buf + [b], 0, ovfRam, ovfPioc, restarts)
  {
    hide *;
    if log.Exact() {
      var bits := all[end..end + 8];
      BooksOpened(log, all, end, buf, 0, ovfRam, ovfPioc, restarts);
      BitsOfVal(bits);
      OneByte(b);
      BurstBitsConcat(buf, [b], 0);
      WholeBurst(buf);
      assert all[log.start..end + 8] == all[log.start..end] + bits;
    }
    CountByte(log, all, end, buf, ovfRam, ovfPioc, restarts);
    BooksClosed(log, all, end + 8, buf + [b], 0, ovfRam, ovfPioc, restarts);
  }

  lemma CountByte(log: Log, all: seq<bit>, end: nat, buf: seq<byte>, ovfRam: nat, ovfPioc: nat, restarts: seq<nat>)
    requires BitBooks(log, all, end, buf, 0, ovfRam, ovfPioc, restarts)
    ensures log.clean ==> CountBooks(log, end + 8, |buf| + 1, 0, ovfRam, ovfPioc)
  {
    hide Lossless, SizeSent, Delivered, TailEnds, BurstBits;
  }

  lemma OneByte(b: byte)
    ensures BurstBits([b], 0) == ToBits(b, 8)
  {
    hide ToBits;
    assert [b][..0] == [];
  }

  lemma WholeBurst(buf: seq<byte>)
    ensures BurstBits(buf, 0) == BytesToBits(buf)
  {}

  /** The byte flushed for k pending samples, when n have been taken: MSB-justified. */
  lemma BooksPartial(log: Log, all: seq<bit>, end: nat, buf: seq<byte>, k: tailcount, b: byte, n: nat,
                     ovfRam: nat, ovfPioc: nat, restarts: seq<nat>)
    requires BitBooks(log, all, end, buf, 0, ovfRam, ovfPioc, restarts) && k > 0 && (log.clean ==> end <= n)
    requires log.Exact() && n == end + k ==> end + k <= |all| && b == Val(all[end..end + k]) * Pow2(8 - k)
    ensures BitBooks(AfterPartial(log, n, end + k), all, n, buf + [b], k, ovfRam, ovfPioc, restarts)
  {
    hide *;
    var next := AfterPartial(log, n, end + k);
    AfterPartialIs(log, n, end + k);
    if next.Exact() {
      var part := all[end..end + k];
      BooksOpened(log, all, end, buf, 0, ovfRam, ovfPioc, restarts);
      PartialByte(part, b);
      BurstBitsConcat(buf, [b], k);
      WholeBurst(buf);
      assert all[log.start..end + k] == all[log.start..end] + part;
    }
    CountPartial(log, all, end, buf, k, n, ovfRam, ovfPioc, restarts);
    BooksClosed(next, all, n, buf + [b], k, ovfRam, ovfPioc, restarts);
  }

  lemma AfterPartialIs(log: Log, n: nat, end: nat)
    ensures var next := AfterPartial(log, n, end);
            && next == log.(lost := next.lost, twice := next.twice)
            && (next.Exact() <==> log.Exact() && n == end)
  {}

  lemma CountPartial(log: Log, all: seq<bit>, end: nat, buf: seq<byte>, k: tailcount, n: nat, ovfRam: nat,
                     ovfPioc: nat, restarts: seq<nat>)
    requires BitBooks(log, all, end, buf, 0, ovfRam, ovfPioc, restarts) && k > 0 && (log.clean ==> end <= n)
    ensures log.clean ==> CountBooks(AfterPartial(log, n, end + k), n, |buf| + 1, k, ovfRam, ovfPioc)
  {
    hide Lossless, SizeSent, Delivered, TailEnds, BurstBits;
  }

  /** ... from which the host recovers exactly the samples. */
  lemma PartialByte(part: seq<bit>, b: byte)
    requires 0 < |part| < 8 && b == Val(part) * Pow2(8 - |part|)
    ensures BurstBits([b], |part|) == part
  {
    var k := |part|;
    BitsOfVal(part);
    ToBitsConcat(Val(part), k, 0, 8 - k);
    hide Val, Pow2, ToBits;
    assert BytesToBits([b][..0]) == [];
  }

  /** A staged record takes the open burst over; what follows starts where it ends. */
  lemma BooksSent(log: Log, all: seq<bit>, end: nat, buf: seq<byte>, tail: tailcount,
                  ovfRam: nat, ovfPioc: nat, restarts: seq<nat>, rec: Record, continued: bool)
    requires BitBooks(log, all, end, buf, tail, ovfRam, ovfPioc, restarts)
    requires rec.payload == buf && rec.flags == MakeFlags(ovfPioc > 0, ovfRam > 0, continued, tail as bv8)
    requires (continued ==> tail == 0) && (tail > 0 ==> buf != [])
    ensures var next := log.(sent := log.sent + [Sent(rec, log.start)], start := end);
            BitBooks(next, all, end, [], 0, 0, 0, if tail > 0 then restarts + [end] else restarts)
  {
    hide *;
    var s := Sent(rec, log.start);
    var next := log.(sent := log.sent + [s], start := end);
    var restarts' := if tail > 0 then restarts + [end] else restarts;
    ExactIs(log);
    ExactIs(next);
    TailFlag(tail);
    FlagsCarry(ovfPioc > 0, ovfRam > 0, continued, tail as bv8);
    if log.Exact() {
      BooksOpened(log, all, end, buf, tail, ovfRam, ovfPioc, restarts);
      NoBurst();
      SentBits(s);
      BooksSnoc(log, all, end, s, restarts);
      assert restarts + [] == restarts;
    }
    CountSent(log, all, end, buf, tail, ovfRam, ovfPioc, restarts, s);
    BooksClosed(next, all, end, [], 0, 0, 0, restarts');
  }

  lemma CountSent(log: Log, all: seq<bit>, end: nat, buf: seq<byte>, tail: tailcount, ovfRam: nat, ovfPioc: nat,
                  restarts: seq<nat>, s: Sent)
    requires BitBooks(log, all, end, buf, tail, ovfRam, ovfPioc, restarts)
    requires s.rec.payload == buf && ValidBits(s.rec.flags) == tail
    requires Overflowed(s.rec.flags) == (ovfPioc > 0 || ovfRam > 0)
    requires (Continued(s.rec.flags) ==> tail == 0) && (tail > 0 ==> buf != [])
    ensures log.clean ==> CountBooks(log.(sent := log.sent + [s], start := end), end, 0, 0, 0, 0)
  {
    hide Overflowed, ValidBits, Continued, BurstBits, Delivered, TailEnds;
    assert (log.sent + [s])[..|log.sent|] == log.sent;
  }

  lemma SentBits(s: Sent)
    ensures s.Bits() == BurstBits(s.rec.payload, ValidBits(s.rec.flags))
  {}

  lemma TailFlag(tail: tailcount)
    ensures (tail as bv8) as nat == tail && tail as bv8 < 8
  {}

  lemma NoBurst()
    ensures BurstBits([], 0) == []
  {}

  lemma BooksSnoc(log: Log, all: seq<bit>, end: nat, s: Sent, restarts: seq<nat>)
    requires log.start == s.start <= end <= |all| && all[s.start..end] == s.Bits()
    requires Continued(s.rec.flags) ==> ValidBits(s.rec.flags) == 0
    requires ValidBits(s.rec.flags) > 0 ==> s.rec.payload != []
    requires Delivered(all, log.base, log.sent) && SentEnd(log.base, log.sent) <= log.start
    requires !Overflowed(s.rec.flags) ==> SentEnd(log.base, log.sent) == log.start
    ensures var sent := log.sent + [s];
            && s.End() == end && Delivered(all, log.base, sent) && SentEnd(log.base, sent) == end
            && (Lossless(log.sent) && !Overflowed(s.rec.flags) ==> Lossless(sent))
            && (TailEnds(log.sent) == restarts ==>
                  TailEnds(sent) == restarts + (if ValidBits(s.rec.flags) > 0 then [end] else []))
  {
    hide *;
    SnocFacts(all, log.base, log.sent, s, end);
    DeliveredSnoc(all, log.base, log.sent, s);
  }

  lemma SnocFacts(all: seq<bit>, base: nat, sent: seq<Sent>, s: Sent, end: nat)
    requires s.start <= end <= |all| && all[s.start..end] == s.Bits() && SentEnd(base, sent) <= s.start
    requires Continued(s.rec.flags) ==> ValidBits(s.rec.flags) == 0
    requires ValidBits(s.rec.flags) > 0 ==> s.rec.payload != []
    requires !Overflowed(s.rec.flags) ==> SentEnd(base, sent) == s.start
    ensures s.End() == end && WellTagged(all, s) && Follows(SentEnd(base, sent), s)
    ensures SentEnd(base, sent + [s]) == end
    ensures Lossless(sent) && !Overflowed(s.rec.flags) ==> Lossless(sent + [s])
    ensures TailEnds(sent + [s]) == TailEnds(sent) + (if ValidBits(s.rec.flags) > 0 then [end] else [])
  {
    hide BurstBits, Overflowed, Continued, ValidBits;
    assert (sent + [s])[..|sent|] == sent;
  }

  /** A record without room is lost, and the counter says so. */
  lemma BooksDropped(log: Log, all: seq<bit>, end: nat, buf: seq<byte>, tail: tailcount,
                     ovfRam: nat, ovfPioc: nat, restarts: seq<nat>, ovfRam': nat, restarts': seq<nat>)
    requires BitBooks(log, all, end, buf, tail, ovfRam, ovfPioc, restarts)
    ensures var next := log.(start := end, dropped := true, clean := log.clean && ovfRam' > 0);
            BitBooks(next, all, end, [], 0, ovfRam', ovfPioc, restarts')
  {
    hide Delivered, SentEnd, Lossless, TailEnds, SizeSent, Tagged;
    NoBurst();
  }

  // ---- the wire -------------------------------------------------------------------------

  lemma WireItem(log: Log, ring: seq<byte>, x: Item)
    requires WireBooks(log, ring) && Frameable(x) && !x.Rec?
    ensures WireBooks(log.(items := log.items + [x]), ring + Wire(x))
  {
    hide Frameable, Wire;
    ProjectSnoc(log.items, x);
    WireSnoc(log, ring, x);
  }

  lemma WireSnoc(log: Log, ring: seq<byte>, x: Item)
    requires log.shipped + ring == [BOUNDARY] + WireAll(log.items)
    ensures log.shipped + (ring + Wire(x)) == [BOUNDARY] + WireAll(log.items + [x])
  {
    hide Wire;
    assert (log.items + [x])[..|log.items|] == log.items;
    var w := Wire(x);
    assert log.shipped + (ring + w) == (log.shipped + ring) + w;
    assert [BOUNDARY] + (WireAll(log.items) + w) == ([BOUNDARY] + WireAll(log.items)) + w;
  }

  lemma WireRecord(log: Log, ring: seq<byte>, s: Sent)
    requires WireBooks(log, ring) && s.rec.Valid() && s.rec.typ == TYPE_MDIO
    ensures WireBooks(log.(items := log.items + [Rec(Serialized(s.rec))], sent := log.sent + [s]),
                      ring + Framed(Serialized(s.rec)))
  {
    hide *;
    RecordIsItem(s.rec);
    var raw := Serialized(s.rec);
    ProjectSnoc(log.items, Rec(raw));
    WireOpened(log, ring);
    WireSnoc(log, ring, Rec(raw));
    RecordBooked(log, ring, s, raw);
  }

  lemma WireOpened(log: Log, ring: seq<byte>)
    requires WireBooks(log, ring)
    ensures log.shipped + ring == [BOUNDARY] + WireAll(log.items)
  {
    hide WireAll;
  }

  lemma RecordBooked(log: Log, ring: seq<byte>, s: Sent, raw: seq<byte>)
    requires WireBooks(log, ring) && raw == Serialized(s.rec) && s.rec.Valid() && s.rec.typ == TYPE_MDIO
    requires Frameable(Rec(raw)) && RecsOf(log.items + [Rec(raw)]) == RecsOf(log.items) + [raw]
    requires log.shipped + (ring + Framed(raw)) == [BOUNDARY] + WireAll(log.items + [Rec(raw)])
    ensures WireBooks(log.(items := log.items + [Rec(raw)], sent := log.sent + [s]), ring + Framed(raw))
  {
    hide Frameable, WireAll, RecsOf, Serialized, Framed;
    assert (log.sent + [s])[..|log.sent|] == log.sent;
  }

  lemma RecordIsItem(r: Record)
    requires r.Valid() && r.typ == TYPE_MDIO
    ensures Frameable(Rec(Serialized(r))) && Wire(Rec(Serialized(r))) == Framed(Serialized(r))
  {
    var raw := Serialized(r);
    assert raw[0] == r.typ;
    hide Framed;
  }

  /** The bit books do not look at the wire. */
  lemma BooksWireFree(log: Log, items: seq<Item>, shipped: seq<byte>, all: seq<bit>, end: nat, buf: seq<byte>,
                      tail: tailcount, ovfRam: nat, ovfPioc: nat, restarts: seq<nat>)
    requires BitBooks(log, all, end, buf, tail, ovfRam, ovfPioc, restarts)
    ensures BitBooks(log.(items := items, shipped := shipped), all, end, buf, tail, ovfRam, ovfPioc, restarts)
  {
    hide BurstBits, Delivered, SentEnd, Lossless, TailEnds, SizeSent, Tagged;
  }

  lemma WireShip(log: Log, ring: seq<byte>, n: nat)
    requires WireBooks(log, ring) && n <= |ring|
    ensures WireBooks(log.(shipped := log.shipped + ring[..n]), ring[n..])
  {
    assert ring == ring[..n] + ring[n..];
    assert log.shipped + ring == (log.shipped + ring[..n]) + ring[n..];
  }

  lemma WireStart(log: Log)
    requires log.sent == [] && log.items == [] && log.shipped == []
    ensures WireBooks(log, [BOUNDARY])
  {}

  // ---- the host's view --------------------------------------------------------------------

  lemma {:induction false} RecordsRead(sent: seq<Sent>)
    requires forall s :: s in sent ==> s.rec.Valid() && s.rec.typ == TYPE_MDIO
    ensures RecordsOf(Raws(sent)) == RecordsSent(sent)
    decreases |sent|
  {
    hide Serialized, Parse;
    if sent != [] {
      var init, s := sent[..|sent| - 1], sent[|sent| - 1];
      RecordsRead(init);
      ParseSerialized(s.rec);
      assert Raws(sent)[..|Raws(sent)| - 1] == Raws(init);
      RecordsSentSnoc(init, s);
      assert init + [s] == sent;
    }
  }

  lemma {:induction false} RecordsSentSnoc(sent: seq<Sent>, s: Sent)
    ensures RecordsSent(sent + [s]) == RecordsSent(sent) + [s.rec]
    decreases |sent|
  {
    if sent != [] {
      RecordsSentSnoc(sent[1..], s);
      assert (sent + [s])[1..] == sent[1..] + [s];
    }
  }

  /** Once the staging ring is empty, the host has read exactly the records sent. */
  lemma HostReads(log: Log)
    requires WireBooks(log, [])
    ensures RecordsOf(RecsOf(Demux([], log.shipped))) == RecordsSent(log.sent)
  {
    DemuxAfterGarbage([], log.items);
    RecordsRead(log.sent);
    hide RecordsOf, RecsOf, RecordsSent, Raws, WireAll;
    var w := WireAll(log.items);
    assert log.shipped == log.shipped + [];
    assert [] + [BOUNDARY] + w == log.shipped;
    DemuxEnd([], []);
    SegmentOfNothing();
    assert [] + log.items == log.items;
  }

  /** The bits of the bursts, counted. */
  lemma {:induction false} SizeOfBursts(c: Chain, sent: seq<Sent>)
    requires Lossless(sent) && Tagged(sent) && Terminated(c, sent) && (c.t0.None? ==> c == NO_CHAIN)
    ensures |BitsOf(Bursts(c, RecordsSent(sent)))| == 8 * |c.pay| + SizeFirst(sent)
    decreases |sent|
  {
    hide *;
    if sent == [] {
      NoneSent(c);
    } else {
      var s, rest := sent[0], sent[1..];
      FirstTagged(sent);
      FirstRecord(c, sent);
      LosslessStep(c, sent);
      var d := Extend(c, s.rec);
      ExtendFields(c, s.rec);
      SizeOfBurst(d.pay, ValidBits(s.rec.flags));
      SizeAdds(c.pay, s.rec.payload, ValidBits(s.rec.flags));
      if Continued(s.rec.flags) {
        SizeOfBursts(d, rest);
      } else {
        NoChainSize();
        SizeOfBursts(NO_CHAIN, rest);
        ClosedBurst(d, s.rec);
        BitsCons(Close(d, s.rec), Bursts(NO_CHAIN, RecordsSent(rest)));
      }
    }
  }

  function SizeFirst(sent: seq<Sent>): nat {
    if sent == [] then 0 else BurstSize(|sent[0].rec.payload|, ValidBits(sent[0].rec.flags)) + SizeFirst(sent[1..])
  }

  lemma NoneSent(c: Chain)
    requires Terminated(c, []) && (c.t0.None? ==> c == NO_CHAIN)
    ensures |BitsOf(Bursts(c, RecordsSent([])))| == 8 * |c.pay| + SizeFirst([])
  {}

  lemma NoChainSize()
    ensures NO_CHAIN.t0.None? && |NO_CHAIN.pay| == 0
  {}

  lemma FirstTagged(sent: seq<Sent>)
    requires sent != [] && Lossless(sent) && Tagged(sent)
    ensures TailTag(sent[0].rec) && Lossless(sent[1..]) && Tagged(sent[1..]) && !Overflowed(sent[0].rec.flags)
    ensures Continued(sent[0].rec.flags) ==> ValidBits(sent[0].rec.flags) == 0
    ensures ValidBits(sent[0].rec.flags) > 0 ==> sent[0].rec.payload != []
    ensures SizeFirst(sent) == BurstSize(|sent[0].rec.payload|, ValidBits(sent[0].rec.flags)) + SizeFirst(sent[1..])
  {
    hide Overflowed, Continued, ValidBits;
    assert sent[0] in sent;
  }

  lemma SizeAdds(a: seq<byte>, b: seq<byte>, tail: tailcount)
    requires tail > 0 ==> b != []
    ensures BurstSize(|a + b|, tail) == 8 * |a| + BurstSize(|b|, tail)
    ensures tail == 0 ==> BurstSize(|b|, tail) == 8 * |b|
  {}

  lemma BitsCons(b: Burst, bs: seq<Burst>)
    ensures |BitsOf([b] + bs)| == |BurstBits(b.payload, b.validBits)| + |BitsOf(bs)|
  {
    hide BurstBits;
    assert ([b] + bs)[1..] == bs;
  }

  lemma {:induction false} SizeSplits(sent: seq<Sent>)
    ensures SizeFirst(sent) == SizeSent(sent)
    decreases |sent|
  {
    hide ValidBits;
    if |sent| == 1 {
      assert sent[..0] == [] && sent[1..] == [];
    } else if |sent| > 1 {
      var n := |sent| - 1;
      SizeSplits(sent[1..]);
      SizeSplits(sent[..n]);
      SizeSplits(sent[1..n]);
      assert sent[1..][..n - 1] == sent[1..n] && sent[..n][1..] == sent[1..n];
    }
  }

  /** Clocked end to end: with the ring drained, nothing pending, no record dropped and no lap, the
      host gets from the wire as many bits as were sampled, less those that flushes have lost and
      with those they have sent twice. If there are only lost ones, or only doubled ones, the bits
      are the sampled bits, partial tails included, if and only if there are none; and then bursts
      end in a partial byte exactly where the eMCU was restarted. */
  lemma HostSeesThePin(log: Log, all: seq<bit>, restarts: seq<nat>)
    requires log.clean && !log.dropped && !OpenChain(log)
    requires BitBooks(log, all, |all|, [], 0, 0, 0, restarts) && WireBooks(log, [])
    ensures var bits := BitsOf(Bursts(NO_CHAIN, RecordsOf(RecsOf(Demux([], log.shipped)))));
            && |bits| + log.lost + log.base == |all| + log.twice
            && log.base <= |all|
            && (log.lost == 0 || log.twice == 0 ==> (bits == all[log.base..] <==> log.lost == log.twice))
    ensures log.lost == log.twice == 0 ==> TailEnds(log.sent) == restarts
  {
    hide *;
    HostReads(log);
    NoChainSize();
    CountOpened(log, all, restarts);
    SizeOfBursts(NO_CHAIN, log.sent);
    SizeSplits(log.sent);
    if log.lost == log.twice == 0 {
      HostSeesBits(log, all, restarts);
    }
  }

  lemma CountOpened(log: Log, all: seq<bit>, restarts: seq<nat>)
    requires log.clean && !log.dropped && !OpenChain(log) && BitBooks(log, all, |all|, [], 0, 0, 0, restarts)
    ensures Lossless(log.sent) && Tagged(log.sent) && Terminated(NO_CHAIN, log.sent)
    ensures log.base <= |all| && log.base + SizeSent(log.sent) + log.lost == |all| + log.twice
  {
    hide Lossless, Tagged, SizeSent, Delivered, TailEnds, BurstBits, Continued;
  }

  lemma HostSeesBits(log: Log, all: seq<bit>, restarts: seq<nat>)
    requires log.clean && log.lost == log.twice == 0 && !log.dropped && !OpenChain(log)
    requires BitBooks(log, all, |all|, [], 0, 0, 0, restarts) && WireBooks(log, [])
    ensures log.base <= |all| && TailEnds(log.sent) == restarts
    ensures BitsOf(Bursts(NO_CHAIN, RecordsOf(RecsOf(Demux([], log.shipped))))) == all[log.base..]
  {
    hide *;
    ExactIs(log);
    HostReads(log);
    NoBurst();
    NoChain(all, log.base);
    BooksOpened(log, all, |all|, [], 0, 0, 0, restarts);
    EndOfBurst(log, all);
    var bs := SeamsAreFlagged(all, NO_CHAIN, log.base, log.base, log.base, log.sent);
    GapFree(all, log.base, bs);
    assert all[log.base..|all|] == all[log.base..];
  }

  lemma ExactIs(log: Log)
    ensures log.Exact() <==> log.clean && log.lost == log.twice == 0
  {}

  lemma EndOfBurst(log: Log, all: seq<bit>)
    requires log.start <= |all| && all[log.start..|all|] == [] && !OpenChain(log)
    ensures log.start == |all| && Terminated(NO_CHAIN, log.sent)
  {}

  /** Loss seams, from the wire: with records dropped anywhere, every logical burst is a slice
      of the sampled bits, in order and disjoint, and each hole is flagged; the hunter's
      stretches are slices too. */
  lemma HostSeesSlices(log: Log, all: seq<bit>, end: nat, buf: seq<byte>, tail: tailcount,
                       ovfRam: nat, ovfPioc: nat, restarts: seq<nat>)
    returns (bs: seq<Placed>, starts: seq<nat>)
    requires log.Exact() && WireBooks(log, [])
    requires BitBooks(log, all, end, buf, tail, ovfRam, ovfPioc, restarts)
    ensures Bursts(NO_CHAIN, RecordsOf(RecsOf(Demux([], log.shipped)))) == BurstsPlaced(bs)
    ensures Seamed(all, log.base, bs)
    ensures Slices(all, starts, Stretches([], BurstsPlaced(bs)))
  {
    HostReads(log);
    NoChain(all, log.base);
    hide Bursts, RecordsSent, RecordsOf, RecsOf, Demux, WireBooks, Delivered, ChainHolds, BurstBits, Seamed, Slices,
         Stretches, CountBooks;
    bs := SeamsAreFlagged(all, NO_CHAIN, log.base, log.base, log.base, log.sent);
    starts := StretchesAreSlices(all, log.base, log.base, bs);
    assert all[log.base..log.base] == [];
  }
}
