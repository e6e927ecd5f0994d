/** The clocked datapath of the firmware (src/sniffer/clocked_sniffer.cpp): the main loop
    drains the 16-slot FIFO into timestamped bursts, frames them into the staging ring and
    ships the ring to USB. The capture program runs on between any two register reads. */
module ClockedSniffer {
  import opened Bytes
  import opened Cobs
  import opened RecordFramer
  import opened HostCapture
  import opened ClockedBlob
  import opened ClockedCalls
  import opened ClockedLedger
  import opened ClockedTimes

  const RING_SZ: nat := 2048
  const ONSET_N: nat := 8
  const DRAIN_MAX: nat := 192

  /** "[MODE clocked wire=2]" */
  const MARKER: seq<byte> := [0x5B, 0x4D, 0x4F, 0x44, 0x45, 0x20, 0x63, 0x6C, 0x6F, 0x63, 0x6B, 0x65,
                              0x64, 0x20, 0x77, 0x69, 0x72, 0x65, 0x3D, 0x32, 0x5D]

  function Cap16(us: nat): uint16 { if us > 0xFFFF then 0xFFFF else us }

  /** The record emitRecord builds for a burst. */
  function BurstRecord(t0: uint32, last: uint32, onset: uint16, flags: bv8, payload: seq<byte>): (r: Record)
    requires |payload| <= BURST_MAX
    ensures r.Valid() && r.typ == TYPE_MDIO && r.payload == payload && r.flags == flags
  {
    Record(TYPE_MDIO, t0, Cap16(Since(last, t0)), onset, flags, payload)
  }

  /** The sentinel position of the accumulator: v >>= 1 until nothing is left. */
  method PartialBits(acc: byte) returns (kbits: nat)
    ensures kbits < 8 && kbits == Top(acc)
    ensures acc > 0 ==> Pow2(kbits) <= acc < 2 * Pow2(kbits)
    ensures acc == 0 ==> kbits == 0
  {
    hide Top;
    TopIs(acc);
    kbits := 0;
    var v: nat := acc / 2;
    while v > 0
      invariant kbits < 8 && v * Pow2(kbits + 1) <= acc < (v + 1) * Pow2(kbits + 1)
      invariant v == 0 && acc > 0 ==> Pow2(kbits) <= acc
      invariant acc > 0 ==> Pow2(kbits) <= acc
      invariant acc == 0 ==> kbits == 0
      decreases v
    {
      HalveStep(acc, v, kbits);
      kbits := kbits + 1;
      v := v / 2;
    }
    if acc > 0 {
      SameExponent(acc, kbits, Top(acc));
    }
  }

  lemma HalveStep(acc: byte, v: nat, k: nat)
    requires v > 0 && k < 8 && v * Pow2(k + 1) <= acc < (v + 1) * Pow2(k + 1)
    ensures k < 7 && Pow2(k + 1) <= acc
    ensures (v / 2) * Pow2(k + 2) <= acc < (v / 2 + 1) * Pow2(k + 2)
  {
    assert Pow2(8) == 256 && Pow2(k + 2) == 2 * Pow2(k + 1);
    hide Pow2;
    HalveProduct(acc, v, Pow2(k + 1));
  }

  lemma HalveProduct(acc: nat, v: nat, p: nat)
    requires v > 0 && p > 0 && v * p <= acc < (v + 1) * p
    ensures p <= acc && (v / 2) * (2 * p) <= acc < (v / 2 + 1) * (2 * p)
  {
    var h := v / 2;
    if v == 2 * h {
      assert h * (2 * p) == v * p && (h + 1) * (2 * p) == v * p + p + p;
    } else {
      assert v == 2 * h + 1;
      assert h * (2 * p) == v * p - p && (h + 1) * (2 * p) == (v + 1) * p;
    }
  }

  /** (acc & ((1 << k) - 1)) << (8 - k). */
  function Justified(acc: byte, k: nat): byte
    requires 0 < k < 8
  {
    JustifiedFits(acc, k);
    (acc % Pow2(k)) * Pow2(8 - k)
  }

  lemma JustifiedFits(acc: nat, k: nat)
    requires 0 < k < 8
    ensures (acc % Pow2(k)) * Pow2(8 - k) < 256
  {
    var p, q, r := Pow2(k), Pow2(8 - k), acc % Pow2(k);
    Pow2Add(k, 8 - k);
    assert Pow2(8) == 256;
    assert r + 1 <= p;
    assert (r + 1) * q <= p * q;
    assert (r + 1) * q == r * q + q;
  }

  /** What a decided call has done to the books: a flush delivers the drained samples and as many
      more as it read from ACC. Nothing is lost or doubled exactly if samples were pending then, no byte
      was complete but unseen, and no sample has come since; bits are sent twice exactly if no sample
      was pending, because ACC still held the byte drained last. */
  ghost predicate Decided(c: Call, nowMs: uint32, restarts: seq<nat>, restarts': seq<nat>, log: Log, log': Log,
                          samples: nat)
  {
    && restarts' == restarts + (if Flushes(c, nowMs) then [samples] else [])
    && c.at <= samples
    && (log'.clean ==>
          if Flushes(c, nowMs) then
            && log'.lost + log.twice + c.end + c.kbits == log.lost + log'.twice + samples
            && log.lost <= log'.lost && log.twice <= log'.twice
            && (log'.lost == log.lost && log'.twice == log.twice <==> samples == c.at && c.end < c.at < c.end + 8)
            && (log'.twice > log.twice <==> c.at == c.end)
          else log'.lost == log.lost && log'.twice == log.twice)
  }

  class ClockedSniffer {
    const blob: Blob
    const burstBuf: array<byte>
    var ring: seq<byte>            // contents of the staging Ring<2048>
    var ovfRam: uint16
    var ovfPioc: uint16
    var sniffTail: byte
    var sniffLastMs: uint32
    var partialSeenMs: uint32
    var partialSeenBits: nat
    var burstN: nat
    var burstT0: uint32
    var burstLast: uint32
    var burstOnset: uint16
    var burstOpen: bool
    var burstNeedTerminal: bool
    var tailBits: tailcount
    var modeHbMs: uint32
    ghost var log: Log
    ghost var taken: nat           // bytes drained since the last restart
    ghost var clock: seq<Stamp>    // every byte drained since start-up
    ghost var placed: seq<Place>   // where they stand in the records sent

    ghost predicate Shape()
      reads this, burstBuf
    {
      && burstBuf.Length == BURST_MAX && burstN <= BURST_MAX && (!burstOpen ==> burstN == 0)
      && |ring| <= RING_SZ && WireBooks(log, ring) && burstNeedTerminal == OpenChain(log)
    }

    ghost predicate Cursor()
      reads this, blob
    {
      && blob.Valid()
      && (log.clean ==> sniffTail == taken % 256 && taken <= blob.Published())
    }

    /** The books, with the drained bytes as the end of the open burst. */
    ghost predicate Books()
      reads this, blob, burstBuf
      requires burstBuf.Length == BURST_MAX && burstN <= BURST_MAX
    {
      BitBooks(log, blob.all, blob.epoch + 8 * taken, burstBuf[..burstN], 0, ovfRam, ovfPioc, blob.restarts)
    }

    /** What holds between any two calls of service(). */
    ghost predicate Valid()
      reads this, blob, burstBuf
    {
      Shape() && Cursor() && Books() && burstN < BURST_MAX && tailBits == 0
    }

    ghost function Front(): Face
      reads this, blob
    {
      Face(burstOpen, burstNeedTerminal, burstN, burstT0, sniffLastMs, partialSeenBits, partialSeenMs, taken,
           blob.View())
    }

    /** The state is f; if records were dropped, except that a chain may be open or not. */
    ghost predicate Chained(f: Face)
      reads this, blob
    {
      Front() == f.(need := burstNeedTerminal) && (!log.dropped ==> Front() == f)
    }

    /** What the times in the records depend on. */
    ghost function Watching(): Watch
      reads this`log, this`clock, this`placed, this`burstOpen, this`burstN, this`tailBits, this`burstT0,
            this`burstOnset
    {
      Watch(clock, placed, log.sent, log.dropped, log.Exact(), log.start, burstOpen,
            Whole(burstN, tailBits), burstT0, burstOnset)
    }

    /** The records sent and the open burst have the times of their bytes. */
    ghost predicate Timely()
      reads this`log, this`clock, this`placed, this`burstOpen, this`burstN, this`tailBits, this`burstT0,
            this`burstOnset
    {
      Keeps(Watching())
    }

    /** The time of the last byte is that behind the last byte drained. */
    ghost predicate Current()
      reads this`clock, this`burstOpen, this`burstLast
    {
      burstOpen ==> clock != [] && burstLast == clock[|clock| - 1].after
    }

    /** The burst to be sent has its times: those of its bytes, or, without any, all from one reading. */
    ghost predicate Due(continued: bool, closed: uint32)
      reads this`log, this`clock, this`placed, this`burstOpen, this`burstN, this`tailBits, this`burstT0,
            this`burstOnset, this`burstLast
    {
      var w := Watching();
      && Filed(w) && Opened(w) && (tailBits > 0 ==> burstN > 0)
      && if w.n == 0 then burstT0 == burstLast == closed && burstOnset == 0
         else w.clock != [] && burstLast == (if continued then w.clock[|w.clock| - 1].fills
                                             else w.clock[|w.clock| - 1].after)
    }

    /** begin(): the capture program is already running on `blob`. */
    constructor (blob: Blob, nowMs: uint32)
      requires blob.Valid() && blob.restarts == []
      ensures Valid() && this.blob == blob && fresh(burstBuf)
      ensures log == Log([], [Meta(MARKER)], [], blob.epoch + 8 * blob.Published(),
                         blob.epoch + 8 * blob.Published(), true, false, 0, 0)
      ensures ring == [BOUNDARY] + Wire(Meta(MARKER))
      ensures Front() ==
              Face(false, false, 0, 0, nowMs, 0, nowMs, blob.Published(), blob.View())
      ensures Timely() && Current() && clock == []
    {
      hide WireBooks, BitBooks, OpenChain, Blob.Valid, Wire, Timely;
      StartCursor(blob);
      this.blob := blob;
      burstBuf := new byte[BURST_MAX];
      ring := [];
      ovfRam, ovfPioc := 0, 0;
      sniffTail := blob.head;
      sniffLastMs, partialSeenMs, partialSeenBits := nowMs, nowMs, 0;
      burstN, burstT0, burstLast, burstOnset, burstOpen, burstNeedTerminal := 0, 0, 0, 0, false, false;
      tailBits := 0;
      clock, placed := [], [];
      modeHbMs := (nowMs + 1000) % WORD32;
      taken := blob.Published();
      var base := blob.epoch + 8 * blob.Published();
      log := Log([], [], [], base, base, true, false, 0, 0);
      new;
      ring := [BOUNDARY];
      WireStart(log);
      BooksOpen(log, blob.all);
      assert burstBuf[..burstN] == [];
      NoneOpen(log);
      MarkerFits();
      EmitModeMarker();
      BooksWireFree(Log([], [], [], base, base, true, false, 0, 0), log.items, [], blob.all, base, [], 0, 0, 0, []);
      NothingYet(this);
    }

    /** ringPush: whole or not at all. */
    method RingPush(p: seq<byte>)
      requires |ring| <= RING_SZ
      modifies this`ring, this`ovfRam
      ensures if |old(ring)| + |p| <= RING_SZ then ring == old(ring) + p && ovfRam == old(ovfRam)
              else ring == old(ring) && ovfRam == (old(ovfRam) + 1) % WORD16
    {
      if RING_SZ - |ring| < |p| {
        ovfRam := (ovfRam + 1) % WORD16;
      } else {
        ring := ring + p;
      }
    }

    method EmitModeMarker()
      requires Shape()
      modifies this`ring, this`ovfRam, this`log
      ensures Shape() && ovfRam == old(ovfRam)
      ensures if |old(ring)| + |Wire(Meta(MARKER))| <= RING_SZ
              then ring == old(ring) + Wire(Meta(MARKER)) && log == old(log).(items := old(log).items + [Meta(MARKER)])
              else ring == old(ring) && log == old(log)
    {
      hide WireBooks;
      var out := new byte[40];
      var w := FrameMeta(MARKER, out);
      MarkerIsMeta();
      if w > 0 && RING_SZ - |ring| >= w {
        assert out[..w] == Wire(Meta(MARKER));
        WireItem(log, ring, Meta(MARKER));
        RingPush(out[..w]);
        log := log.(items := log.items + [Meta(MARKER)]);
      }
    }

    /** Lay the record out in the scratch buffer, byte by byte. */
    method WriteRecord(rec: array<byte>, t0: uint32, dur: uint16, onset: uint16, flags: bv8) returns (k: nat)
      requires rec.Length == RECORD_MAX && burstBuf.Length == BURST_MAX && burstN <= BURST_MAX && rec != burstBuf
      modifies rec
      ensures k <= rec.Length
      ensures rec[..k] == Serialized(Record(TYPE_MDIO, t0, dur, onset, flags, burstBuf[..burstN]))
    {
      hide Header, Le16, Le32;
      ghost var r := Record(TYPE_MDIO, t0, dur, onset, flags, burstBuf[..burstN]);
      var h := HeaderBytes(TYPE_MDIO, t0, dur, onset, flags, burstN);
      HeaderBytesAre(r);
      k := 0;
      while k < HEADER_LEN
        invariant k <= HEADER_LEN
        invariant rec[..k] == h[..k]
      {
        rec[k] := h[k];
        k := k + 1;
      }
      var i := 0;
      while i < burstN
        invariant i <= burstN && k == HEADER_LEN + i
        invariant rec[..k] == h + burstBuf[..i]
      {
        rec[k] := burstBuf[i];
        k := k + 1;
        i := i + 1;
      }
    }

    /** The record the open burst makes. */
    ghost function Pending(continued: bool): Record
      reads this, burstBuf
      requires burstBuf.Length == BURST_MAX && burstN <= BURST_MAX
    {
      BurstRecord(burstT0, burstLast, burstOnset, MakeFlags(ovfPioc > 0, ovfRam > 0, continued, tailBits as bv8),
                  burstBuf[..burstN])
    }

    /** Frame the open burst; the scratch buffers hold the longest record exactly. */
    method EncodeRecord(continued: bool) returns (enc: array<byte>, m: nat)
      requires burstBuf.Length == BURST_MAX && burstN <= BURST_MAX
      ensures m <= enc.Length && enc[..m] == Framed(Serialized(Pending(continued)))
    {
      hide Serialized, Framed, MakeFlags;
      var rec := new byte[RECORD_MAX];
      var d := Since(burstLast, burstT0);
      var flags := MakeFlags(ovfPioc > 0, ovfRam > 0, continued, tailBits as bv8);
      var k := WriteRecord(rec, burstT0, if d > 0xFFFF then 0xFFFF else d, burstOnset, flags);
      assert rec[..k] == Serialized(Pending(continued));
      RecordFits(rec[..k]);
      enc := new byte[ENC_MAX];
      m := FrameRecord(rec, k, enc);
    }

    /** Encode the open burst as a record and stage it, whole or not at all. The ghost
        arguments say up to which sampled bit the burst reaches. */
    method EmitRecord(continued: bool, ghost all: seq<bit>, ghost end: nat, ghost restarts: seq<nat>,
                      ghost closed: uint32)
      requires Shape()
      requires BitBooks(log, all, end, burstBuf[..burstN], tailBits, ovfRam, ovfPioc, restarts)
      requires (continued ==> tailBits == 0) && (tailBits > 0 ==> burstN > 0)
      modifies this`ring, this`ovfRam, this`ovfPioc, this`burstOpen, this`burstN, this`burstNeedTerminal, this`log,
               this`placed
      ensures Shape() && !burstOpen && burstN == 0
      ensures BitBooks(log, all, end, [], 0, ovfRam, ovfPioc,
                       if tailBits > 0 then restarts + [end] else restarts)
      ensures Kept(old(log), log) && StillClean(old(log), log)
      ensures !old(Silent(continued)) && burstNeedTerminal != continued ==> log.dropped
      ensures Emission(old(Silent(continued)), old(Pending(continued)), end, old(log), log, old(ring), ring,
                       old(ovfRam), ovfRam, old(ovfPioc), ovfPioc, old(burstNeedTerminal), burstNeedTerminal)
      ensures placed == old(placed) || placed == old(placed) + [LastPlace(|clock|, Whole(old(burstN), tailBits), closed)]
      ensures Placing(old(placed), placed, closed) && (old(Due(continued, closed)) ==> Timely())
    {
      hide WireBooks, BitBooks, Serialized, Framed, MakeFlags, OpenChain, BurstRecord, Emission, Keeps, Filed, Opened, Tells;
      if !burstOpen && !(burstNeedTerminal && !continued) {
        assert burstBuf[..burstN] == [];
        NoEmission(Pending(continued), end, log, ring, ovfRam, ovfPioc, burstNeedTerminal);
        KeepsClosed(Watching());
        return;
      }
      var enc, m := EncodeRecord(continued);
      ghost var w, due, log0, rec, ring0 := Watching(), Due(continued, closed), log, Pending(continued), ring;
      ghost var pioc0, ram0, buf, need0 := ovfPioc, ovfRam, burstBuf[..burstN], burstNeedTerminal;
      StageRecord(enc[..m], continued, all, end, restarts, closed);
      if due {
        PendingTells(w, burstLast, tailBits, continued, closed, pioc0 > 0, ram0 > 0, buf, rec);
        EmissionKeeps(w, Watching(), closed, rec, end, log0, log, ring0, ring, ram0, ovfRam, pioc0, ovfPioc, need0,
                      burstNeedTerminal);
      }
    }

    /** The framed record goes into the ring whole, or is counted as lost. */
    method StageRecord(framed: seq<byte>, continued: bool, ghost all: seq<bit>, ghost end: nat,
                       ghost restarts: seq<nat>, ghost closed: uint32)
      requires Shape() && framed == Framed(Serialized(Pending(continued)))
      requires BitBooks(log, all, end, burstBuf[..burstN], tailBits, ovfRam, ovfPioc, restarts)
      requires (continued ==> tailBits == 0) && (tailBits > 0 ==> burstN > 0)
      modifies this`ring, this`ovfRam, this`ovfPioc, this`burstOpen, this`burstN, this`burstNeedTerminal, this`log,
               this`placed
      ensures Shape() && !burstOpen && burstN == 0
      ensures BitBooks(log, all, end, [], 0, ovfRam, ovfPioc,
                       if tailBits > 0 then restarts + [end] else restarts)
      ensures Kept(old(log), log) && StillClean(old(log), log)
      ensures burstNeedTerminal != continued ==> log.dropped
      ensures Emission(false, old(Pending(continued)), end, old(log), log, old(ring), ring,
                       old(ovfRam), ovfRam, old(ovfPioc), ovfPioc, old(burstNeedTerminal), burstNeedTerminal)
      ensures placed == old(placed) + if |log.sent| == |old(log.sent)| then []
                                      else [LastPlace(|clock|, Whole(old(burstN), tailBits), closed)]
    {
      hide WireBooks, BitBooks, Serialized, Framed, MakeFlags, OpenChain, Since, Cap16, BurstRecord;
      ghost var buf := burstBuf[..burstN];
      ghost var r := Pending(continued);
      if RING_SZ - |ring| >= |framed| {
        RecordStaged(log, ring, all, end, buf, tailBits, ovfRam, ovfPioc, restarts, r, continued);
        RingPush(framed);
        log := log.(sent := log.sent + [Sent(r, log.start)], items := log.items + [Rec(Serialized(r))], start := end);
        ovfPioc, ovfRam := 0, 0;
        placed := placed + [LastPlace(|clock|, Whole(burstN, tailBits), closed)];
        burstNeedTerminal := continued;
      } else {
        ovfRam := (ovfRam + 1) % WORD16;
        RecordDropped(log, ring, all, end, buf, tailBits, old(ovfRam), ovfPioc, restarts, ovfRam);
        log := log.(start := end, dropped := true, clean := log.clean && ovfRam > 0);
      }
      burstOpen := false;
      burstN := 0;
    }

    /** The capture program runs on; everything booked stays true. */
    method RunOn(levels: seq<bit>)
      requires Valid()
      modifies blob
      ensures Valid() && blob.epoch == old(blob.epoch) && blob.restarts == old(blob.restarts)
      ensures old(blob.all) <= blob.all && old(blob.Published()) <= blob.Published()
      ensures old(blob.stored) <= blob.stored && Front() == Onward(old(Front()), levels)
    {
      hide WireBooks, BitBooks, OpenChain, Blob.Valid, Ahead;
      blob.Run(levels);
      BooksGrow(log, old(blob.all), blob.all, blob.epoch + 8 * taken, burstBuf[..burstN], 0, ovfRam, ovfPioc,
                blob.restarts);
    }

    /** Read the slot under the cursor; the program runs `levels` further before that. */
    method ReadSlot(levels: seq<bit>) returns (b: byte)
      requires Valid() && (log.clean ==> taken < blob.Published())
      modifies this`log, blob
      ensures Valid() && log == old(log).(clean := old(log.clean) && blob.stored <= taken + SLOTS)
      ensures blob.epoch == old(blob.epoch) && blob.restarts == old(blob.restarts) && old(blob.all) <= blob.all
      ensures old(blob.Published()) <= blob.Published() && old(blob.stored) <= blob.stored
      ensures var end := blob.epoch + 8 * taken;
              log.clean ==> end + 8 <= |blob.all| && b == Val(blob.all[end..end + 8])
      ensures Front() == Onward(old(Front()), levels)
    {
      hide WireBooks, BitBooks, OpenChain, Retains, Seeded, ByteAt, Val, Ahead;
      RunOn(levels);
      if blob.stored > taken + SLOTS {
        BooksSpoilt(log, ring);            // the slot has been overwritten
        log := log.(clean := false);
      }
      SlotRead(blob, taken, sniffTail, log.clean);
      b := blob.slots[sniffTail % SLOTS];
    }

    /** Add a drained byte to the burst, opening one if need be. */
    method AppendByte(b: byte, tOpen: uint32, tOnset: uint32)
      requires Shape() && Books() && burstN < BURST_MAX
      requires var end := blob.epoch + 8 * taken;
               log.clean ==> end + 8 <= |blob.all| && b == Val(blob.all[end..end + 8])
      modifies this`burstOpen, this`burstN, this`burstT0, this`burstOnset, this`taken, this`sniffTail, burstBuf
      ensures Shape() && Books() && Front() == Grown(old(Front()), tOpen)
      ensures sniffTail == (old(sniffTail) + 1) % 256 && burstBuf[..burstN] == old(burstBuf[..burstN]) + [b]
      ensures burstOpen && taken == old(taken) + 1
      ensures burstOnset == if burstN == ONSET_N then Cap16(Since(tOnset, burstT0))
                            else if old(burstOpen) then old(burstOnset) else 0
    {
      hide WireBooks, BitBooks, OpenChain, Val, Cap16, Since;
      sniffTail := (sniffTail + 1) % 256;
      OpenBurst(tOpen);
      PutByte(b);
      if burstN == ONSET_N {                // clock estimate: the time of the first eight bytes
        burstOnset := Cap16(Since(tOnset, burstT0));
      }
    }

    /** The byte joins the burst with its times. */
    method StampByte(b: byte, tOpen: uint32, tOnset: uint32, ghost tSplit: uint32, ghost tAfter: uint32)
      requires Shape() && Books() && burstN < BURST_MAX && tailBits == 0
      requires var end := blob.epoch + 8 * taken;
               log.clean ==> end + 8 <= |blob.all| && b == Val(blob.all[end..end + 8])
      modifies this`burstOpen, this`burstN, this`burstT0, this`burstOnset, this`taken, this`sniffTail, this`clock,
               burstBuf
      ensures Shape() && Books() && Front() == Grown(old(Front()), tOpen)
      ensures sniffTail == (old(sniffTail) + 1) % 256 && burstOpen && taken == old(taken) + 1
      ensures clock == old(clock) + [Stamp(blob.epoch + 8 * old(taken), tOpen, tOnset, tSplit, tAfter)]
      ensures old(Timely()) ==> Timely()
    {
      hide Keeps, WireBooks, BitBooks, Val, OpenChain, Cap16, Since;
      ghost var w, stamp := Watching(), Stamp(blob.epoch + 8 * taken, tOpen, tOnset, tSplit, tAfter);
      StartOfBurst(this);
      AppendByte(b, tOpen, tOnset);
      clock := clock + [stamp];
      if Keeps(w) {
        CapIsElapsed(burstT0, tOnset);
        KeepsByte(w, stamp);
      }
    }

    method PutByte(b: byte)
      requires Shape() && Books() && burstOpen && burstN < BURST_MAX
      requires var end := blob.epoch + 8 * taken;
               log.clean ==> end + 8 <= |blob.all| && b == Val(blob.all[end..end + 8])
      modifies this`burstN, this`taken, burstBuf
      ensures Shape() && Books() && burstN == old(burstN) + 1 && taken == old(taken) + 1
      ensures burstBuf[..burstN] == old(burstBuf[..burstN]) + [b]
    {
      hide WireBooks, BitBooks, OpenChain, Val;
      BooksByte(log, blob.all, blob.epoch + 8 * taken, burstBuf[..burstN], b, ovfRam, ovfPioc, blob.restarts);
      burstBuf[burstN] := b;
      burstN := burstN + 1;
      taken := taken + 1;
      assert burstBuf[..burstN] == old(burstBuf[..burstN]) + [b];
    }

    method OpenBurst(tOpen: uint32)
      requires Shape() && Books()
      modifies this`burstOpen, this`burstN, this`burstT0, this`burstOnset
      ensures Shape() && Books() && burstOpen && burstN == old(burstN)
      ensures burstT0 == (if old(burstOpen) then old(burstT0) else tOpen)
      ensures burstOnset == (if old(burstOpen) then old(burstOnset) else 0)
    {
      hide WireBooks, BitBooks, OpenChain;
      if !burstOpen {
        burstOpen, burstN, burstOnset := true, 0, 0;
        burstT0 := tOpen;
      }
    }

    /** One turn of the drain loop. */
    method TakeByte(levels: seq<bit>, tOpen: uint32, tOnset: uint32, tSplit: uint32, ghost tAfter: uint32)
      requires Valid() && (log.clean ==> taken < blob.Published())
      modifies this`ring, this`ovfRam, this`ovfPioc, this`burstOpen, this`burstN, this`burstNeedTerminal, this`log,
               this`sniffTail, this`taken, this`burstT0, this`burstLast, this`burstOnset, this`clock, this`placed,
               burstBuf, blob
      ensures clock == old(clock) + [Stamp(old(blob.epoch + 8 * taken), tOpen, tOnset, tSplit, tAfter)]
      ensures old(Timely()) ==> Timely() && PlacedBytes(old(placed), placed)
      ensures Valid() && taken == old(taken) + 1 && sniffTail == (old(sniffTail) + 1) % 256
      ensures Kept(old(log), log)
      ensures blob.epoch == old(blob.epoch) && blob.restarts == old(blob.restarts) && old(blob.all) <= blob.all
      ensures old(blob.Published()) <= blob.Published() && old(blob.stored) <= blob.stored
      ensures burstOpen || burstNeedTerminal || log.dropped
      ensures Chained(Took(Onward(old(Front()), levels), tOpen))
      ensures !log.dropped ==>
                (log.clean <==> old(log.clean) && Ahead(old(blob.View()), levels).stored <= old(taken) + SLOTS)
      ensures old(burstN) + 1 < BURST_MAX ==>
                log.dropped == old(log.dropped) && ring == old(ring) && burstN == old(burstN) + 1
    {
      hide WireBooks, BitBooks, OpenChain, Val, Retains, Seeded, ByteAt, MakeFlags, BurstRecord, Emission,
           Blob.Valid, Since, Cap16, Ahead, Books, Shape, Keeps, Cursor;
      ReadByte(levels, tOpen, tOnset, tSplit, tAfter);
      SplitFull(tSplit);
    }

    /** The next byte, out of its slot and into the burst. */
    method ReadByte(levels: seq<bit>, tOpen: uint32, tOnset: uint32, ghost tSplit: uint32, ghost tAfter: uint32)
      requires Valid() && (log.clean ==> taken < blob.Published())
      modifies this`log, this`burstOpen, this`burstN, this`burstT0, this`burstOnset, this`taken, this`sniffTail,
               this`clock, burstBuf, blob
      ensures Shape() && Cursor() && Books() && tailBits == 0 && burstOpen
      ensures log == old(log).(clean := old(log.clean) && blob.stored <= old(taken) + SLOTS)
      ensures taken == old(taken) + 1 && sniffTail == (old(sniffTail) + 1) % 256
      ensures blob.epoch == old(blob.epoch) && blob.restarts == old(blob.restarts) && old(blob.all) <= blob.all
      ensures old(blob.Published()) <= blob.Published() && old(blob.stored) <= blob.stored
      ensures Front() == Grown(Onward(old(Front()), levels), tOpen)
      ensures clock == old(clock) + [Stamp(old(blob.epoch + 8 * taken), tOpen, tOnset, tSplit, tAfter)]
      ensures old(Timely()) ==> Timely()
    {
      hide WireBooks, BitBooks, OpenChain, Val, Retains, Seeded, ByteAt, Blob.Valid, Ahead, Books, Shape, Keeps;
      ghost var w := Watching();
      Low8Steps(taken);
      var b := ReadSlot(levels);
      KeepsLess(w, Watching());
      StampByte(b, tOpen, tOnset, tSplit, tAfter);
    }

    /** The payload cap: split, continue with the next byte. */
    method SplitFull(tSplit: uint32)
      requires Shape() && Cursor() && Books() && tailBits == 0 && burstOpen
      modifies this`ring, this`ovfRam, this`ovfPioc, this`burstOpen, this`burstN, this`burstNeedTerminal, this`log,
               this`burstLast, this`placed
      ensures Valid() && Kept(old(log), log) && (burstOpen || burstNeedTerminal || log.dropped)
      ensures StillClean(old(log), log)
      ensures old(Timely()) && clock != [] && clock[|clock| - 1].fills == tSplit ==>
                Timely() && PlacedBytes(old(placed), placed)
      ensures old(burstN) < BURST_MAX ==> log == old(log) && ring == old(ring) && Front() == old(Front())
      ensures old(burstN) >= BURST_MAX ==> Chained(Split(old(Front()), true))
    {
      hide WireBooks, BitBooks, OpenChain, Emission, Blob.Valid, Filed, Opened;
      if burstN >= BURST_MAX {
        burstLast := tSplit;
        CutBurst(true, tSplit);
      }
    }

    /** Emit the open burst at a byte boundary; later bytes open a new one. */
    method CutBurst(continued: bool, ghost closed: uint32)
      requires Shape() && Cursor() && Books() && tailBits == 0 && burstOpen
      modifies this`ring, this`ovfRam, this`ovfPioc, this`burstOpen, this`burstN, this`burstNeedTerminal, this`log,
               this`placed
      ensures Valid() && !burstOpen && burstN == 0 && Kept(old(log), log) && StillClean(old(log), log)
      ensures Chained(Split(old(Front()), continued))
      ensures placed == old(placed) || placed == old(placed) + [LastPlace(|clock|, old(burstN), closed)]
      ensures Placing(old(placed), placed, closed) && (old(Due(continued, closed)) ==> Timely())
      ensures old(|ring|) + ENC_MAX <= RING_SZ ==>
                log.dropped == old(log.dropped) && log.clean == old(log.clean) && |ring| <= old(|ring|) + ENC_MAX
      ensures Emission(false, old(Pending(continued)), blob.epoch + 8 * taken, old(log), log, old(ring), ring,
                       old(ovfRam), ovfRam, old(ovfPioc), ovfPioc, old(burstNeedTerminal), burstNeedTerminal)
    {
      hide WireBooks, BitBooks, OpenChain, Val, Retains, Seeded, ByteAt, MakeFlags, BurstRecord, Emission, Keeps, Filed, Opened;
      ghost var rec := Pending(continued);
      EmitRecord(continued, blob.all, blob.epoch + 8 * taken, blob.restarts, closed);
      assert burstBuf[..burstN] == [];
      if old(|ring|) + ENC_MAX <= RING_SZ {
        RoomyEmission(rec, blob.epoch + 8 * taken, old(log), log, old(ring), ring, old(ovfRam), ovfRam,
                      old(ovfPioc), ovfPioc, old(burstNeedTerminal), burstNeedTerminal);
      }
    }

    /** The n-th turn of the drain loop, of `total`, with the call's readings. */
    method TakeNth(n: nat, ghost f: Face, ghost clean: bool, ghost total: nat, ghost bit: nat, ghost clock0: seq<Stamp>,
                   ghost placed0: seq<Place>, levels: nat -> seq<bit>, us: nat -> uint32)
      requires Valid() && (log.clean ==> taken < blob.Published()) && n < total
      requires Chained(Drained(f, n, levels, us)) && bit + 8 * n == blob.epoch + 8 * taken
      requires clock == Stamped(clock0, bit, total, us, n)
      requires !log.dropped ==> (log.clean <==> clean && !Lapped(f, n, levels, us))
      modifies this`ring, this`ovfRam, this`ovfPioc, this`burstOpen, this`burstN, this`burstNeedTerminal, this`log,
               this`sniffTail, this`taken, this`burstT0, this`burstLast, this`burstOnset, this`clock, this`placed,
               burstBuf, blob
      ensures Valid() && taken == old(taken) + 1 && sniffTail == (old(sniffTail) + 1) % 256 && Kept(old(log), log)
      ensures blob.epoch == old(blob.epoch) && blob.restarts == old(blob.restarts) && old(blob.all) <= blob.all
      ensures old(blob.Published()) <= blob.Published() && (burstOpen || burstNeedTerminal || log.dropped)
      ensures Chained(Drained(f, n + 1, levels, us)) && clock == Stamped(clock0, bit, total, us, n + 1)
      ensures old(Timely()) && PlacedBytes(placed0, old(placed)) ==> Timely() && PlacedBytes(placed0, placed)
      ensures !log.dropped ==> (log.clean <==> clean && !Lapped(f, n + 1, levels, us))
      ensures old(burstN) + 1 < BURST_MAX ==>
                log.dropped == old(log.dropped) && ring == old(ring) && burstN == old(burstN) + 1
    {
      hide WireBooks, BitBooks, OpenChain, Blob.Valid, Shape, Books, Took, Ahead, Drained, Lapped, Timely, PlacedBytes,
           Stamped, ClockedSniffer.Valid;
      DrainTurn(f, n, levels, us);
      ChainedTook(Drained(f, n, levels, us), burstNeedTerminal, levels(n + 1), us(3 * n));
      TakeByte(levels(n + 1), us(3 * n), us(3 * n + 1), us(3 * n + 2), us(3 * total));
      PlacedMore(placed0, old(placed), placed);
      StampedSoFar(clock0, bit, total, us, n + 1);
    }

    /** Drain up to the HEAD just read; `seen` is the byte count it stands for. The program
        runs `levels(i)` further before the i-th slot is read; `us` are successive clock readings. */
    method DrainFifo(h: byte, ghost seen: nat, levels: nat -> seq<bit>, us: nat -> uint32) returns (n: nat)
      requires Valid() && Lag(h, sniffTail) <= SLOTS
      requires log.clean ==> h == seen % 256 && taken <= seen <= taken + SLOTS && seen <= blob.Published()
      modifies this`ring, this`ovfRam, this`ovfPioc, this`burstOpen, this`burstN, this`burstNeedTerminal, this`log,
               this`sniffTail, this`taken, this`burstT0, this`burstLast, this`burstOnset, this`clock, this`placed,
               burstBuf, blob
      ensures clock == old(clock) + Stamps(old(blob.epoch + 8 * taken), n, us)
      ensures old(Timely()) ==> Timely() && PlacedBytes(old(placed), placed)
      ensures n == 0 ==> burstOpen == old(burstOpen) && burstLast == old(burstLast)
      ensures Valid() && sniffTail == h && (n > 0 <==> old(sniffTail) != h)
      ensures old(log.clean) ==> taken == seen
      ensures Kept(old(log), log) && taken == old(taken) + n
      ensures blob.epoch == old(blob.epoch) && blob.restarts == old(blob.restarts) && old(blob.all) <= blob.all
      ensures n > 0 ==> burstOpen || burstNeedTerminal || log.dropped
      ensures Chained(Drained(old(Front()), n, levels, us))
      ensures !log.dropped ==>
                (log.clean <==> old(log.clean) && !Lapped(old(Front()), n, levels, us))
      ensures old(burstN) + SLOTS < BURST_MAX ==> log.dropped == old(log.dropped) && ring == old(ring)
    {
      hide WireBooks, BitBooks, OpenChain, Blob.Valid, Shape, Books, Took, Ahead, Drained, Lapped, Timely, Stamps, PlacedBytes, Stamped, Chained;
      ghost var clean, f, total, bit := log.clean, Front(), Lag(h, sniffTail), blob.epoch + 8 * taken;
      DrainStarts(f, levels, us);
      n := 0;
      StartsChained(this);
      PlacedNone(placed);
      StampedSoFar(clock, bit, total, us, 0);
      while sniffTail != h
        invariant old(Timely()) ==> Timely() && PlacedBytes(old(placed), placed)
        invariant Valid() && Kept(old(log), log)
        invariant clean ==> h == seen % 256 && taken <= seen <= taken + SLOTS && sniffTail == taken % 256
        invariant log.clean ==> seen <= blob.Published()
        invariant blob.epoch == old(blob.epoch) && blob.restarts == old(blob.restarts) && old(blob.all) <= blob.all
        invariant n == 0 ==> sniffTail == old(sniffTail) && burstOpen == old(burstOpen) && burstLast == old(burstLast)
        invariant n > 0 ==> old(sniffTail) != h
        invariant taken == old(taken) + n && Lag(h, sniffTail) + n == Lag(h, old(sniffTail))
        invariant n <= total && clock == Stamped(old(clock), bit, total, us, n)
        invariant n > 0 ==> burstOpen || burstNeedTerminal || log.dropped
        invariant Chained(Drained(f, n, levels, us))
        invariant !log.dropped ==> (log.clean <==> clean && !Lapped(f, n, levels, us))
        invariant old(burstN) + SLOTS < BURST_MAX ==>
                    log.dropped == old(log.dropped) && ring == old(ring) && burstN == old(burstN) + n
        decreases Lag(h, sniffTail)
      {
        LagStep(h, sniffTail);
        Low8Steps(taken);
        TakeNth(n, f, clean, total, bit, old(clock), old(placed), levels, us);
        n := n + 1;
      }
      StampedSoFar(old(clock), bit, total, us, n);
      if clean {
        CursorMeets(taken, seen);
      }
    }

    /** Put the pending samples, MSB-justified, behind the burst. What they leave out is lost. */
    method AddPartial(acc: byte, kbits: nat)
      requires Valid() && 0 < kbits < 8 && Pow2(kbits) <= acc < 2 * Pow2(kbits) && acc == blob.acc
      modifies this`log, this`burstN, this`tailBits, burstBuf
      ensures burstBuf.Length == BURST_MAX && |ring| <= RING_SZ && WireBooks(log, ring)
      ensures burstNeedTerminal == OpenChain(log) && 0 < burstN <= BURST_MAX && tailBits == kbits
      ensures burstBuf[..burstN] == old(burstBuf[..burstN]) + [Justified(acc, kbits)]
      ensures log == AfterPartial(old(log), |blob.all|, blob.epoch + 8 * taken + kbits)
      ensures log.clean == old(log.clean) && (old(Timely()) ==> Timely())
      ensures var end := blob.epoch + 8 * taken;
              log.clean ==>
                && end <= |blob.all| && (|blob.all| < end + kbits <==> |blob.all| == end)
                && (|blob.all| == end + kbits <==> end < |blob.all| < end + 8)
      ensures BitBooks(log, blob.all, |blob.all|, burstBuf[..burstN], kbits, ovfRam, ovfPioc, blob.restarts)
    {
      hide WireBooks, BitBooks, OpenChain, Val, Pow2, Justified, Blob.Valid, Keeps;
      ghost var w := Watching();
      ghost var end := blob.epoch + 8 * taken;
      var b := Justified(acc, kbits);
      if log.clean {
        FlushGap(blob, taken, kbits);
      }
      AfterPartialIs(log, |blob.all|, end + kbits);
      PartialBooks(blob, log, ring, taken, burstBuf[..burstN], kbits, b, ovfRam, ovfPioc);
      log := AfterPartial(log, |blob.all|, end + kbits);
      burstBuf[burstN] := b;
      burstN := burstN + 1;
      tailBits := kbits;
      KeepsLess(w, Watching());
      assert burstBuf[..burstN] == old(burstBuf[..burstN]) + [b];
    }

    /** The idle branch of service(): flush pending samples, close the burst or the open chain,
        and restart the program if samples were taken from it. Nothing is lost exactly if every
        complete byte had been drained when ACC was read and no sample has come since. */
    method Flush(acc: byte, kbits: nat, tNow: uint32, levels: seq<bit>)
      requires Valid() && kbits < 8 && (kbits > 0 ==> Pow2(kbits) <= acc < 2 * Pow2(kbits)) && acc == blob.acc
      modifies this`ring, this`ovfRam, this`ovfPioc, this`burstOpen, this`burstN, this`burstNeedTerminal, this`log,
               this`sniffTail, this`taken, this`burstT0, this`burstLast, this`burstOnset, this`tailBits,
               this`partialSeenBits, this`placed, burstBuf, blob
      ensures Valid() && !burstOpen && (burstNeedTerminal ==> log.dropped)
      ensures log.base == old(log.base) && log.shipped == old(log.shipped) && (log.clean ==> old(log.clean))
      ensures old(blob.all) <= blob.all && (old(log.dropped) ==> log.dropped)
      ensures kbits == 0 ==>
                && Kept(old(log), log) && blob.all == old(blob.all) && blob.restarts == old(blob.restarts)
                && taken == old(taken) && partialSeenBits == old(partialSeenBits) && blob.epoch == old(blob.epoch)
      ensures kbits > 0 ==> blob.restarts == old(blob.restarts) + [|blob.all|] && blob.epoch == |blob.all|
                            && taken == 0 && sniffTail == 0 && partialSeenBits == 0
      ensures StillClean(old(log), log)
      ensures Placing(old(placed), placed, tNow) && (old(Timely() && Current()) ==> Timely())
      ensures !log.dropped ==>
                Front() == (if kbits > 0 then Restarted(Closed(old(Front()), tNow), levels)
                            else Closed(old(Front()), tNow))
      ensures old(|ring|) + ENC_MAX <= RING_SZ ==>
                log.dropped == old(log.dropped) && |ring| <= old(|ring|) + ENC_MAX
      ensures var end, at := old(blob.epoch + 8 * taken), old(|blob.all|);
              kbits > 0 && log.clean ==>
                && log.lost + old(log.twice) + end + kbits == old(log.lost) + log.twice + |blob.all|
                && old(log.lost) <= log.lost && old(log.twice) <= log.twice
                && (log.lost == old(log.lost) && log.twice == old(log.twice) <==>
                      |blob.all| == at && end < at < end + 8)
                && (log.twice > old(log.twice) <==> at == end)
    {
      hide WireBooks, BitBooks, OpenChain, Pow2, Justified, MakeFlags, BurstRecord, Blob.Valid, Emission, Ahead, Timely, Current, Placing;
      ghost var end := blob.epoch + 8 * taken;
      if kbits > 0 && burstN < BURST_MAX {
        end := |blob.all|;
        AddPartial(acc, kbits);
      }
      assert burstBuf[..0] == [];
      CloseBurst(tNow, end);
      if kbits > 0 {
        RestartBlob(levels);
      }
    }

    /** Send the terminal record: the open burst, the partial alone, or an empty one that
        closes a continued chain. */
    method CloseBurst(tNow: uint32, ghost end: nat)
      requires burstBuf.Length == BURST_MAX && burstN <= BURST_MAX && |ring| <= RING_SZ
      requires WireBooks(log, ring) && burstNeedTerminal == OpenChain(log) && (tailBits > 0 ==> burstN > 0)
      requires BitBooks(log, blob.all, end, burstBuf[..burstN], tailBits, ovfRam, ovfPioc, blob.restarts)
      modifies this`ring, this`ovfRam, this`ovfPioc, this`burstOpen, this`burstN, this`burstNeedTerminal, this`log,
               this`burstT0, this`burstLast, this`burstOnset, this`tailBits, this`placed
      ensures Shape() && !burstOpen && burstN == 0 && tailBits == 0 && (burstNeedTerminal ==> log.dropped)
      ensures burstT0 == if old(burstOpen) then old(burstT0) else tNow
      ensures old(|ring|) + ENC_MAX <= RING_SZ ==>
                log.dropped == old(log.dropped) && log.clean == old(log.clean) && |ring| <= old(|ring|) + ENC_MAX
      ensures Kept(old(log), log) && StillClean(old(log), log)
      ensures Placing(old(placed), placed, tNow) && (old(Timely() && Current()) ==> Timely())
      ensures BitBooks(log, blob.all, end, [], 0, ovfRam, ovfPioc,
                       if old(tailBits) > 0 then blob.restarts + [end] else blob.restarts)
      ensures var rec := BurstRecord(if old(burstOpen) then old(burstT0) else tNow,
                                     if old(burstOpen) then old(burstLast) else tNow,
                                     if old(burstOpen) then old(burstOnset) else 0,
                                     MakeFlags(old(ovfPioc) > 0, old(ovfRam) > 0, false, old(tailBits) as bv8),
                                     old(burstBuf[..burstN]));
              Emission(false, rec, end, old(log), log, old(ring), ring, old(ovfRam), ovfRam, old(ovfPioc), ovfPioc,
                       old(burstNeedTerminal), burstNeedTerminal)
    {
      hide WireBooks, BitBooks, OpenChain, MakeFlags, BurstRecord, Emission, Keeps, Due;
      ghost var w, last := Watching(), burstLast;
      if !burstOpen {
        burstOpen := true;
        burstLast := tNow;
        burstT0 := burstLast;
        burstOnset := 0;
      }
      DueNow(this, w, last, tNow);
      ghost var rec, log0 := Pending(false), log;
      EmitRecord(false, blob.all, end, blob.restarts, tNow);
      tailBits := 0;
      if old(|ring|) + ENC_MAX <= RING_SZ {
        RoomyEmission(rec, end, log0, log, old(ring), ring, old(ovfRam), ovfRam, old(ovfPioc), ovfPioc,
                      old(burstNeedTerminal), burstNeedTerminal);
      }
    }

    /** The program keeps running until it is reset; samples it takes meanwhile are lost. */
    method RestartBlob(levels: seq<bit>)
      requires Shape() && blob.Valid() && burstN == 0
      requires BitBooks(log, blob.all, |blob.all|, [], 0, ovfRam, ovfPioc, blob.restarts + [|blob.all|])
      modifies this`log, this`sniffTail, this`taken, this`partialSeenBits, blob
      ensures Shape() && Cursor() && Books()
      ensures old(blob.all) <= blob.all && log == old(log).(lost := old(log.lost) + (|blob.all| - |old(blob.all)|))
      ensures blob.restarts == old(blob.restarts) + [|blob.all|] && blob.epoch == |blob.all|
      ensures Front() == Restarted(old(Front()), levels)
      ensures old(Timely()) ==> Timely()
      ensures taken == 0 && sniffTail == 0 && partialSeenBits == 0
    {
      hide WireBooks, BitBooks, OpenChain, Blob.Valid, Ahead, Keeps;
      ghost var w := Watching();
      blob.Run(levels);
      RestartBooks(log, ring, old(blob.all), blob.all, ovfRam, ovfPioc, blob.restarts);
      log := log.(lost := log.lost + (|blob.all| - |old(blob.all)|));
      blob.Restart();
      sniffTail, taken, partialSeenBits := 0, 0, 0;
      KeepsLess(w, Watching());
      assert burstBuf[..burstN] == [] && blob.Published() == 0;
    }

    /** Stage 2: move framed bytes from the staging ring into the contiguous free bytes of the
        USB ring; a record may be torn over several calls. */
    method DrainToUsb(writeSpace: nat, srcContig: nat, dstContig: nat) returns (out: seq<byte>)
      requires Valid()
      modifies this`ring, this`log
      ensures Valid() && old(ring) == out + ring && log == old(log).(shipped := old(log).shipped + out)
      ensures Front() == old(Front())
      ensures old(Timely()) ==> Timely()
      ensures |out| == Min(Min(Min(writeSpace, DRAIN_MAX), |old(ring)|), Min(srcContig, dstContig))
    {
      hide Keeps, WireBooks, BitBooks, Blob.Valid;
      var n := Min(Min(writeSpace, DRAIN_MAX), |ring|);
      n := Min(n, Min(srcContig, dstContig));
      out := [];
      var i := 0;
      while i < n
        invariant i <= n && out == ring[..i]
      {
        out := out + [ring[i]];
        i := i + 1;
      }
      WireShip(log, ring, n);
      BooksWireFree(log, log.items, log.shipped + out, blob.all, blob.epoch + 8 * taken, burstBuf[..burstN], 0,
                    ovfRam, ovfPioc, blob.restarts);
      assert log.(items := log.items, shipped := log.shipped + out) == log.(shipped := log.shipped + out);
      log := log.(shipped := log.shipped + out);
      ring := ring[n..];
    }

    /** The periodic mode marker goes between records. */
    method Heartbeat(nowMs: uint32)
      requires Valid()
      modifies this`ring, this`ovfRam, this`log, this`modeHbMs
      ensures Valid() && log == old(log).(items := log.items)
      ensures Since(nowMs, old(modeHbMs)) >= 0x8000_0000 ==> ring == old(ring) && modeHbMs == old(modeHbMs)
      ensures Since(nowMs, old(modeHbMs)) < 0x8000_0000 ==> modeHbMs == (nowMs + 1000) % WORD32
      ensures ring == old(ring) || ring == old(ring) + Wire(Meta(MARKER))
      ensures Front() == old(Front())
      ensures old(Timely()) ==> Timely()
    {
      hide Keeps, WireBooks, BitBooks, Blob.Valid, Wire;
      if Since(nowMs, modeHbMs) < 0x8000_0000 {
        EmitModeMarker();
        modeHbMs := (nowMs + 1000) % WORD32;
        BooksWireFree(old(log), log.items, log.shipped, blob.all, blob.epoch + 8 * taken, burstBuf[..burstN], 0,
                      ovfRam, ovfPioc, blob.restarts);
      }
    }

    /** Read HEAD; a lapped FIFO is entered at its oldest slot. */
    method SeekHead(levels: seq<bit>) returns (h: byte, ghost seen: nat)
      requires Valid()
      modifies this`ovfPioc, this`sniffTail, this`log, blob
      ensures Valid() && log == old(log).(clean := old(log.clean) && seen <= taken + SLOTS)
      ensures log.clean ==> h == seen % 256 && taken <= seen <= taken + SLOTS && seen <= blob.Published()
      ensures log.clean ==> sniffTail == old(sniffTail) && ovfPioc == old(ovfPioc)
      ensures var lapped := Lag(h, old(sniffTail)) > SLOTS;
              && sniffTail == (if lapped then (h - SLOTS) % 256 else old(sniffTail))
              && ovfPioc == if lapped then (old(ovfPioc) + 1) % WORD16 else old(ovfPioc)
      ensures Lag(h, sniffTail) <= SLOTS && old(blob.Published()) <= seen <= blob.stored
      ensures old(Timely()) ==> Timely()
      ensures Front() == Onward(old(Front()), levels) && seen == HeadOf(Front().prog)
      ensures blob.epoch == old(blob.epoch) && blob.restarts == old(blob.restarts) && old(blob.all) <= blob.all
    {
      hide WireBooks, BitBooks, OpenChain, Retains, Seeded, ByteAt, Blob.Valid, Ahead, HeadOf, Keeps;
      ghost var w := Watching();
      RunOn(levels);
      HeadIs(blob);
      AccIs(blob);
      h := blob.head;
      seen := blob.Published();
      if seen > taken + SLOTS {
        BooksSpoilt(log, ring);
        log := log.(clean := false);
      }
      if log.clean {
        LagIs(taken, seen);
      }
      SkipLapped(h);
      KeepsLess(w, Watching());
    }

    /** Enter a lapped FIFO at its oldest slot, and count it. */
    method SkipLapped(h: byte)
      requires Valid() && (log.clean ==> Lag(h, sniffTail) <= SLOTS)
      modifies this`ovfPioc, this`sniffTail
      ensures Valid() && Lag(h, sniffTail) <= SLOTS
      ensures Lag(h, old(sniffTail)) <= SLOTS ==> sniffTail == old(sniffTail) && ovfPioc == old(ovfPioc)
      ensures Lag(h, old(sniffTail)) > SLOTS ==>
                sniffTail == (h - SLOTS) % 256 && ovfPioc == (old(ovfPioc) + 1) % WORD16
    {
      hide WireBooks, BitBooks, OpenChain, Blob.Valid;
      if Lag(h, sniffTail) > SLOTS {
        ovfPioc := (ovfPioc + 1) % WORD16;
        sniffTail := (h - SLOTS) % 256;
        Unbooked(log, blob.all, blob.epoch + 8 * taken, burstBuf[..burstN], ovfRam, ovfPioc, blob.restarts);
      }
    }

    method NoteActivity(t: uint32, nowMs: uint32)
      requires Valid()
      modifies this`burstLast, this`sniffLastMs
      ensures Valid() && burstLast == t && sniffLastMs == nowMs
    {
      hide WireBooks, BitBooks, OpenChain, Blob.Valid;
      burstLast := t;
      sniffLastMs := nowMs;
    }

    /** One call of service(): all timing decisions depend on the clock readings, all races on
        what the program does between two register reads. */
    method Service(nowMs: uint32, levels: nat -> seq<bit>, us: nat -> uint32,
                   writeSpace: nat, srcContig: nat, dstContig: nat) returns (out: seq<byte>, ghost c: Call)
      requires Valid()
      modifies this, burstBuf, blob
      ensures Valid() && log.base == old(log.base) && (log.clean ==> old(log.clean))
      ensures var t := Turn(nowMs, levels, us);
              && (!log.dropped ==> (log.clean <==> old(log.clean) && !Laps(old(Front()), t)))
              && (log.clean ==> c == Saw(old(Front()), t).(need := c.need))
              && (log.clean && !log.dropped ==> c == Saw(old(Front()), t) && Front() == Next(old(Front()), t))
      ensures |clock| >= |old(clock)|
      ensures var n := |clock| - |old(clock)|;
              && clock == old(clock) + Stamps(old(blob.epoch + 8 * taken), n, us)
              && (log.clean ==> n == Ready(old(Front()), Turn(nowMs, levels, us)))
              && (old(Timely() && Current()) ==> Timely() && Current() && Placing(old(placed), placed, us(3 * n + 2)))
      ensures log.shipped == old(log.shipped) + out && old(blob.all) <= blob.all
      ensures log.clean ==> old(blob.epoch + 8 * blob.Published()) <= c.end <= blob.epoch + 8 * taken
      ensures |out| == Min(Min(Min(writeSpace, DRAIN_MAX), |out| + |ring|), Min(srcContig, dstContig))
      ensures writeSpace > 0 && srcContig > 0 && dstContig > 0 && out == [] ==> ring == []
      ensures burstOpen || burstNeedTerminal ==> Since(nowMs, sniffLastMs) <= 3 || log.dropped
      ensures burstOpen ==> Since(nowMs, sniffLastMs) <= 3
      ensures partialSeenBits > 0 && !burstOpen && !burstNeedTerminal ==>
                Since(nowMs, partialSeenMs) <= 3 || Since(nowMs, sniffLastMs) <= 3
      ensures Decided(c, nowMs, old(blob.restarts), blob.restarts, old(log), log, |blob.all|)
      ensures old(log.dropped) ==> log.dropped
      ensures var f, t := old(Front()), Turn(nowMs, levels, us);
              old(|ring|) + 24 + ENC_MAX <= RING_SZ && old(burstN) + SLOTS < BURST_MAX ==>
                && log.dropped == old(log.dropped)
                && (log.clean && !log.dropped ==>
                      |out| + |ring| <= old(|ring|) + 24 +
                                        RoomUsed(c, Collected(f, t).t0, nowMs, us(3 * Ready(f, t) + 1)))
    {
      hide ClockedSniffer.Valid, Blob.Valid, Wire, Since, Decided, Collected, Ready, Laps, Flushes, Closes, Cuts,
           RoomUsed, Settled, Ahead, Watched, Timely, Current, Placing, PlacedBytes, Stamps;
      ghost var f, t := Front(), Turn(nowMs, levels, us);
      var n := Collect(nowMs, levels, us);
      ghost var log1, d, placed1 := log, Front(), placed;
      c := Finalize(nowMs, levels(n + 1), levels(n + 2), us(3 * n + 1), us(3 * n + 2));
      ghost var log2 := log;
      PlacedThen(old(placed), placed1, placed, us(3 * n + 2));
      ChainedSaw(f, t, d.need);
      out := DrainToUsb(writeSpace, srcContig, dstContig);
      DecidedThrough(c, nowMs, old(blob.restarts), blob.restarts, old(log), log1, log2, log, |blob.all|);
    }

    /** The first half of stage 1: heartbeat, HEAD, and the drain loop. */
    method Collect(nowMs: uint32, levels: nat -> seq<bit>, us: nat -> uint32) returns (n: nat)
      requires Valid()
      modifies this, burstBuf, blob
      ensures Valid() && Kept(old(log), log) && |ring| <= RING_SZ
      ensures clock == old(clock) + Stamps(old(blob.epoch + 8 * taken), n, us)
      ensures old(Timely() && Current()) ==> Timely() && Current() && PlacedBytes(old(placed), placed)
      ensures blob.epoch == old(blob.epoch) && blob.restarts == old(blob.restarts) && old(blob.all) <= blob.all
      ensures log.clean ==> old(blob.Published()) <= taken
      ensures n > 0 ==> sniffLastMs == nowMs && (burstOpen || burstNeedTerminal || log.dropped)
      ensures var f, t := old(Front()), Turn(nowMs, levels, us);
              && (!log.dropped ==> (log.clean <==> old(log.clean) && !Laps(f, t)))
              && (log.clean ==> n == Ready(f, t) && Chained(Collected(f, t)))
      ensures old(|ring|) + 24 <= RING_SZ && old(burstN) + SLOTS < BURST_MAX ==>
                log.dropped == old(log.dropped) && |ring| <= old(|ring|) + 24
    {
      hide Blob.Valid, Wire, Since, Timely, Current, Stamps, PlacedBytes, Books, Cursor, Collected, Laps, Ready, WireBooks,
           OpenChain, Chained;
      MarkerFits();
      Heartbeat(nowMs);
      n := Swallow(nowMs, levels, us);
    }

    /** HEAD, and everything it shows. */
    method Swallow(nowMs: uint32, levels: nat -> seq<bit>, us: nat -> uint32) returns (n: nat)
      requires Valid()
      modifies this`ovfPioc, this`ring, this`ovfRam, this`burstOpen, this`burstN, this`burstNeedTerminal, this`log,
               this`sniffTail, this`taken, this`burstT0, this`burstLast, this`burstOnset, this`sniffLastMs,
               this`clock, this`placed, burstBuf, blob
      ensures Valid() && Kept(old(log), log)
      ensures clock == old(clock) + Stamps(old(blob.epoch + 8 * taken), n, us)
      ensures old(Timely() && Current()) ==> Timely() && Current() && PlacedBytes(old(placed), placed)
      ensures blob.epoch == old(blob.epoch) && blob.restarts == old(blob.restarts) && old(blob.all) <= blob.all
      ensures log.clean ==> old(blob.Published()) <= taken
      ensures n > 0 ==> sniffLastMs == nowMs && (burstOpen || burstNeedTerminal || log.dropped)
      ensures var f, t := old(Front()), Turn(nowMs, levels, us);
              && (!log.dropped ==> (log.clean <==> old(log.clean) && !Laps(f, t)))
              && (log.clean ==> n == Ready(f, t) && Chained(Collected(f, t)))
      ensures old(burstN) + SLOTS < BURST_MAX ==> log.dropped == old(log.dropped) && ring == old(ring)
    {
      hide Blob.Valid, Since, Books, Drained, Ahead, Lapped, HeadOf, Timely, Stamps, PlacedBytes, Shape, Cursor;
      ghost var bit, clock0 := blob.epoch + 8 * taken, clock;
      var h, seen := SeekHead(levels(0));
      n := DrainFifo(h, seen, levels, us);
      LastStamp(clock0, bit, n, us);
      if n > 0 {
        NoteActivity(us(3 * n), nowMs);
      }
    }

    /** The end of stage 1: watch the pending samples, and close the burst on an idle gap or
        when it has been open too long. */
    method Finalize(nowMs: uint32, levels: seq<bit>, levels': seq<bit>, tNow: uint32, tClose: uint32)
      returns (ghost c: Call)
      requires Valid()
      modifies this, burstBuf, blob
      ensures Valid() && log.base == old(log.base) && (log.clean ==> old(log.clean)) && StillClean(old(log), log)
      ensures old(blob.epoch + 8 * blob.stored) <= c.at && (old(log.dropped) ==> log.dropped)
      ensures log.shipped == old(log.shipped) && old(blob.all) <= blob.all
      ensures c.end == old(blob.epoch) + 8 * old(taken) && (log.clean ==> c.end <= blob.epoch + 8 * taken)
      ensures burstOpen || burstNeedTerminal ==> Since(nowMs, sniffLastMs) <= 3 || log.dropped
      ensures burstOpen ==> Since(nowMs, sniffLastMs) <= 3
      ensures partialSeenBits > 0 && !burstOpen && !burstNeedTerminal ==>
                Since(nowMs, partialSeenMs) <= 3 || Since(nowMs, sniffLastMs) <= 3
      ensures clock == old(clock)
      ensures old(Timely() && Current()) ==> Timely() && Current() && Placing(old(placed), placed, tClose)
      ensures Decided(c, nowMs, old(blob.restarts), blob.restarts, old(log), log, |blob.all|)
      ensures var w := Watched(Onward(old(Front()), levels), nowMs);
              c == CallAt(w) && (!log.dropped ==> Front() == Settled(w, nowMs, tNow, tClose, levels'))
      ensures old(|ring|) + ENC_MAX <= RING_SZ ==>
                log.dropped == old(log.dropped) && |ring| <= old(|ring|) + RoomUsed(c, old(burstT0), nowMs, tNow)
    {
      hide WireBooks, BitBooks, OpenChain, Retains, ByteAt, Val, Seeded, MakeFlags, BurstRecord, Emission, Settled,
           Watched, Ahead, RoomUsed;
      ghost var end := blob.epoch + 8 * taken;
      PhaseBound(blob);
      var acc, kbits := WatchPartial(nowMs, levels);
      c := CallAt(Front());
      Decide(acc, kbits, nowMs, tNow, tClose, levels', c);
    }

    /** Flush, cut, or do nothing. */
    method Decide(acc: byte, kbits: nat, nowMs: uint32, tNow: uint32, tClose: uint32, levels: seq<bit>, ghost c: Call)
      requires Valid() && kbits < 8 && (kbits > 0 ==> Pow2(kbits) <= acc < 2 * Pow2(kbits)) && acc == blob.acc
      requires partialSeenBits == kbits
      requires c == CallAt(Front())
      modifies this, burstBuf, blob
      ensures Valid() && log.base == old(log.base) && (log.clean ==> old(log.clean)) && StillClean(old(log), log)
      ensures log.shipped == old(log.shipped) && old(blob.all) <= blob.all && (old(log.dropped) ==> log.dropped)
      ensures log.clean ==> c.end <= blob.epoch + 8 * taken
      ensures burstOpen || burstNeedTerminal ==> Since(nowMs, sniffLastMs) <= 3 || log.dropped
      ensures burstOpen ==> Since(nowMs, sniffLastMs) <= 3
      ensures partialSeenBits > 0 && !burstOpen && !burstNeedTerminal ==>
                Since(nowMs, partialSeenMs) <= 3 || Since(nowMs, sniffLastMs) <= 3
      ensures clock == old(clock)
      ensures old(Timely() && Current()) ==> Timely() && Current() && Placing(old(placed), placed, tClose)
      ensures Decided(c, nowMs, old(blob.restarts), blob.restarts, old(log), log, |blob.all|)
      ensures !log.dropped ==> Front() == Settled(old(Front()), nowMs, tNow, tClose, levels)
      ensures old(|ring|) + ENC_MAX <= RING_SZ ==>
                log.dropped == old(log.dropped) && |ring| <= old(|ring|) + RoomUsed(c, old(burstT0), nowMs, tNow)
    {
      hide WireBooks, BitBooks, OpenChain, MakeFlags, BurstRecord, Emission, Blob.Valid, Pow2, Books, Shape, Ahead, Placing, Filed, Opened;
      PlacingNone(placed, tClose);
      DueAtClose(this, tClose);
      var partialOnlyIdle := PartialOnlyIdle(kbits, burstOpen, burstNeedTerminal, nowMs, partialSeenMs);
      if burstOpen || burstNeedTerminal || partialOnlyIdle {
        var idle := Since(nowMs, sniffLastMs) > 3;
        var tcap := burstOpen && Since(tNow, burstT0) > BURST_TCAP_US;
        if idle || partialOnlyIdle {
          Flush(acc, kbits, tClose, levels);
        } else if tcap {
          CutBurst(false, tClose);
        }
      }
    }

    /** Read the accumulator and note since when it holds samples. */
    method WatchPartial(nowMs: uint32, levels: seq<bit>) returns (acc: byte, kbits: nat)
      requires Valid()
      modifies this`partialSeenMs, this`partialSeenBits, blob
      ensures Valid() && kbits < 8 && (kbits > 0 ==> Pow2(kbits) <= acc < 2 * Pow2(kbits))
      ensures acc == blob.acc && partialSeenBits == kbits && (blob.phase < FULL ==> kbits == blob.phase)
      ensures partialSeenMs == if kbits > 0 && old(partialSeenBits) == 0 then nowMs else old(partialSeenMs)
      ensures blob.epoch == old(blob.epoch) && blob.restarts == old(blob.restarts) && old(blob.all) <= blob.all
      ensures Front() == Watched(Onward(old(Front()), levels), nowMs)
    {
      hide WireBooks, BitBooks, OpenChain, Pow2, Blob.Valid, Ahead, AccOf, Top;
      acc, kbits := ReadAcc(levels);
      if kbits > 0 {
        if partialSeenBits == 0 {
          partialSeenMs := nowMs;
        }
        partialSeenBits := kbits;
      } else {
        partialSeenBits := 0;
      }
    }

    /** The accumulator and the position of its sentinel. */
    method ReadAcc(levels: seq<bit>) returns (acc: byte, kbits: nat)
      requires Valid()
      modifies blob
      ensures Valid() && kbits < 8 && (kbits > 0 ==> Pow2(kbits) <= acc < 2 * Pow2(kbits))
      ensures acc == blob.acc && (blob.phase < FULL ==> kbits == blob.phase)
      ensures blob.epoch == old(blob.epoch) && blob.restarts == old(blob.restarts) && old(blob.all) <= blob.all
      ensures Front() == Onward(old(Front()), levels) && kbits == Top(AccOf(Front().prog))
    {
      hide WireBooks, BitBooks, OpenChain, Pow2, Blob.Valid, ClockedSniffer.Books, Ahead, AccOf, Top;
      RunOn(levels);
      acc := blob.acc;
      kbits := PartialBits(acc);
      AccIs(blob);
      if blob.phase < FULL {
        SeedReads(blob, kbits);
      }
      OneAtZero(kbits);
    }

    /** Neither a burst to send nor a chain to close. */
    predicate Silent(continued: bool)
      reads this
    {
      !burstOpen && !(burstNeedTerminal && !continued)
    }
  }

  /** The record of the open burst has its times. */
  lemma PendingTells(w: Watch, last: uint32, tail: tailcount, continued: bool, closed: uint32, ovfPioc: bool,
                     ovfRam: bool, buf: seq<byte>, r: Record)
    requires |buf| <= BURST_MAX && |buf| == w.n + (if tail > 0 then 1 else 0) && Opened(w)
    requires r == BurstRecord(w.t0, last, w.onset, MakeFlags(ovfPioc, ovfRam, continued, tail as bv8), buf)
    requires if w.n == 0 then w.t0 == last == closed && w.onset == 0
             else last == (if continued then w.clock[|w.clock| - 1].fills else w.clock[|w.clock| - 1].after)
    ensures Tells(r, LastPlace(|w.clock|, w.n, closed), w.clock)
  {
    hide MakeFlags, Continued, ValidBits;
    TailFlag(tail);
    FlagsCarry(ovfPioc, ovfRam, continued, tail as bv8);
  }

  lemma CapIsElapsed(from: uint32, to: uint32)
    ensures Cap16(Since(to, from)) == Elapsed(from, to)
  {}

  /** A burst without bytes starts where the next byte does. */
  lemma EmptyBurst(log: Log, all: seq<bit>, end: nat, buf: seq<byte>, ovfRam: nat, ovfPioc: nat, restarts: seq<nat>)
    requires BitBooks(log, all, end, buf, 0, ovfRam, ovfPioc, restarts) && buf == []
    ensures log.Exact() ==> log.start == end
  {
    NoBurst();
    if log.Exact() {
      BooksOpened(log, all, end, buf, 0, ovfRam, ovfPioc, restarts);
    }
    hide BitBooks, BurstBits, Delivered, SentEnd, Lossless, TailEnds;
  }

  /** The drained bytes of a burst. */
  function Whole(n: nat, tail: nat): nat { if n > 0 && tail > 0 then n - 1 else n }

  lemma OpenedFits(w: Watch)
    requires Opened(w)
    ensures w.n <= |w.clock|
  {}

  lemma EmissionKeeps(w: Watch, v: Watch, closed: uint32, rec: Record, end: nat, log: Log, log': Log, ring: seq<byte>,
                      ring': seq<byte>, ovfRam: nat, ovfRam': nat, ovfPioc: nat, ovfPioc': nat, need: bool,
                      need': bool)
    requires Emission(false, rec, end, log, log', ring, ring', ovfRam, ovfRam', ovfPioc, ovfPioc', need, need')
    requires Filed(w) && Opened(w)
    requires var p := LastPlace(|w.clock|, w.n, closed);
             && Tells(rec, p, w.clock)
             && v.placed == w.placed + if |log'.sent| == |log.sent| then [] else [p]
    requires w.sent == log.sent && w.dropped == log.dropped && w.exact == log.Exact() && w.start == log.start
    requires v == w.(placed := v.placed, sent := log'.sent, dropped := log'.dropped, exact := log'.Exact(),
                     start := log'.start, open := false, n := 0)
    ensures Keeps(v)
  {
    OpenedFits(w);
    hide Filed, Opened, Tells, Framed, Serialized, Keeps;
    if |log'.sent| == |log.sent| {
      KeepsDropped(w, end, log'.Exact());
      assert w.placed + [] == w.placed;
    } else {
      KeepsSent(w, rec, closed, end);
    }
  }

  lemma NothingYet(s: ClockedSniffer)
    requires s.clock == [] && s.placed == [] && s.log.sent == [] && s.burstN == 0 && !s.burstOpen
    ensures s.Timely() && s.Current()
  {
    KeepsNothing(s.Watching());
    hide Keeps;
  }

  lemma StartsChained(s: ClockedSniffer)
    ensures s.Chained(s.Front())
  {}

  lemma StartOfBurst(s: ClockedSniffer)
    requires s.Shape() && s.Books()
    ensures s.burstN == 0 && s.log.Exact() ==> s.log.start == s.blob.epoch + 8 * s.taken
    ensures !s.burstOpen ==> s.burstN == 0
  {
    if s.burstN == 0 {
      assert s.burstBuf[..s.burstN] == [];
      EmptyBurst(s.log, s.blob.all, s.blob.epoch + 8 * s.taken, s.burstBuf[..s.burstN], s.ovfRam, s.ovfPioc,
                 s.blob.restarts);
    }
    hide BitBooks, WireBooks, OpenChain;
  }

  lemma DueAtClose(s: ClockedSniffer, closed: uint32)
    ensures s.Timely() && s.Current() && (s.tailBits > 0 ==> s.burstN > 0) ==>
              && (s.burstOpen ==> s.Due(false, closed))
              && (!s.burstOpen ==> Whole(s.burstN, s.tailBits) == 0 && Filed(s.Watching()))
  {
    hide Filed;
  }

  lemma DueNow(s: ClockedSniffer, w: Watch, last: uint32, tNow: uint32)
    requires s.Watching() == (if w.open then w else w.(open := true, t0 := tNow, onset := 0))
    requires s.burstLast == (if w.open then last else tNow) && (s.tailBits > 0 ==> s.burstN > 0)
    ensures Keeps(w) && (w.open ==> w.clock != [] && last == w.clock[|w.clock| - 1].after) ==> s.Due(false, tNow)
  {
    hide Tells;
  }

  /** The records placed meanwhile hold drained bytes. */
  predicate PlacedBytes(placed: seq<Place>, placed': seq<Place>) {
    placed <= placed' && forall j :: |placed| <= j < |placed'| ==> placed'[j].from < placed'[j].to
  }

  lemma PlacedNone(placed: seq<Place>)
    ensures PlacedBytes(placed, placed)
  {}

  lemma PlacingNone(placed: seq<Place>, closed: uint32)
    ensures Placing(placed, placed, closed)
  {}

  lemma PlacedMore(a: seq<Place>, b: seq<Place>, c: seq<Place>)
    ensures PlacedBytes(a, b) && PlacedBytes(b, c) ==> PlacedBytes(a, c)
  {}

  lemma PlacedThen(a: seq<Place>, b: seq<Place>, c: seq<Place>, closed: uint32)
    ensures PlacedBytes(a, b) && Placing(b, c, closed) ==> Placing(a, c, closed)
  {}

  /** The first n of the bytes that a call drains. */
  function Stamped(clock: seq<Stamp>, bit: nat, total: nat, us: nat -> uint32, n: nat): seq<Stamp>
    requires n <= total
  {
    clock + Stamps(bit, total, us)[..n]
  }

  lemma StampedSoFar(clock: seq<Stamp>, bit: nat, total: nat, us: nat -> uint32, n: nat)
    requires n <= total
    ensures n == 0 ==> Stamped(clock, bit, total, us, n) == clock
    ensures n > 0 ==>
              Stamped(clock, bit, total, us, n) ==
              Stamped(clock, bit, total, us, n - 1) +
              [Stamp(bit + 8 * (n - 1), us(3 * (n - 1)), us(3 * (n - 1) + 1), us(3 * (n - 1) + 2), us(3 * total))]
    ensures n == total ==> Stamped(clock, bit, total, us, n) == clock + Stamps(bit, n, us)
  {
    var stamps := Stamps(bit, total, us);
    if n > 0 {
      assert stamps[..n] == stamps[..n - 1] + [stamps[n - 1]];
    }
  }

  lemma LastStamp(clock: seq<Stamp>, bit: nat, n: nat, us: nat -> uint32)
    ensures var s := clock + Stamps(bit, n, us); if n == 0 then s == clock else s[|s| - 1].after == us(3 * n)
  {}

  lemma KeepsClosed(w: Watch)
    requires !w.open
    ensures Filed(w) && Opened(w) ==> Keeps(w)
  {
    hide Filed, Opened;
  }

  /** The records placed meanwhile hold drained bytes, or have this reading as their time. */
  predicate Placing(placed: seq<Place>, placed': seq<Place>, closed: uint32) {
    && placed <= placed'
    && forall j :: |placed| <= j < |placed'| ==> placed'[j].from < placed'[j].to || placed'[j].closed == closed
  }

  /** What emitRecord does: nothing; or stage the record and clear the loss counters; or, when
      the ring has no room for all of it, count the loss and forget the record. */
  ghost predicate Emission(silent: bool, rec: Record, end: nat, log: Log, log': Log, ring: seq<byte>, ring': seq<byte>,
                           ovfRam: nat, ovfRam': nat, ovfPioc: nat, ovfPioc': nat, need: bool, need': bool)
  {
    var raw := Serialized(rec);
    if silent then
      ring' == ring && log' == log && ovfRam' == ovfRam && ovfPioc' == ovfPioc && need' == need
    else if |ring| + |Framed(raw)| <= RING_SZ then
      && ring' == ring + Framed(raw) && ovfRam' == 0 && ovfPioc' == 0 && need' == Continued(rec.flags)
      && log' == log.(sent := log.sent + [Sent(rec, log.start)], items := log.items + [Rec(raw)], start := end)
    else
      && ring' == ring && ovfRam' == (ovfRam + 1) % WORD16 && ovfPioc' == ovfPioc && need' == need
      && log' == log.(start := end, dropped := true, clean := log.clean && ovfRam' > 0)
  }

  /** With room for the longest record, nothing is dropped. */
  lemma RoomyEmission(rec: Record, end: nat, log: Log, log': Log, ring: seq<byte>, ring': seq<byte>, ovfRam: nat,
                      ovfRam': nat, ovfPioc: nat, ovfPioc': nat, need: bool, need': bool)
    requires Emission(false, rec, end, log, log', ring, ring', ovfRam, ovfRam', ovfPioc, ovfPioc', need, need')
    requires |rec.payload| <= BURST_MAX && rec.Valid() && |ring| + ENC_MAX <= RING_SZ
    ensures log'.dropped == log.dropped && log'.clean == log.clean && |ring'| <= |ring| + ENC_MAX
    ensures need' == Continued(rec.flags)
  {
    hide Framed, Serialized;
    RecordSize(rec);
    RecordFits(Serialized(rec));
  }

  lemma RecordSize(rec: Record)
    requires |rec.payload| <= BURST_MAX && rec.Valid()
    ensures |Serialized(rec)| <= RECORD_MAX
  {}

  lemma NoEmission(rec: Record, end: nat, log: Log, ring: seq<byte>, ovfRam: nat, ovfPioc: nat, need: bool)
    ensures Emission(true, rec, end, log, log, ring, ring, ovfRam, ovfRam, ovfPioc, ovfPioc, need, need)
  {}

  /** The twelve header bytes in the order emitRecord writes them. */
  function HeaderBytes(typ: byte, t0: uint32, dur: uint16, onset: uint16, flags: bv8, n: uint16): (h: seq<byte>)
    ensures |h| == HEADER_LEN
  {
    [typ, t0 % 256, t0 / 256 % 256, t0 / 0x1_0000 % 256, t0 / 0x100_0000 % 256, dur % 256, dur / 256 % 256,
     onset % 256, onset / 256 % 256, flags as byte, n % 256, n / 256 % 256]
  }

  lemma HeaderBytesAre(r: Record)
    requires r.Valid()
    ensures HeaderBytes(r.typ, r.tUs, r.durUs, r.onsetUs, r.flags, |r.payload|) == Header(r)
  {}

  /** h - tail on 8-bit counters. */
  function Lag(h: byte, tail: byte): nat { (h - tail) % 256 }

  lemma LagStep(h: byte, tail: byte)
    requires h != tail
    ensures Lag(h, (tail + 1) % 256) == Lag(h, tail) - 1
  {}

  /** Within one lap, equal cursors mean equal counts. */
  lemma CursorMeets(taken: nat, seen: nat)
    requires taken <= seen <= taken + SLOTS && taken % 256 == seen % 256
    ensures taken == seen
  {
    assert seen - taken == 256 * (seen / 256 - taken / 256);
  }

  /** The byte made of a quiet program's accumulator holds exactly its pending samples. */
  lemma PartialRead(blob: Blob, end: nat, kbits: nat, b: byte)
    requires blob.Valid() && blob.phase < FULL && |blob.all| == end + blob.phase && 0 < kbits < 8
    requires Pow2(kbits) <= blob.acc < 2 * Pow2(kbits) && b == Justified(blob.acc, kbits)
    ensures kbits == blob.phase && b == Val(blob.all[end..end + kbits]) * Pow2(8 - kbits)
  {
    var samples := blob.all[|blob.all| - blob.phase..];
    SeedPosition(samples);
    SameExponent(blob.acc, kbits, blob.phase);
    assert samples == blob.all[end..end + kbits];
  }

  lemma HeadIs(blob: Blob)
    requires blob.Valid()
    ensures blob.head == blob.Published() % 256
  {}

  /** The test that flushes a partial byte no burst is waiting for. */
  predicate PartialOnlyIdle(kbits: nat, open: bool, needTerminal: bool, nowMs: uint32, partialSeenMs: uint32) {
    kbits > 0 && !open && !needTerminal && Since(nowMs, partialSeenMs) > 3
  }

  lemma LagIs(taken: nat, seen: nat)
    requires taken <= seen <= taken + SLOTS
    ensures Lag(seen % 256, taken % 256) == seen - taken
  {}

  /** Nothing is booked about a run that is no longer clean. */
  lemma BooksSpoilt(log: Log, ring: seq<byte>)
    requires WireBooks(log, ring)
    ensures var next := log.(clean := false); WireBooks(next, ring) && OpenChain(next) == OpenChain(log)
    ensures forall all, end, buf, tail, ovfRam, ovfPioc, restarts ::
              BitBooks(log.(clean := false), all, end, buf, tail, ovfRam, ovfPioc, restarts)
  {}

  lemma DecidedThrough(c: Call, nowMs: uint32, restarts: seq<nat>, restarts': seq<nat>, log: Log, log1: Log, log2: Log,
                       log3: Log, samples: nat)
    requires Kept(log, log1) && Decided(c, nowMs, restarts, restarts', log1, log2, samples)
    requires log3 == log2.(shipped := log3.shipped)
    ensures Decided(c, nowMs, restarts, restarts', log, log3, samples)
  {
    hide Flushes;
  }

  lemma PhaseBound(blob: Blob)
    requires blob.Valid()
    ensures blob.phase <= PUBLISHED
    ensures blob.phase < FULL ==> |blob.all| == blob.epoch + 8 * blob.stored + blob.phase
  {}

  /** What the emitters of records leave alone. */
  ghost predicate Kept(log: Log, log': Log) {
    && log'.base == log.base && log'.shipped == log.shipped && log'.lost == log.lost && log'.twice == log.twice
    && (log'.clean ==> log.clean) && (log.dropped ==> log'.dropped)
  }

  /** Without a drop the run stays clean. */
  ghost predicate StillClean(log: Log, log': Log) { log.clean && !log'.dropped ==> log'.clean }

  lemma SamePrefix(a: seq<bit>, b: seq<bit>)
    requires a <= b
    ensures |a| == |b| <==> a == b
  {}

  /** The samples an accumulator reading leaves out: none exactly if every complete byte has been
      drained; too many are delivered only between the publication of a byte and the next seed. */
  lemma FlushGap(blob: Blob, taken: nat, kbits: nat)
    requires blob.Valid() && taken <= blob.Published() && 0 < kbits < 8 && Pow2(kbits) <= blob.acc < 2 * Pow2(kbits)
    ensures var end := blob.epoch + 8 * taken;
            && end <= |blob.all| && (|blob.all| == end + kbits ==> blob.phase < FULL && |blob.all| == end + blob.phase)
            && (|blob.all| < end + kbits <==> blob.phase == PUBLISHED && |blob.all| == end)
            && (end + kbits <= |blob.all| ==> (|blob.all| == end + kbits <==> |blob.all| < end + 8))
  {
    hide Retains, Seeded, ByteAt, Pow2;
    if blob.phase < FULL {
      SeedReads(blob, kbits);
    }
  }

  lemma SeedReads(blob: Blob, kbits: nat)
    requires blob.Valid() && blob.phase < FULL && kbits < 8
    requires blob.acc > 0 ==> Pow2(kbits) <= blob.acc < 2 * Pow2(kbits)
    ensures kbits == blob.phase
  {
    hide Retains, ByteAt, Pow2, Val;
    SeedPosition(blob.all[|blob.all| - blob.phase..]);
    SomePower(blob.phase);
    SameExponent(blob.acc, kbits, blob.phase);
  }

  lemma OneAtZero(kbits: nat)
    ensures kbits == 0 ==> Pow2(kbits) == 1
  {}

  lemma SomePower(n: nat)
    ensures Pow2(n) > 0
  {}

  lemma PartialBooks(blob: Blob, log: Log, ring: seq<byte>, taken: nat, buf: seq<byte>, kbits: nat, b: byte,
                     ovfRam: nat, ovfPioc: nat)
    requires blob.Valid() && 0 < kbits < 8 && Pow2(kbits) <= blob.acc < 2 * Pow2(kbits)
    requires b == Justified(blob.acc, kbits) && (log.clean ==> taken <= blob.Published())
    requires WireBooks(log, ring)
    requires BitBooks(log, blob.all, blob.epoch + 8 * taken, buf, 0, ovfRam, ovfPioc, blob.restarts)
    ensures var next := AfterPartial(log, |blob.all|, blob.epoch + 8 * taken + kbits);
            && BitBooks(next, blob.all, |blob.all|, buf + [b], kbits, ovfRam, ovfPioc, blob.restarts)
            && WireBooks(next, ring) && OpenChain(next) == OpenChain(log)
  {
    hide WireBooks, BitBooks, OpenChain, Pow2, Justified, Blob.Valid, AfterPartial;
    var end, n := blob.epoch + 8 * taken, |blob.all|;
    AfterPartialIs(log, n, end + kbits);
    if log.clean {
      FlushGap(blob, taken, kbits);
    }
    if log.Exact() && n == end + kbits {
      PartialRead(blob, end, kbits, b);
    }
    BooksPartial(log, blob.all, end, buf, kbits, b, n, ovfRam, ovfPioc, blob.restarts);
    LostFree(log, ring, AfterPartial(log, n, end + kbits).lost, AfterPartial(log, n, end + kbits).twice);
  }

  lemma LostFree(log: Log, ring: seq<byte>, lost: nat, twice: nat)
    requires WireBooks(log, ring)
    ensures var next := log.(lost := lost, twice := twice); WireBooks(next, ring) && OpenChain(next) == OpenChain(log)
  {}

  /** Behind a restart nothing is pending; the samples since the flush are booked as lost. */
  lemma RestartBooks(log: Log, ring: seq<byte>, all: seq<bit>, all': seq<bit>, ovfRam: nat, ovfPioc: nat,
                     restarts: seq<nat>)
    requires WireBooks(log, ring) && BitBooks(log, all, |all|, [], 0, ovfRam, ovfPioc, restarts + [|all|])
    requires all <= all'
    ensures var next := log.(lost := log.lost + (|all'| - |all|));
            && BitBooks(next, all', |all'|, [], 0, ovfRam, ovfPioc, restarts + [|all'|])
            && WireBooks(next, ring) && OpenChain(next) == OpenChain(log)
  {
    LostFree(log, ring, log.lost + (|all'| - |all|), log.twice);
    hide WireBooks, OpenChain, Delivered, SentEnd, Lossless, TailEnds, SizeSent, Tagged, BurstBits;
    SamePrefix(all, all');
  }

  lemma Unbooked(log: Log, all: seq<bit>, end: nat, buf: seq<byte>, ovfRam: nat, ovfPioc: nat, restarts: seq<nat>)
    requires !log.clean
    ensures BitBooks(log, all, end, buf, 0, ovfRam, ovfPioc, restarts)
  {}

  /** The slot under the cursor still holds the next byte of the sampled bits. */
  lemma SlotRead(blob: Blob, taken: nat, tail: byte, clean: bool)
    requires blob.Valid()
    requires clean ==> taken < blob.Published() && blob.stored <= taken + SLOTS && tail == taken % 256
    ensures var end := blob.epoch + 8 * taken;
            clean ==> end + 8 <= |blob.all| && blob.slots[tail % SLOTS] == Val(blob.all[end..end + 8])
  {
    if clean {
      hide Seeded, Low8, PtrAt, Val, ByteAt;
      ReadIsStored(blob.slots, blob.Bits(), blob.stored, taken, tail);
      ByteOfBits(blob.all, blob.epoch, taken);
    }
  }

  lemma ByteOfBits(all: seq<bit>, epoch: nat, j: nat)
    requires epoch + 8 * j + 8 <= |all|
    ensures ByteAt(all[epoch..], j) == Val(all[epoch + 8 * j..epoch + 8 * j + 8])
  {
    assert all[epoch..][8 * j..8 * j + 8] == all[epoch + 8 * j..epoch + 8 * j + 8];
  }

  /** Staging a record keeps both books. */
  lemma RecordStaged(log: Log, ring: seq<byte>, all: seq<bit>, end: nat, buf: seq<byte>, tail: tailcount,
                     ovfRam: nat, ovfPioc: nat, restarts: seq<nat>, r: Record, continued: bool)
    requires BitBooks(log, all, end, buf, tail, ovfRam, ovfPioc, restarts) && WireBooks(log, ring)
    requires r.payload == buf && r.flags == MakeFlags(ovfPioc > 0, ovfRam > 0, continued, tail as bv8)
    requires (continued ==> tail == 0) && (tail > 0 ==> buf != [])
    requires r.Valid() && r.typ == TYPE_MDIO
    ensures var next := log.(sent := log.sent + [Sent(r, log.start)], items := log.items + [Rec(Serialized(r))],
                             start := end);
            && BitBooks(next, all, end, [], 0, 0, 0, if tail > 0 then restarts + [end] else restarts)
            && WireBooks(next, ring + Framed(Serialized(r)))
            && OpenChain(next) == continued == Continued(r.flags)
  {
    hide BitBooks, WireBooks, MakeFlags, Serialized, Framed;
    var s := Sent(r, log.start);
    BooksSent(log, all, end, buf, tail, ovfRam, ovfPioc, restarts, r, continued);
    BooksWireFree(log.(sent := log.sent + [s], start := end), log.items + [Rec(Serialized(r))], log.shipped, all, end,
                  [], 0, 0, 0, if tail > 0 then restarts + [end] else restarts);
    WireRecord(log, ring, s);
    WireStartFree(log.(items := log.items + [Rec(Serialized(r))], sent := log.sent + [s]),
                  ring + Framed(Serialized(r)), end);
    TailFlag(tail);
    FlagsCarry(ovfPioc > 0, ovfRam > 0, continued, tail as bv8);
  }

  /** The wire books do not depend on where the open burst starts. */
  lemma WireStartFree(log: Log, ring: seq<byte>, start: nat)
    requires WireBooks(log, ring)
    ensures WireBooks(log.(start := start), ring)
  {}

  /** So does dropping it, with the loss counted. */
  lemma RecordDropped(log: Log, ring: seq<byte>, all: seq<bit>, end: nat, buf: seq<byte>, tail: tailcount,
                      ovfRam: nat, ovfPioc: nat, restarts: seq<nat>, ovfRam': nat)
    requires BitBooks(log, all, end, buf, tail, ovfRam, ovfPioc, restarts) && WireBooks(log, ring)
    ensures var next := log.(start := end, dropped := true, clean := log.clean && ovfRam' > 0);
            && BitBooks(next, all, end, [], 0, ovfRam', ovfPioc, if tail > 0 then restarts + [end] else restarts)
            && WireBooks(next, ring) && OpenChain(next) == OpenChain(log)
  {
    BooksDropped(log, all, end, buf, tail, ovfRam, ovfPioc, restarts, ovfRam',
                 if tail > 0 then restarts + [end] else restarts);
    hide BitBooks;
  }

  lemma MarkerIsMeta()
    ensures MetaText(MARKER) && 0 !in MARKER && |MARKER| == 21
  {}

  lemma MarkerFits()
    ensures |Wire(Meta(MARKER))| == 24
  {}

  lemma NoneOpen(log: Log)
    requires log.sent == []
    ensures !OpenChain(log)
  {}

  lemma StartCursor(b: Blob)
    requires b.Valid()
    ensures b.phase == STORED ==> b.stored > 0
    ensures b.head == b.Published() % 256 && b.epoch + 8 * b.Published() <= |b.all|
  {}

  lemma BooksOpen(log: Log, all: seq<bit>)
    requires log.sent == [] && log.base == log.start <= |all| && !log.dropped && log.lost == log.twice == 0
    ensures BitBooks(log, all, log.start, [], 0, 0, 0, [])
  {
    NoBurst();
  }

  /** Clocked end to end: whatever interleaving of program steps and service() calls led here,
      if no FIFO lap and no dropped record occurred and nothing is pending any more, the host has as
      many bits as were sampled since start-up, less those lost in flushes and with those sent twice.
      With losses only, or doubled bits only, they are the sampled bits if and only if there are none;
      and then logical bursts with a non-zero valid_bits end exactly where the eMCU was restarted. */
  lemma HostReportsThePin(s: ClockedSniffer)
    requires s.Valid() && s.log.clean && !s.log.dropped
    requires s.burstN == 0 && !s.burstNeedTerminal && s.ring == []
    requires |s.blob.all| == s.blob.epoch + 8 * s.taken
    ensures var bits := BitsOf(Bursts(NO_CHAIN, RecordsOf(RecsOf(Demux([], s.log.shipped)))));
            && |bits| + s.log.lost + s.log.base == |s.blob.all| + s.log.twice && s.log.base <= |s.blob.all|
            && (s.log.lost == 0 || s.log.twice == 0 ==>
                  (bits == s.blob.all[s.log.base..] <==> s.log.lost == s.log.twice))
    ensures s.log.lost == s.log.twice == 0 ==> TailEnds(s.log.sent) == s.blob.restarts
  {
    hide WireBooks, Bursts, BitsOf, RecordsOf, RecsOf, Demux, Delivered, TailEnds, Blob.Valid, BurstBits, Lossless,
         SentEnd, SizeSent, Tagged;
    assert s.burstBuf[..s.burstN] == [];
    HostSeesThePin(s.log, s.blob.all, s.blob.restarts);
  }

  /** The same with any pattern of dropped records: the host's logical bursts, and the bit
      strings between two resets of its hunter, are slices of the sampled bits. */
  lemma HostReportsSlices(s: ClockedSniffer) returns (bs: seq<Placed>, starts: seq<nat>)
    requires s.Valid() && s.log.Exact() && s.ring == []
    ensures Bursts(NO_CHAIN, RecordsOf(RecsOf(Demux([], s.log.shipped)))) == BurstsPlaced(bs)
    ensures Seamed(s.blob.all, s.log.base, bs)
    ensures Slices(s.blob.all, starts, Stretches([], BurstsPlaced(bs)))
  {
    hide WireBooks, Bursts, RecordsOf, RecsOf, Demux, BitBooks, Blob.Valid, Seamed, Slices, Stretches;
    bs, starts := HostSeesSlices(s.log, s.blob.all, s.blob.epoch + 8 * s.taken, s.burstBuf[..s.burstN], 0,
                                 s.ovfRam, s.ovfPioc, s.blob.restarts);
  }

  /** The times of the records and of the logical bursts, as the host reads them: record j holds the drained bytes
      placed[j] of the `clock`, in order and, without a drop, all of them; its bits are those of the pin from the
      first of these bytes on; and a burst has the time and onset of its first record and the durations of all. */
  lemma HostReportsTimes(s: ClockedSniffer) returns (at: seq<(nat, nat)>)
    requires s.Valid() && s.Timely() && s.ring == []
    ensures var recs := RecordsOf(RecsOf(Demux([], s.log.shipped)));
            && |s.placed| == |recs| && s.burstN <= |s.clock|
            && InOrder(s.placed, s.log.dropped, |s.clock| - s.burstN)
            && (forall j :: 0 <= j < |recs| ==> Tells(recs[j], s.placed[j], s.clock))
            && (s.log.Exact() ==>
                  forall j :: 0 <= j < |recs| && s.placed[j].from < s.placed[j].to ==>
                    SliceAt(s.blob.all, s.clock[s.placed[j].from].bit,
                            BurstBits(recs[j].payload, ValidBits(recs[j].flags))))
            && |at| == |Bursts(NO_CHAIN, recs)|
            && (forall k :: 0 <= k < |at| ==> Joins(recs, at[k].0, at[k].1, Bursts(NO_CHAIN, recs)[k]))
            && (forall k :: 0 < k < |at| ==> at[k - 1].1 < at[k].0)
  {
    hide *;
    ValidParts(s);
    HostReads(s.log);
    var recs := RecordsSent(s.log.sent);
    RecordsAt(s.log.sent);
    NoChainYet(recs);
    assert recs[0..] == recs;
    at := BurstsJoin(NO_CHAIN, recs, 0, 0);
    TimelyParts(s);
    if s.log.Exact() {
      SlicesAt(s.blob.all, s.log.base, s.log.sent);
    }
  }

  lemma ValidParts(s: ClockedSniffer)
    requires s.Valid() && s.ring == []
    ensures WireBooks(s.log, []) && s.tailBits == 0 && s.burstN < BURST_MAX
    ensures s.log.Exact() ==> Delivered(s.blob.all, s.log.base, s.log.sent)
  {
    hide WireBooks, Delivered, Blob.Valid, OpenChain, BurstBits, Lossless, TailEnds;
  }

  lemma TimelyParts(s: ClockedSniffer)
    requires s.Timely() && s.tailBits == 0
    ensures |s.placed| == |s.log.sent| && s.burstN <= |s.clock|
    ensures InOrder(s.placed, s.log.dropped, |s.clock| - s.burstN)
    ensures forall j :: 0 <= j < |s.placed| ==>
              && Tells(s.log.sent[j].rec, s.placed[j], s.clock) && s.placed[j].from <= s.placed[j].to <= |s.clock|
              && (s.log.Exact() && s.placed[j].from < s.placed[j].to ==>
                    s.log.sent[j].start == s.clock[s.placed[j].from].bit)
  {
    forall j | 0 <= j < |s.placed|
      ensures FiledAt(s.log.sent[j], s.placed[j], s.clock, s.log.Exact())
    {}
    hide InOrder, Opened;
  }

  lemma {:induction false} RecordsAt(sent: seq<Sent>)
    ensures forall j :: 0 <= j < |sent| ==> RecordsSent(sent)[j] == sent[j].rec
    decreases |sent|
  {
    if sent != [] {
      RecordsAt(sent[1..]);
    }
  }

  lemma NoChainYet(recs: seq<Record>)
    ensures Chains(NO_CHAIN, recs, 0, 0)
  {}

  lemma {:induction false} SlicesAt(all: seq<bit>, end: nat, sent: seq<Sent>)
    requires Delivered(all, end, sent)
    ensures forall j :: 0 <= j < |sent| ==>
              SliceAt(all, sent[j].start, BurstBits(sent[j].rec.payload, ValidBits(sent[j].rec.flags)))
    decreases |sent|
  {
    if sent != [] {
      SlicesAt(all, sent[0].End(), sent[1..]);
    }
    hide SliceAt, BurstBits, ValidBits;
  }
}
