/** The clocked path up to the host: the sniffer's bytes through the USB endpoint
    (src/main_sniffer.cpp: the main loop). */
module ClockedToUsb {
  import opened Bytes
  import opened Cobs
  import opened RecordFramer
  import opened HostCapture
  import opened ClockedLedger
  import ClockedBlob
  import opened ClockedCalls
  import opened ClockedSniffer
  import opened UsbCdc

  /** What the sniffer has shipped is what the endpoint was given, since both began. */
  ghost predicate Joined(s: ClockedSniffer, u: UsbCdc)
    reads s, s.blob, s.burstBuf, u, u.ep3, u.tx, u.rx, u.tx.buf, u.rx.buf
  {
    && s.Valid() && u.Valid() && u.tx.staged == [] && s.log.shipped == u.committed
    && s.burstBuf != u.ep3 && s.burstBuf != u.tx.buf && s.burstBuf != u.rx.buf
  }

  /** One turn of the main loop, the host taking packets at any moment of it: nothing is lost
      between the two, and something moves whenever something waits and there is room. */
  method Turn(s: ClockedSniffer, u: UsbCdc, nowMs: uint32, levels: nat -> seq<bit>, us: nat -> uint32,
              srcContig: nat, taking: nat -> bool)
    returns (armed: nat, out: seq<byte>, ghost c: Call)
    requires Joined(s, u) && u.pending != Reset
    modifies s, s.burstBuf, s.blob, u, u.ep3, u.tx, u.tx.buf, u.rx, u.rx.buf
    ensures Joined(s, u) && u.pending != Reset && old(u.delivered) <= u.delivered
    ensures s.log.shipped == old(s.log.shipped) + out && s.log.base == old(s.log.base)
    ensures old(s.Timely() && s.Current()) ==> s.Timely() && s.Current()
    ensures srcContig > 0 && out == [] && |old(u.tx.items)| < TX_CAPACITY ==> s.ring == []
  {
    hide ClockedSniffer.Valid, UsbCdc.Valid, Decided, Laps, Saw, Next, Collected, Ready,
         ClockedSniffer.Timely, ClockedSniffer.Current;
    armed := u.Tick(nowMs);
    var cap := u.Reserve();
    var space := u.WriteSpace();
    out, c := s.Service(nowMs, levels, us, space, srcContig, cap);
    var n := u.Fill(out, taking);
    assert out[..n] == out;
  }

  /** Clocked end to end, from the pin to what the host has read: with nothing pending in the
      sniffer, the endpoint idle and its ring empty, the host's bits are those sampled since
      start-up if and only if no flush has lost one. */
  lemma HostGetsThePin(s: ClockedSniffer, u: UsbCdc)
    requires Joined(s, u) && !u.ep3Busy && u.tx.items == []
    requires s.log.clean && !s.log.dropped && s.burstN == 0 && !s.burstNeedTerminal && s.ring == []
    requires |s.blob.all| == s.blob.epoch + 8 * s.taken
    ensures var bits := BitsOf(Bursts(NO_CHAIN, RecordsOf(RecsOf(Demux([], u.delivered)))));
            && |bits| + s.log.lost + s.log.base == |s.blob.all| + s.log.twice && s.log.base <= |s.blob.all|
            && (s.log.lost == 0 || s.log.twice == 0 ==>
                  (bits == s.blob.all[s.log.base..] <==> s.log.lost == s.log.twice))
  {
    hide *;
    JoinedIs(s, u);
    Conservation(u);
    HostReportsThePin(s);
  }

  lemma JoinedIs(s: ClockedSniffer, u: UsbCdc)
    requires Joined(s, u)
    ensures s.Valid() && u.Valid() && s.log.shipped == u.committed
  {
    hide ClockedSniffer.Valid, UsbCdc.Valid;
  }
}
