/** The clocked path as a whole: the active master drives the line, the sniffer captures and
    ships it, and the host's decoder reports the requests the master's clients made. */
module MdioEndToEnd {
  import opened Bytes
  import opened Cobs
  import opened RecordFramer
  import opened Clause22
  import opened HostCapture
  import opened ClockedLedger
  import ClockedBlob
  import opened ClockedSniffer
  import opened MdioWire
  import MdioMailbox
  import opened MdioMaster
  import Mmd

  function Slice(all: seq<bit>, a: nat, b: nat): seq<bit> { if a <= b <= |all| then all[a..b] else [] }

  /** The bits from `from` to the end, cut at the given places. */
  function Pieces(all: seq<bit>, from: nat, cuts: seq<nat>): seq<seq<bit>>
    decreases |cuts|
  {
    if cuts == [] then [Slice(all, from, |all|)]
    else [Slice(all, from, cuts[0])] + Pieces(all, cuts[0], cuts[1..])
  }

  function EndOf(s: Sent): seq<nat> { if ValidBits(s.rec.flags) > 0 then [s.End()] else [] }

  lemma {:induction false} TailEndsCons(s: Sent, rest: seq<Sent>)
    ensures TailEnds([s] + rest) == EndOf(s) + TailEnds(rest)
    decreases |rest|
  {
    hide Sent.End, ValidBits;
    var sent := [s] + rest;
    if rest == [] {
      assert sent[..0] == [];
    } else {
      var n := |rest| - 1;
      TailEndsCons(s, rest[..n]);
      assert sent[..n + 1] == [s] + rest[..n] && sent[n + 1] == rest[n];
      AssocEnds(EndOf(s), TailEnds(rest[..n]), EndOf(rest[n]));
    }
  }

  lemma AssocEnds(a: seq<nat>, b: seq<nat>, c: seq<nat>)
    ensures a + (b + c) == (a + b) + c
  {}

  /** A record joins the open chain; what has been collected is still a slice. */
  lemma Grown(all: seq<bit>, open: seq<bit>, c: Chain, from: nat, end: nat, s: Sent)
    requires WellTagged(all, s) && s.start == end && from <= end <= |all|
    requires open + BytesToBits(c.pay) == all[from..end]
    ensures end <= s.End() <= |all|
    ensures open + BurstBits(c.pay + s.rec.payload, ValidBits(s.rec.flags)) == all[from..s.End()]
  {
    hide BytesToBits, BurstBits, ValidBits;
    var v := ValidBits(s.rec.flags);
    BurstBitsConcat(c.pay, s.rec.payload, v);
    var bits := BurstBits(s.rec.payload, v);
    assert open + (BytesToBits(c.pay) + bits) == (open + BytesToBits(c.pay)) + bits;
    assert all[from..s.End()] == all[from..end] + all[end..s.End()];
  }

  lemma StretchesCons(open: seq<bit>, b: Burst, bs: seq<Burst>)
    requires !Overflowed(b.flags)
    ensures var o := open + BurstBits(b.payload, b.validBits);
            Stretches(open, [b] + bs) == if b.validBits != 0 then [o] + Stretches([], bs) else Stretches(o, bs)
  {
    hide BurstBits, Overflowed;
    assert ([b] + bs)[1..] == bs;
  }

  lemma LosslessCons(all: seq<bit>, c: Chain, end: nat, sent: seq<Sent>)
    requires Delivered(all, end, sent) && Lossless(sent) && sent != []
    ensures WellTagged(all, sent[0]) && sent[0].start == end && !Overflowed(sent[0].rec.flags)
    ensures Delivered(all, sent[0].End(), sent[1..]) && Lossless(sent[1..])
    ensures SentEnd(sent[0].End(), sent[1..]) == SentEnd(end, sent)
  {
    hide BurstBits, ValidBits, Overflowed, Continued;
    assert sent[0] in sent;
  }

  lemma DoneSending(all: seq<bit>, open: seq<bit>, c: Chain, from: nat)
    requires from <= |all| && open + BytesToBits(c.pay) == all[from..]
    requires Terminated(c, []) && (c.t0.None? ==> c == NO_CHAIN)
    ensures Stretches(open, Bursts(c, RecordsSent([]))) == Pieces(all, from, TailEnds([]))
  {
    NoBits();
    assert open + [] == open && all[from..] == all[from..|all|];
  }

  /** Without a loss, the hunter's stretches are what the pin did, cut where the capture
      program was restarted. */
  lemma {:induction false} StretchesArePieces(all: seq<bit>, open: seq<bit>, c: Chain, from: nat, end: nat,
                                              sent: seq<Sent>)
    requires Delivered(all, end, sent) && Lossless(sent) && Terminated(c, sent) && SentEnd(end, sent) == |all|
    requires from <= end <= |all| && open + BytesToBits(c.pay) == all[from..end]
    requires !Overflowed(c.flags) && (c.t0.None? ==> c == NO_CHAIN)
    ensures Stretches(open, Bursts(c, RecordsSent(sent))) == Pieces(all, from, TailEnds(sent))
    decreases |sent|
  {
    hide *;
    if sent == [] {
      EndIs(all, end, from);
      DoneSending(all, open, c, from);
    } else {
      var s, rest := sent[0], sent[1..];
      LosslessCons(all, c, end, sent);
      LosslessStep(c, sent);
      FirstRecord(c, sent);
      FirstSent(all, end, sent);
      Grown(all, open, c, from, end, s);
      var d := Extend(c, s.rec);
      ExtendFields(c, s.rec);
      assert sent == [s] + rest;
      TailEndsCons(s, rest);
      EndOfIs(s);
      assert [] + TailEnds(rest) == TailEnds(rest);
      if Continued(s.rec.flags) {
        WholeBytes(d.pay, s.rec.flags);
        StretchesArePieces(all, open, d, from, s.End(), rest);
      } else {
        var b := Close(d, s.rec);
        ClosedBurst(d, s.rec);
        StretchesCons(open, b, Bursts(NO_CHAIN, RecordsSent(rest)));
        NoChainLeft();
        if b.validBits != 0 {
          StretchesArePieces(all, [], NO_CHAIN, s.End(), s.End(), rest);
          PiecesCons(all, from, s.End(), TailEnds(rest));
        } else {
          StretchesArePieces(all, all[from..s.End()], NO_CHAIN, from, s.End(), rest);
        }
      }
    }
  }

  lemma EndIs(all: seq<bit>, end: nat, from: nat)
    requires SentEnd(end, []) == |all| && from <= end <= |all|
    ensures all[from..end] == all[from..]
  {}

  lemma EndOfIs(s: Sent)
    ensures EndOf(s) == if ValidBits(s.rec.flags) > 0 then [s.End()] else []
  {}

  lemma NoChainLeft()
    ensures NO_CHAIN.t0.None? && !Overflowed(NO_CHAIN.flags) && BytesToBits(NO_CHAIN.pay) == []
  {}

  lemma PiecesCons(all: seq<bit>, from: nat, cut: nat, cuts: seq<nat>)
    requires from <= cut <= |all|
    ensures Pieces(all, from, [cut] + cuts) == [all[from..cut]] + Pieces(all, cut, cuts)
  {
    assert ([cut] + cuts)[1..] == cuts;
  }

  /** Clocked end to end, as the hunter sees it: its stretches are the bits sampled since
      start-up, cut exactly where the eMCU was restarted behind a flushed partial byte. */
  lemma HunterSeesThePin(s: ClockedSniffer)
    requires s.Valid() && s.log.Exact() && !s.log.dropped
    requires s.burstN == 0 && !s.burstNeedTerminal && s.ring == []
    requires |s.blob.all| == s.blob.epoch + 8 * s.taken
    ensures Stretches([], Bursts(NO_CHAIN, RecordsOf(RecsOf(Demux([], s.log.shipped))))) ==
            Pieces(s.blob.all, s.log.base, s.blob.restarts)
  {
    var log, all := s.log, s.blob.all;
    hide *;
    DrainedBooks(s);
    HostReads(log);
    BooksOpened(log, all, |all|, [], 0, 0, 0, s.blob.restarts);
    EndOfBurst(log, all);
    NoBurst();
    NoChainLeft();
    StretchesArePieces(all, [], NO_CHAIN, log.base, log.base, log.sent);
  }

  lemma DrainedBooks(s: ClockedSniffer)
    requires s.Valid() && s.log.Exact() && !s.log.dropped
    requires s.burstN == 0 && !s.burstNeedTerminal && s.ring == []
    requires |s.blob.all| == s.blob.epoch + 8 * s.taken
    ensures WireBooks(s.log, []) && !OpenChain(s.log)
    ensures BitBooks(s.log, s.blob.all, |s.blob.all|, [], 0, 0, 0, s.blob.restarts)
  {
    hide WireBooks, Delivered, TailEnds, ClockedBlob.Blob.Valid, BurstBits, Lossless, SentEnd;
    assert s.burstBuf[..s.burstN] == [];
  }

  // ---- joining late, and restarts between transactions ---------------------------------------------

  /** No zero stands behind 32 ones: nothing here can begin a frame. */
  predicate Unframed(s: seq<bit>, ones: nat)
    decreases |s|
  {
    s == [] ||
    if s[0] == 1 then Unframed(s[1..], ones + 1) else ones < PREAMBLE && Unframed(s[1..], 0)
  }

  lemma {:induction false} FewerOnes(s: seq<bit>, k: nat, m: nat)
    requires Unframed(s, k) && m <= k
    ensures Unframed(s, m)
    decreases |s|
  {
    if s != [] && s[0] == 1 {
      FewerOnes(s[1..], k + 1, m + 1);
    }
  }

  lemma {:induction false} UnframedSuffix(s: seq<bit>, k: nat, d: nat)
    requires Unframed(s, k) && d <= |s|
    ensures Unframed(s[d..], 0)
    decreases d
  {
    if d == 0 {
      FewerOnes(s, k, 0);
    } else {
      UnframedSuffix(s[1..], if s[0] == 1 then k + 1 else 0, d - 1);
    }
  }

  lemma {:induction false} UnframedPrefix(s: seq<bit>, k: nat, d: nat)
    requires Unframed(s, k) && d <= |s|
    ensures Unframed(s[..d], k)
    decreases d
  {
    if d > 0 {
      UnframedPrefix(s[1..], if s[0] == 1 then k + 1 else 0, d - 1);
      assert s[..d][1..] == s[1..][..d - 1];
    }
  }

  lemma {:induction false} TooShort(s: seq<bit>, ones: nat)
    requires |s| + ones <= FRAME_BITS
    ensures Unframed(s, ones)
    decreases |s|
  {
    if s != [] {
      TooShort(s[1..], if s[0] == 1 then ones + 1 else 0);
    }
  }

  lemma {:induction false} OnesThen(n: nat, s: seq<bit>, ones: nat)
    requires Unframed(s, ones + n)
    ensures Unframed(Ones(n) + s, ones)
  {
    if n == 0 {
      assert Ones(0) + s == s;
    } else {
      OnesThen(n - 1, s, ones + 1);
      assert (Ones(n) + s)[1..] == Ones(n - 1) + s;
    }
  }

  /** What is left of a transaction when the sniffer comes to it late. */
  lemma JoinedLate(tx: Tx, bits: seq<bit>, d: nat)
    requires Carries(bits, tx) && 0 < d <= PREAMBLE + FRAME_BITS
    ensures Unframed((Ones(PREAMBLE) + bits)[d..], 0)
  {
    if d < PREAMBLE {
      Fields(bits, tx);
      StartIsZero(bits);
      TooShort(bits[1..], 0);
      OnesThen(PREAMBLE - d, bits, 0);
      assert (Ones(PREAMBLE) + bits)[d..] == Ones(PREAMBLE - d) + bits;
    } else {
      TooShort((Ones(PREAMBLE) + bits)[d..], 0);
    }
  }

  /** Behind such bits the hunter finds the transactions that follow. */
  lemma {:induction false} HuntLead(lead: seq<bit>, k: nat, frames: seq<seq<bit>>, plan: seq<Tx>)
    requires Unframed(lead, k) && |frames| == |plan| && CarryPlan(frames, plan)
    ensures |frames| == |plan| && (forall i :: 0 <= i < |frames| ==> |frames[i]| == FRAME_BITS)
    ensures SameFrames(Hunt(lead + OnWire(frames), k), SeenAll(plan, frames))
    decreases |lead|
  {
    CarriesLength(frames, plan);
    hide Carries, Seen, SeenAll, CarryPlan, OnWire;
    if lead == [] {
      assert lead + OnWire(frames) == OnWire(frames);
      HuntFirst(k, frames, plan);
    } else {
      assert (lead + OnWire(frames))[1..] == lead[1..] + OnWire(frames);
      HuntLead(lead[1..], if lead[0] == 1 then k + 1 else 0, frames, plan);
    }
  }

  lemma HuntFirst(k: nat, frames: seq<seq<bit>>, plan: seq<Tx>)
    requires |frames| == |plan| && CarryPlan(frames, plan)
    ensures |frames| == |plan| && (forall i :: 0 <= i < |frames| ==> |frames[i]| == FRAME_BITS)
    ensures SameFrames(Hunt(OnWire(frames), k), SeenAll(plan, frames))
  {
    hide *;
    SeenOnWire(frames, plan);
    if frames == [] {
      HuntNone(k);
      SameNothing();
    } else {
      var rest := frames[0] + OnWire(frames[1..]);
      WireFirst(frames);
      HuntPreamble(PREAMBLE, rest, k);
      HuntPreamble(PREAMBLE, rest, 0);
      ManyOnes(rest, k + PREAMBLE, PREAMBLE);
    }
  }

  lemma WireFirst(frames: seq<seq<bit>>)
    requires frames != []
    ensures OnWire(frames) == Ones(PREAMBLE) + (frames[0] + OnWire(frames[1..])) && PREAMBLE == 32
  {}

  lemma SameNothing()
    ensures SameFrames([], [])
  {}

  lemma HuntNone(k: nat)
    ensures Hunt([], k) == Hunt([], 0) == [] && OnWire([]) == [] && SeenAll([], []) == []
  {}

  lemma {:induction false} WireLength(frames: seq<seq<bit>>)
    requires forall i :: 0 <= i < |frames| ==> |frames[i]| == FRAME_BITS
    ensures |OnWire(frames)| == MdioMailbox.CLOCKS * |frames|
  {
    if frames != [] {
      assert forall i :: 0 <= i < |frames| - 1 ==> frames[1..][i] == frames[i + 1];
      WireLength(frames[1..]);
    }
  }

  /** Ordered places between `from` and `to`. */
  predicate Ascending(from: nat, cuts: seq<nat>, to: nat)
    decreases |cuts|
  {
    if cuts == [] then from <= to else from <= cuts[0] && Ascending(cuts[0], cuts[1..], to)
  }

  lemma {:induction false} AscendingEnds(from: nat, cuts: seq<nat>, to: nat)
    requires Ascending(from, cuts, to)
    ensures from <= to
    decreases |cuts|
  {
    if cuts != [] {
      AscendingEnds(cuts[0], cuts[1..], to);
    }
  }

  /** Each cut is before the first transaction or between two. */
  predicate Between(cuts: seq<nat>, first: nat) {
    forall c :: c in cuts ==> c <= first || (c - first) % MdioMailbox.CLOCKS == 0
  }

  /** Cut at such places, the bits still give every frame. */
  lemma {:induction false} PiecesDecode(all: seq<bit>, from: nat, cuts: seq<nat>, lead: seq<bit>,
                                        frames: seq<seq<bit>>, plan: seq<Tx>)
    requires from <= |all| && all[from..] == lead + OnWire(frames) && Unframed(lead, 0)
    requires |frames| == |plan| && CarryPlan(frames, plan)
    requires Ascending(from, cuts, |all|) && Between(cuts, from + |lead|)
    ensures |frames| == |plan| && (forall i :: 0 <= i < |frames| ==> |frames[i]| == FRAME_BITS)
    ensures SameFrames(FramesOf(Pieces(all, from, cuts)), SeenAll(plan, frames))
    decreases |cuts|
  {
    hide *;
    CarriesLength(frames, plan);
    if cuts == [] {
      HuntLead(lead, 0, frames, plan);
      LastPiece(all, from);
    } else {
      var cut, rest := cuts[0], cuts[1..];
      FirstCut(from, cuts, |all|, from + |lead|);
      assert cuts == [cut] + rest;
      PiecesCons(all, from, cut, rest);
      FramesCons(all[from..cut], Pieces(all, cut, rest));
      WireLength(frames);
      assert all[from..cut] == all[from..][..cut - from] && all[cut..] == all[from..][cut - from..];
      if cut <= from + |lead| {
        CutInLead(all, from, cut, lead, OnWire(frames));
        PiecesDecode(all, cut, rest, lead[cut - from..], frames, plan);
        SameBoth([], FramesOf(Pieces(all, cut, rest)), [], SeenAll(plan, frames));
        NoFrame(FramesOf(Pieces(all, cut, rest)), SeenAll(plan, frames));
      } else {
        var b := (cut - from - |lead|) / MdioMailbox.CLOCKS;
        CutOnWire(all, from, cut, b, lead, frames, plan);
        LaterCuts(from + |lead|, cut, b, rest, |all|);
        PiecesDecode(all, cut, rest, [], frames[b..], plan[b..]);
        SameBoth(DecodeBits(all[from..cut]), FramesOf(Pieces(all, cut, rest)),
                 SeenAll(plan[..b], frames[..b]), SeenAll(plan[b..], frames[b..]));
      }
    }
  }

  lemma NoFrame(f: seq<Frame>, g: seq<Frame>)
    ensures [] + f == f && [] + g == g
  {}

  lemma LastPiece(all: seq<bit>, from: nat)
    requires from <= |all|
    ensures FramesOf(Pieces(all, from, [])) == Hunt(all[from..], 0)
  {
    hide Hunt;
    var bits := all[from..];
    assert all[from..|all|] == bits;
    var ss := Pieces(all, from, []);
    assert ss[..0] == [];
  }

  lemma FirstCut(from: nat, cuts: seq<nat>, to: nat, first: nat)
    requires cuts != [] && Ascending(from, cuts, to) && Between(cuts, first)
    ensures from <= cuts[0] <= to && Ascending(cuts[0], cuts[1..], to) && Between(cuts[1..], first)
    ensures cuts[0] <= first || (cuts[0] - first) % MdioMailbox.CLOCKS == 0
  {
    AscendingEnds(cuts[0], cuts[1..], to);
    assert cuts[0] in cuts && forall c :: c in cuts[1..] ==> c in cuts;
  }

  lemma LaterCuts(first: nat, cut: nat, b: nat, cuts: seq<nat>, to: nat)
    requires Ascending(cut, cuts, to) && Between(cuts, first) && cut == first + MdioMailbox.CLOCKS * b
    ensures Between(cuts, cut)
  {
    forall c | c in cuts
      ensures c <= cut || (c - cut) % MdioMailbox.CLOCKS == 0
    {
      if c > first {
        Whole(c - first, b);
      }
    }
  }

  lemma Whole(n: nat, b: nat)
    requires n % 64 == 0
    ensures (n - 64 * b) % 64 == 0
  {}

  lemma FramesCons(s: seq<bit>, ss: seq<seq<bit>>)
    ensures FramesOf([s] + ss) == DecodeBits(s) + FramesOf(ss)
  {
    hide DecodeBits;
    FramesConcat([s], ss);
    assert [s][..0] == [];
  }

  lemma CutInLead(all: seq<bit>, from: nat, cut: nat, lead: seq<bit>, wire: seq<bit>)
    requires from <= cut <= |all| && all[from..] == lead + wire && Unframed(lead, 0)
    requires cut - from <= |lead|
    ensures DecodeBits(all[from..cut]) == [] && Unframed(lead[cut - from..], 0)
    ensures all[cut..] == lead[cut - from..] + wire
  {
    hide *;
    SplitAt(all, from, cut, lead, wire);
    UnframedPrefix(lead, 0, cut - from);
    UnframedSuffix(lead, 0, cut - from);
    Quiet(lead[..cut - from]);
  }

  lemma SplitAt(all: seq<bit>, from: nat, cut: nat, lead: seq<bit>, wire: seq<bit>)
    requires from <= cut <= |all| && all[from..] == lead + wire && cut - from <= |lead|
    ensures all[from..cut] == lead[..cut - from] && all[cut..] == lead[cut - from..] + wire
  {
    assert all[from..cut] == all[from..][..cut - from] && all[cut..] == all[from..][cut - from..];
  }

  lemma Quiet(lead: seq<bit>)
    requires Unframed(lead, 0)
    ensures DecodeBits(lead) == []
  {
    hide Unframed, Hunt;
    HuntNone(0);
    HuntLead(lead, 0, [], []);
    assert lead + [] == lead;
  }

  lemma CutOnWire(all: seq<bit>, from: nat, cut: nat, b: nat, lead: seq<bit>, frames: seq<seq<bit>>, plan: seq<Tx>)
    requires from <= cut <= |all| && all[from..] == lead + OnWire(frames) && Unframed(lead, 0)
    requires |frames| == |plan| && CarryPlan(frames, plan) && cut == from + |lead| + MdioMailbox.CLOCKS * b
    ensures b <= |frames| && (forall i :: 0 <= i < |frames| ==> |frames[i]| == FRAME_BITS)
    ensures CarryPlan(frames[b..], plan[b..]) && all[cut..] == [] + OnWire(frames[b..]) && Unframed([], 0)
    ensures SameFrames(DecodeBits(all[from..cut]), SeenAll(plan[..b], frames[..b]))
    ensures SeenAll(plan, frames) == SeenAll(plan[..b], frames[..b]) + SeenAll(plan[b..], frames[b..])
  {
    CarriesLength(frames, plan);
    hide *;
    WireCut(all, from, cut, b, lead, frames);
    SeenSplit(frames, plan, b);
    HuntLead(lead, 0, frames[..b], plan[..b]);
  }

  lemma WireCut(all: seq<bit>, from: nat, cut: nat, b: nat, lead: seq<bit>, frames: seq<seq<bit>>)
    requires from <= cut <= |all| && all[from..] == lead + OnWire(frames)
    requires forall i :: 0 <= i < |frames| ==> |frames[i]| == FRAME_BITS
    requires cut == from + |lead| + MdioMailbox.CLOCKS * b
    ensures b <= |frames| && all[from..cut] == lead + OnWire(frames[..b]) && all[cut..] == [] + OnWire(frames[b..])
    ensures Unframed([], 0) && DecodeBits(all[from..cut]) == Hunt(all[from..cut], 0)
  {
    hide OnWire, Hunt;
    WireLength(frames);
    assert frames == frames[..b] + frames[b..];
    OnWireConcat(frames[..b], frames[b..]);
    WireLength(frames[..b]);
    assert all[from..cut] == all[from..][..cut - from] && all[cut..] == all[from..][cut - from..];
  }

  lemma {:induction false} SeenSplit(frames: seq<seq<bit>>, plan: seq<Tx>, b: nat)
    requires |frames| == |plan| && CarryPlan(frames, plan) && b <= |frames|
    ensures CarryPlan(frames[..b], plan[..b]) && CarryPlan(frames[b..], plan[b..])
    ensures forall i :: 0 <= i < |frames| ==> |frames[i]| == FRAME_BITS
    ensures SeenAll(plan, frames) == SeenAll(plan[..b], frames[..b]) + SeenAll(plan[b..], frames[b..])
    decreases b
  {
    CarriesLength(frames, plan);
    CarryParts(frames, plan, b);
    hide *;
    if b == 0 {
      assert frames[0..] == frames && plan[0..] == plan && frames[..0] == [] && plan[..0] == [];
      HuntNone(0);
    } else {
      assert frames[..b][1..] == frames[1..][..b - 1] && plan[..b][1..] == plan[1..][..b - 1];
      assert frames[1..][b - 1..] == frames[b..] && plan[1..][b - 1..] == plan[b..];
      CarryParts(frames, plan, 1);
      SeenSplit(frames[1..], plan[1..], b - 1);
      SeenFirst(frames, plan);
      SeenFirst(frames[..b], plan[..b]);
      Clause22.Assoc([Seen(plan[0], frames[0])], SeenAll(plan[1..][..b - 1], frames[1..][..b - 1]),
                     SeenAll(plan[b..], frames[b..]));
    }
  }

  lemma CarryParts(frames: seq<seq<bit>>, plan: seq<Tx>, b: nat)
    requires |frames| == |plan| && CarryPlan(frames, plan) && b <= |frames|
    ensures CarryPlan(frames[..b], plan[..b]) && CarryPlan(frames[b..], plan[b..])
  {
    hide Carries;
  }

  lemma SeenFirst(frames: seq<seq<bit>>, plan: seq<Tx>)
    requires |frames| == |plan| && frames != [] && forall i :: 0 <= i < |frames| ==> |frames[i]| == FRAME_BITS
    ensures SeenAll(plan, frames) == [Seen(plan[0], frames[0])] + SeenAll(plan[1..], frames[1..])
  {
    hide Seen;
  }

  /** The places where the program was restarted are ordered. */
  lemma {:induction false} EndsAscend(all: seq<bit>, end: nat, sent: seq<Sent>)
    requires Delivered(all, end, sent) && end <= |all|
    ensures Ascending(end, TailEnds(sent), |all|)
    decreases |sent|
  {
    hide *;
    if sent == [] {
      NoEnds(end, |all|);
    } else {
      var s, rest := sent[0], sent[1..];
      FirstSent(all, end, sent);
      SentInside(all, end, s);
      EndsAscend(all, s.End(), rest);
      TailEndsCons(s, rest);
      assert sent == [s] + rest;
      EndOfIs(s);
      MoreEnds(end, s.End(), TailEnds(rest), |all|);
      assert [] + TailEnds(rest) == TailEnds(rest);
    }
  }

  lemma NoEnds(from: nat, to: nat)
    ensures from <= to ==> Ascending(from, TailEnds([]), to)
  {}

  lemma SentInside(all: seq<bit>, end: nat, s: Sent)
    requires WellTagged(all, s) && Follows(end, s)
    ensures end <= s.End() <= |all|
  {
    hide BurstBits;
  }

  lemma MoreEnds(from: nat, cut: nat, cuts: seq<nat>, to: nat)
    requires Ascending(cut, cuts, to) && from <= cut
    ensures Ascending(from, cuts, to) && Ascending(from, [cut] + cuts, to)
  {
    assert ([cut] + cuts)[1..] == cuts;
  }

  // ---- the whole path ----------------------------------------------------------------------------

  /** Nothing is flagged, so the register tables are never forgotten. */
  lemma OneEpoch(log: Log, all: seq<bit>)
    requires Delivered(all, log.base, log.sent) && Lossless(log.sent)
    ensures var bs := Bursts(NO_CHAIN, RecordsSent(log.sent));
            EventsOf(Epochs([], [], bs)) == Mmd.Folded(Mmd.UNKNOWN, FramesOf(Stretches([], bs)))
  {
    hide *;
    NoChain(all, log.base);
    var placed := SeamsAreFlagged(all, NO_CHAIN, log.base, log.base, log.base, log.sent);
    var bs := Bursts(NO_CHAIN, RecordsSent(log.sent));
    PlacedBursts(placed);
    EpochsAreStretches([], [], bs);
    var ss := Stretches([], bs);
    assert [] + ss == ss;
    OneEvents(ss);
  }

  lemma {:induction false} PlacedBursts(bs: seq<Placed>)
    requires forall p :: p in bs ==> !Overflowed(p.burst.flags)
    ensures forall b :: b in BurstsPlaced(bs) ==> !Overflowed(b.flags)
  {
    hide Overflowed;
    if bs != [] {
      assert bs[0] in bs && forall p :: p in bs[1..] ==> p in bs;
      PlacedBursts(bs[1..]);
    }
  }

  lemma OneEvents(ss: seq<seq<bit>>)
    ensures EventsOf([ss]) == Mmd.Folded(Mmd.UNKNOWN, FramesOf(ss))
  {
    hide Mmd.Folded, FramesOf;
    assert [ss][..0] == [];
  }

  /** Sniffer and host: the events are those of the transactions on the pin. */
  lemma HostSeesTransactions(s: ClockedSniffer, lead: seq<bit>, frames: seq<seq<bit>>, plan: seq<Tx>)
    requires s.Valid() && s.log.Exact() && !s.log.dropped
    requires s.burstN == 0 && !s.burstNeedTerminal && s.ring == []
    requires |s.blob.all| == s.blob.epoch + 8 * s.taken
    requires s.log.base <= |s.blob.all| && s.blob.all[s.log.base..] == lead + OnWire(frames) && Unframed(lead, 0)
    requires Between(s.blob.restarts, s.log.base + |lead|) && |frames| == |plan| && CarryPlan(frames, plan)
    ensures |frames| == |plan| && forall i :: 0 <= i < |frames| ==> |frames[i]| == FRAME_BITS
    ensures EventsOf(Epochs([], [], Bursts(NO_CHAIN, RecordsOf(RecsOf(Demux([], s.log.shipped)))))) ==
            Mmd.Folded(Mmd.UNKNOWN, SeenAll(plan, frames))
  {
    hide *;
    HunterSeesThePin(s);
    DrainedBooks(s);
    EventsOfPin(s.log, s.blob.all, s.blob.restarts, lead, frames, plan);
  }

  lemma EventsOfPin(log: Log, all: seq<bit>, cuts: seq<nat>, lead: seq<bit>, frames: seq<seq<bit>>, plan: seq<Tx>)
    requires log.Exact() && !log.dropped && WireBooks(log, []) && !OpenChain(log)
    requires BitBooks(log, all, |all|, [], 0, 0, 0, cuts)
    requires var bs := Bursts(NO_CHAIN, RecordsOf(RecsOf(Demux([], log.shipped))));
             Stretches([], bs) == Pieces(all, log.base, cuts)
    requires log.base <= |all| && all[log.base..] == lead + OnWire(frames) && Unframed(lead, 0)
    requires Between(cuts, log.base + |lead|) && |frames| == |plan| && CarryPlan(frames, plan)
    ensures |frames| == |plan| && forall i :: 0 <= i < |frames| ==> |frames[i]| == FRAME_BITS
    ensures EventsOf(Epochs([], [], Bursts(NO_CHAIN, RecordsOf(RecsOf(Demux([], log.shipped)))))) ==
            Mmd.Folded(Mmd.UNKNOWN, SeenAll(plan, frames))
  {
    hide *;
    HostReads(log);
    BooksOpened(log, all, |all|, [], 0, 0, 0, cuts);
    OneEpoch(log, all);
    EndsAscend(all, log.base, log.sent);
    PiecesDecode(all, log.base, cuts, lead, frames, plan);
    Mmd.FoldSame(Mmd.UNKNOWN, FramesOf(Pieces(all, log.base, cuts)), SeenAll(plan, frames));
  }

  /** From the clients of the master to the events of the host. The sniffer has captured what the
      master and its program put on the wire, behind whatever bits it started in, and shipped it
      without a loss; its own program was restarted between transactions only. The events the
      host decodes from the bytes are exactly one per request, agreeing with what each client
      was told. */
  lemma HostReportsTheRequests(s: ClockedSniffer, m: Master, lead: seq<bit>)
    requires s.Valid() && s.log.Exact() && !s.log.dropped
    requires s.burstN == 0 && !s.burstNeedTerminal && s.ring == []
    requires |s.blob.all| == s.blob.epoch + 8 * s.taken
    requires s.log.base <= |s.blob.all| && s.blob.all[s.log.base..] == lead + m.blob.wire && Unframed(lead, 0)
    requires Between(s.blob.restarts, s.log.base + |lead|)
    requires m.Valid() && m.clean && !m.active
    requires forall o :: o in m.done ==> o.status != Timeout && Answered(o) && OutsideWindow(o.req)
    ensures EventsOf(Epochs([], [], Bursts(NO_CHAIN, RecordsOf(RecsOf(Demux([], s.log.shipped)))))) == Reports(m.done)
  {
    hide *;
    WireReadsBack(m, Mmd.UNKNOWN);
    PostedAll(m);
    HostSeesTransactions(s, lead, m.blob.frames, m.posted);
    SeenOnWire(m.blob.frames, m.posted);
  }

  lemma PostedAll(m: Master)
    requires m.Valid() && m.clean && !m.active
    requires forall o :: o in m.done ==> o.status != Timeout
    ensures |m.blob.frames| == |m.posted|
  {
    hide Told, AllFrames, CarryPlan, MdioMailbox.Blob.Serving;
    assert NoTimeouts(m.done);
  }

  lemma SeenOnWire(frames: seq<seq<bit>>, plan: seq<Tx>)
    requires |frames| == |plan| && CarryPlan(frames, plan)
    ensures |frames| == |plan| && forall i :: 0 <= i < |frames| ==> |frames[i]| == FRAME_BITS
    ensures DecodeBits(OnWire(frames)) == Hunt(OnWire(frames), 0) == SeenAll(plan, frames)
  {
    CarriesLength(frames, plan);
    hide OnWire, Hunt, Carries, Seen, SeenAll;
    HuntAll(plan, frames, []);
    HuntNone(0);
    assert OnWire(frames) + [] == OnWire(frames);
  }
}
