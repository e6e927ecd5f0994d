/** What the active MDIO master puts on the wire for each request, and what the passive
    sniffer's decoder reads back: the two are inverses (frame format: IEEE 802.3 section
    22.2.4.5; MMD indirect access: Annex 22D). */
module MdioWire {
  import opened Bytes
  import opened Cobs
  import opened Clause22
  import opened Mmd

  datatype Op = OpRead | OpWrite | OpReadMmd | OpWriteMmd
  datatype Status = Idle | Pending | Done | NoResp | Timeout

  /** The arguments of Master::submit. */
  datatype Request = Request(op: Op, phy: byte, mmd: byte, reg: uint16, val: uint16)

  type field = n: nat | n < 32

  /** One Clause-22 transaction. */
  datatype Tx = Tx(read: bool, phy: field, reg: field, val: uint16)

  const MMD_DATA: nat := 0x4000

  /** The transactions a request takes. */
  function Plan(r: Request): (plan: seq<Tx>)
    ensures |plan| == if r.op.OpRead? || r.op.OpWrite? then 1 else 4
  {
    var phy := r.phy % 32;
    match r.op
    case OpRead => [Tx(true, phy, r.reg % 32, r.val)]
    case OpWrite => [Tx(false, phy, r.reg % 32, r.val)]
    case _ => [Tx(false, phy, REG_MMD_CTRL, r.mmd % 32), Tx(false, phy, REG_MMD_DATA, r.reg),
               Tx(false, phy, REG_MMD_CTRL, MMD_DATA + r.mmd % 32), Tx(r.op.OpReadMmd?, phy, REG_MMD_DATA, r.val)]
  }

  function OpBits(tx: Tx): nat { if tx.read then OP_READ else OP_WRITE }

  /** ST OP PHYAD REGAD TA DATA, as the section of the standard lays them out. */
  function FrameBits(tx: Tx): (bits: seq<bit>)
    ensures |bits| == FRAME_BITS
  {
    ToBits(1, 2) + ToBits(OpBits(tx), 2) + ToBits(tx.phy, 5) + ToBits(tx.reg, 5) +
    ToBits(if tx.read then 0 else 2, 2) + ToBits(if tx.read then 0 else tx.val, 16)
  }

  /** The 32 bits after the preamble: a read drives the first fourteen only. */
  ghost predicate Carries(bits: seq<bit>, tx: Tx) {
    |bits| == FRAME_BITS && if tx.read then bits[..14] == FrameBits(tx)[..14] else bits == FrameBits(tx)
  }

  /** Each transaction is 64 clocks, and the clock rests in between. */
  function OnWire(frames: seq<seq<bit>>): seq<bit> {
    if frames == [] then [] else Ones(PREAMBLE) + frames[0] + OnWire(frames[1..])
  }

  lemma {:induction false} OnWireSnoc(frames: seq<seq<bit>>, last: seq<bit>)
    ensures OnWire(frames + [last]) == OnWire(frames) + (Ones(PREAMBLE) + last)
  {
    if frames == [] {
      assert OnWire([last]) == Ones(PREAMBLE) + last + OnWire([]);
    } else {
      OnWireSnoc(frames[1..], last);
      assert (frames + [last])[1..] == frames[1..] + [last];
    }
  }

  // ---- the decoder on one transaction ------------------------------------------------------------

  /** The frame the sniffer reports for a transaction. */
  function Seen(tx: Tx, bits: seq<bit>): Frame
    requires |bits| == FRAME_BITS
  {
    var ta, data := Val(bits[14..16]), Val(bits[16..32]);
    Frame(OpBits(tx), tx.phy, tx.reg, ta, data, PREAMBLE, tx.read && ta == 3 && data == 0xFFFF)
  }

  lemma Fields(bits: seq<bit>, tx: Tx)
    requires Carries(bits, tx)
    ensures Val(bits[0..2]) == 1 && Val(bits[2..4]) == OpBits(tx)
    ensures Val(bits[4..9]) == tx.phy && Val(bits[9..14]) == tx.reg
    ensures !tx.read ==> Val(bits[14..16]) == 2 && Val(bits[16..32]) == tx.val
  {
    var f := FrameBits(tx);
    assert Pow2(2) == 4 && Pow2(5) == 32 by { SmallPowers(); }
    ValOfBits(1, 2);
    ValOfBits(OpBits(tx), 2);
    ValOfBits(tx.phy, 5);
    ValOfBits(tx.reg, 5);
    HeadFields(bits, tx);
    if !tx.read {
      assert Pow2(16) == WORD16 by { SmallPowers(); }
      ValOfBits(2, 2);
      ValOfBits(tx.val, 16);
      TailFields(bits, tx);
    }
  }

  lemma SmallPowers()
    ensures Pow2(2) == 4 && Pow2(5) == 32 && Pow2(8) == 256 && Pow2(16) == WORD16
  {
    assert Pow2(4) == 16 && Pow2(8) == 256 && Pow2(12) == 4096;
  }

  lemma HeadFields(bits: seq<bit>, tx: Tx)
    requires Carries(bits, tx)
    ensures bits[0..2] == ToBits(1, 2) && bits[2..4] == ToBits(OpBits(tx), 2)
    ensures bits[4..9] == ToBits(tx.phy, 5) && bits[9..14] == ToBits(tx.reg, 5)
  {
    hide ToBits;
    var f := FrameBits(tx);
    assert bits[..14] == f[..14];
    assert bits[0..2] == bits[..14][0..2] && bits[2..4] == bits[..14][2..4];
    assert bits[4..9] == bits[..14][4..9] && bits[9..14] == bits[..14][9..14];
  }

  lemma TailFields(bits: seq<bit>, tx: Tx)
    requires Carries(bits, tx) && !tx.read
    ensures bits[14..16] == ToBits(2, 2) && bits[16..32] == ToBits(tx.val, 16)
  {
    hide ToBits;
  }

  /** One transaction: exactly one frame, and the hunter is back at its start. */
  lemma HuntTransaction(tx: Tx, bits: seq<bit>, rest: seq<bit>)
    requires Carries(bits, tx)
    ensures Hunt(Ones(PREAMBLE) + bits + rest, 0) == [Seen(tx, bits)] + Hunt(rest, 0)
  {
    Fields(bits, tx);
    HuntFrame(bits, PREAMBLE, rest);
    hide Val, Hunt, Carries;
    assert Ones(PREAMBLE) + bits + rest == Ones(PREAMBLE) + (bits + rest);
    HuntPreamble(PREAMBLE, bits + rest, 0);
  }

  // ---- whole requests ------------------------------------------------------------------------------

  /** A request the master has finished: the frames it put on the wire and what the client
      found in its Response. */
  datatype Outcome = Outcome(req: Request, frames: seq<seq<bit>>, status: Status, value: uint16)

  /** Frames that carry the first transactions of a plan. */
  ghost predicate CarryPlan(frames: seq<seq<bit>>, plan: seq<Tx>) {
    |frames| <= |plan| && forall i :: 0 <= i < |frames| ==> Carries(frames[i], plan[i])
  }

  function IsRead(op: Op): bool { op.OpRead? || op.OpReadMmd? }

  /** The client got what the last transaction brought: a read's value or "no PHY answered", as
      the turnaround bit TA0 said. */
  ghost predicate Reported(o: Outcome) {
    && |o.frames| == |Plan(o.req)| && CarryPlan(o.frames, Plan(o.req))
    && var last := o.frames[|o.frames| - 1];
       if IsRead(o.req.op) then
         if last[15] == 1 then o.status == NoResp else o.status == Done && o.value == Val(last[16..32])
       else o.status == Done
  }

  /** A PHY that answers drives TA0 low; without one the pulled-up line stays high. */
  ghost predicate Answered(o: Outcome) {
    IsRead(o.req.op) && o.frames != [] ==>
      var last := o.frames[|o.frames| - 1];
      |last| == FRAME_BITS && (last[15] == 0 || last[14..] == Ones(18))
  }

  /** The event a client would write down from its request and Response alone. */
  function ReportOf(o: Outcome): Event {
    var mmd := o.req.op.OpReadMmd? || o.req.op.OpWriteMmd?;
    var op := if IsRead(o.req.op) then OP_READ else OP_WRITE;
    var none := o.status == NoResp;
    Event(o.req.phy % 32, if mmd then Some(o.req.mmd % 32) else None,
          Some(if mmd then o.req.reg else o.req.reg % 32), op,
          if none then None else Some(if IsRead(o.req.op) then o.value else o.req.val), none)
  }

  function SeenAll(plan: seq<Tx>, frames: seq<seq<bit>>): seq<Frame>
    requires |frames| == |plan| && forall i :: 0 <= i < |frames| ==> |frames[i]| == FRAME_BITS
  {
    if plan == [] then [] else [Seen(plan[0], frames[0])] + SeenAll(plan[1..], frames[1..])
  }

  lemma {:induction false} HuntAll(plan: seq<Tx>, frames: seq<seq<bit>>, rest: seq<bit>)
    requires |frames| == |plan| && CarryPlan(frames, plan)
    ensures Hunt(OnWire(frames) + rest, 0) == SeenAll(plan, frames) + Hunt(rest, 0)
  {
    hide Hunt, Carries, Seen;
    CarriesLength(frames, plan);
    if plan == [] {
      assert OnWire(frames) + rest == rest;
      assert [] + Hunt(rest, 0) == Hunt(rest, 0);
    } else {
      HuntAll(plan[1..], frames[1..], rest);
      var more := OnWire(frames[1..]) + rest;
      assert OnWire(frames) + rest == Ones(PREAMBLE) + frames[0] + more;
      HuntTransaction(plan[0], frames[0], more);
      Clause22.Assoc([Seen(plan[0], frames[0])], SeenAll(plan[1..], frames[1..]), Hunt(rest, 0));
    }
  }

  lemma CarriesLength(frames: seq<seq<bit>>, plan: seq<Tx>)
    requires CarryPlan(frames, plan)
    ensures forall i :: 0 <= i < |frames| ==> |frames[i]| == FRAME_BITS
  {}

  /** In which decoder states a request shows up as what it was: the registers of the MMD
      window itself do not, except that an unanswered read of register 14 outside a data mode
      is reported plainly. */
  predicate Shown(r: Regs, o: Outcome) {
    var phy, reg := o.req.phy % 32, o.req.reg % 32;
    && (o.req.op.OpWrite? ==> reg != REG_MMD_CTRL && reg != REG_MMD_DATA)
    && (o.req.op.OpRead? && reg == REG_MMD_DATA ==>
          o.status == NoResp && (phy !in r.devad || phy !in r.func || r.func[phy] == 0))
  }

  /** What the sniffer saw in the last transaction of a finished request. */
  lemma LastSeen(o: Outcome)
    requires Reported(o) && Answered(o)
    ensures var n := |o.frames|;
            var f := Seen(Plan(o.req)[n - 1], o.frames[n - 1]);
            && f.noResponse == (o.status == NoResp)
            && (o.status != NoResp ==> f.data == if IsRead(o.req.op) then o.value else o.req.val)
  {
    var n := |o.frames|;
    var last, tx := o.frames[n - 1], Plan(o.req)[n - 1];
    assert Carries(last, tx);
    Fields(last, tx);
    assert last[14..16][..1] == [last[14]];
    assert Val(last[14..16]) == 2 * Val([last[14]]) + last[15];
    if tx.read && last[15] == 1 {
      assert last[16..32] == Ones(16);
      OnesVal();
    }
  }

  lemma OnesVal()
    ensures Val(Ones(16)) == 0xFFFF && Val(Ones(1)) == 1
  {
    OnesValOf(16);
    OnesValOf(1);
    SmallPowers();
  }

  lemma {:induction false} OnesValOf(n: nat)
    ensures Val(Ones(n)) == Pow2(n) - 1
  {
    if n > 0 {
      OnesValOf(n - 1);
      assert Ones(n)[..n - 1] == Ones(n - 1);
    }
  }

  lemma SeenOne(plan: seq<Tx>, frames: seq<seq<bit>>)
    requires |frames| == |plan| == 1 && CarryPlan(frames, plan)
    ensures CarriesFrames(frames) && SeenAll(plan, frames) == [Seen(plan[0], frames[0])]
  {
    hide Carries, Seen;
    CarriesLength(frames, plan);
    assert SeenAll(plan[1..], frames[1..]) == [];
  }

  predicate CarriesFrames(frames: seq<seq<bit>>) { forall i :: 0 <= i < |frames| ==> |frames[i]| == FRAME_BITS }

  lemma SeenFour(plan: seq<Tx>, frames: seq<seq<bit>>)
    requires |frames| == |plan| == 4 && CarryPlan(frames, plan)
    ensures CarriesFrames(frames)
    ensures SeenAll(plan, frames) == [Seen(plan[0], frames[0])] + ([Seen(plan[1], frames[1])] +
                                     ([Seen(plan[2], frames[2])] + [Seen(plan[3], frames[3])]))
  {
    hide Carries, Seen;
    CarriesLength(frames, plan);
    SeenStep(plan, frames);
    SeenStep(plan[1..], frames[1..]);
    SeenStep(plan[2..], frames[2..]);
    SeenStep(plan[3..], frames[3..]);
    assert SeenAll(plan[4..], frames[4..]) == [];
    assert [Seen(plan[3], frames[3])] + [] == [Seen(plan[3], frames[3])];
    assert plan[1..][1..] == plan[2..] && plan[2..][1..] == plan[3..] && plan[3..][1..] == plan[4..];
    assert frames[1..][1..] == frames[2..] && frames[2..][1..] == frames[3..] && frames[3..][1..] == frames[4..];
  }

  lemma SeenStep(plan: seq<Tx>, frames: seq<seq<bit>>)
    requires |frames| == |plan| > 0 && CarriesFrames(frames)
    ensures SeenAll(plan, frames) == [Seen(plan[0], frames[0])] + SeenAll(plan[1..], frames[1..])
  {}

  /** A Clause-22 request: one frame, and one event exactly when the decoder shows it. */
  lemma FoldPlain(r: Regs, o: Outcome)
    requires Reported(o) && Answered(o) && (o.req.op.OpRead? || o.req.op.OpWrite?)
    ensures CarriesFrames(o.frames)
    ensures Folded(r, SeenAll(Plan(o.req), o.frames)) == [ReportOf(o)] <==> Shown(r, o)
  {
    LastSeen(o);
    SeenOne(Plan(o.req), o.frames);
    var f := Seen(Plan(o.req)[0], o.frames[0]);
    hide Reported, Answered, CarryPlan, SeenAll, Val;
    FoldCons(r, f, []);
    FoldEnd(FoldOne(r, f).0);
    assert [f] + [] == [f];
    assert [FoldOne(r, f).1] != [];
    FoldedOne(r, f, ReportOf(o));
  }

  lemma FoldedOne(r: Regs, f: Frame, e: Event)
    ensures Folded(r, [f]) == [e] <==> FoldOne(r, f).1 == Some(e)
  {
    FoldCons(r, f, []);
    FoldEnd(FoldOne(r, f).0);
    hide FoldOne, Folded;
    assert [f] + [] == [f];
    if FoldOne(r, f).1.Some? {
      assert Folded(r, [f]) == [FoldOne(r, f).1.value];
      assert [FoldOne(r, f).1.value][0] == FoldOne(r, f).1.value && [e][0] == e;
    }
  }

  /** An MMD request: three silent frames, then the access with its device and address. */
  lemma FoldMmd(r: Regs, o: Outcome)
    requires Reported(o) && Answered(o) && (o.req.op.OpReadMmd? || o.req.op.OpWriteMmd?)
    ensures CarriesFrames(o.frames)
    ensures Folded(r, SeenAll(Plan(o.req), o.frames)) == [ReportOf(o)] && Shown(r, o)
  {
    LastSeen(o);
    var plan, frames := Plan(o.req), o.frames;
    SeenFour(plan, frames);
    SetUpSeen(o);
    var f0, f1, f2, f3 := Seen(plan[0], frames[0]), Seen(plan[1], frames[1]), Seen(plan[2], frames[2]),
                          Seen(plan[3], frames[3]);
    hide Reported, Answered, CarryPlan, SeenAll, Val, Plan;
    MmdWindow(r, f0, f1, f2, f3, o.req.phy % 32, o.req.mmd % 32, o.req.reg);
  }

  lemma SetUpSeen(o: Outcome)
    requires Reported(o) && (o.req.op.OpReadMmd? || o.req.op.OpWriteMmd?)
    ensures CarriesFrames(o.frames)
    ensures var p, fs := Plan(o.req), o.frames;
            && Seen(p[0], fs[0]).data == o.req.mmd % 32 && !Seen(p[0], fs[0]).noResponse
            && Seen(p[1], fs[1]).data == o.req.reg && !Seen(p[1], fs[1]).noResponse
            && Seen(p[2], fs[2]).data == MMD_DATA + o.req.mmd % 32 && !Seen(p[2], fs[2]).noResponse
  {
    var p, fs := Plan(o.req), o.frames;
    assert Carries(fs[0], p[0]) && Carries(fs[1], p[1]) && Carries(fs[2], p[2]) && Carries(fs[3], p[3]);
    hide Carries, Val;
    Fields(fs[0], p[0]);
    Fields(fs[1], p[1]);
    Fields(fs[2], p[2]);
  }

  /** Function 00 names the register, function 01 reaches it. */
  lemma MmdWindow(r: Regs, f0: Frame, f1: Frame, f2: Frame, f3: Frame, phy: nat, mmd: nat, reg: nat)
    requires mmd < 32
    requires f0.op == f1.op == f2.op == OP_WRITE && f0.phyad == f1.phyad == f2.phyad == f3.phyad == phy
    requires f0.regad == f2.regad == REG_MMD_CTRL && f1.regad == f3.regad == REG_MMD_DATA
    requires f0.data == mmd && f1.data == reg && f2.data == MMD_DATA + mmd
    ensures Folded(r, [f0] + ([f1] + ([f2] + [f3]))) ==
            [Event(phy, Some(mmd), Some(reg), f3.op, if f3.noResponse then None else Some(f3.data), f3.noResponse)]
  {
    var r1 := FoldOne(r, f0).0;
    var r2 := FoldOne(r1, f1).0;
    var r3 := FoldOne(r2, f2).0;
    assert r1.func[phy] == 0 && r1.devad[phy] == mmd && FoldOne(r, f0).1 == None;
    assert r2.addr[(phy, mmd)] == reg && FoldOne(r1, f1).1 == None;
    assert r3.func[phy] == 1 && r3.devad[phy] == mmd && AddrOf(r3, phy, mmd) == Some(reg) && FoldOne(r2, f2).1 == None;
    var e := Event(phy, Some(mmd), Some(reg), f3.op, if f3.noResponse then None else Some(f3.data), f3.noResponse);
    assert FoldOne(r3, f3).1 == Some(e);
    FoldCons(r, f0, [f1] + ([f2] + [f3]));
    FoldCons(r1, f1, [f2] + [f3]);
    FoldCons(r2, f2, [f3]);
    FoldedOne(r3, f3, e);
    hide Folded, FoldOne;
  }

  // ---- a whole run of the master -----------------------------------------------------------------

  function AllFrames(os: seq<Outcome>): seq<seq<bit>> {
    if os == [] then [] else os[0].frames + AllFrames(os[1..])
  }

  function Reports(os: seq<Outcome>): seq<Event> {
    if os == [] then [] else [ReportOf(os[0])] + Reports(os[1..])
  }

  /** A request that does not touch the MMD window by hand. */
  predicate OutsideWindow(r: Request) {
    && (r.op.OpWrite? ==> r.reg % 32 != REG_MMD_CTRL && r.reg % 32 != REG_MMD_DATA)
    && (r.op.OpRead? ==> r.reg % 32 != REG_MMD_DATA)
  }

  lemma {:induction false} OnWireConcat(a: seq<seq<bit>>, b: seq<seq<bit>>)
    ensures OnWire(a + b) == OnWire(a) + OnWire(b)
  {
    if a == [] {
      assert a + b == b;
    } else {
      OnWireConcat(a[1..], b);
      assert (a + b)[1..] == a[1..] + b;
      assert OnWire(a) + OnWire(b) == Ones(PREAMBLE) + a[0] + (OnWire(a[1..]) + OnWire(b));
    }
  }

  /** Driver and sniffer are inverse: from whatever state of its register book, the decoder
      makes of the wire exactly one event per finished request, and it is what the client
      knows: PHY, device, address, operation, and the value or the missing answer. */
  lemma {:induction false} SnifferSeesRequests(r: Regs, os: seq<Outcome>)
    requires forall o :: o in os ==> Reported(o) && Answered(o) && OutsideWindow(o.req)
    ensures Folded(r, DecodeBits(OnWire(AllFrames(os)))) == Reports(os)
    decreases |os|
  {
    hide Hunt, Folded, RegsAfter, Reported, Answered, OutsideWindow;
    if os == [] {
      FoldEnd(r);
      NothingSeen();
    } else {
      var o, rest := os[0], os[1..];
      assert o in os && forall x :: x in rest ==> x in os;
      assert Reported(o) && Answered(o) && OutsideWindow(o.req);
      var seen := RequestSeen(r, o);
      SnifferSeesRequests(RegsAfter(r, seen), rest);
      var wire := OnWire(AllFrames(rest));
      OnWireConcat(o.frames, AllFrames(rest));
      ReportedCarries(o);
      HuntAll(Plan(o.req), o.frames, wire);
      FoldSplits(r, seen, DecodeBits(wire));
    }
  }

  lemma NothingSeen()
    ensures DecodeBits(OnWire(AllFrames([]))) == []
  {}

  lemma ReportedCarries(o: Outcome)
    requires Reported(o)
    ensures |o.frames| == |Plan(o.req)| && CarryPlan(o.frames, Plan(o.req)) && CarriesFrames(o.frames)
  {}

  lemma RequestSeen(r: Regs, o: Outcome) returns (seen: seq<Frame>)
    requires Reported(o) && Answered(o) && OutsideWindow(o.req)
    ensures |o.frames| == |Plan(o.req)| && CarriesFrames(o.frames) && seen == SeenAll(Plan(o.req), o.frames)
    ensures Folded(r, seen) == [ReportOf(o)]
  {
    ReportedCarries(o);
    hide Reported, Answered, Folded, SeenAll;
    seen := SeenAll(Plan(o.req), o.frames);
    if o.req.op.OpRead? || o.req.op.OpWrite? {
      FoldPlain(r, o);
    } else {
      FoldMmd(r, o);
    }
  }
}
