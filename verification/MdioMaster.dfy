/** The active MDIO master (src/mdio/mdio_master.cpp): one request at a time, one or four
    Clause-22 transactions each, through a mailbox the capture-side program serves while the
    CPU polls it. */
module MdioMaster {
  import opened Bytes
  import opened Clause22
  import opened MdioWire
  import opened MdioMailbox
  import Mmd

  const TIMEOUT_MS: nat := 5
  const REGCR: field := 0x0D
  const ADDAR: field := 0x0E

  datatype Result = Ok | Busy
  datatype Step = StepStart | StepMmdAddrMode | StepMmdSetAddr | StepMmdDataMode | StepMmdData | StepDone

  /** The client's mailbox. */
  class Response {
    var status: Status
    var value: uint16

    constructor ()
      ensures status == Idle && value == 0
    {
      status, value := Idle, 0;
    }
  }

  // ---- the command word ----------------------------------------------------------------------------

  /** The 32-bit word startTransaction assembles; its fields do not overlap. */
  function Word(tx: Tx): (w: nat)
    ensures w < WORD32
  {
    0x4000_0000 + OpBits(tx) * 0x1000_0000 + tx.phy * 0x80_0000 + tx.reg * 0x4_0000 +
    (if tx.read then 0 else 2) * 0x1_0000 + (if tx.read then 0 else tx.val)
  }

  function CmdBytes(tx: Tx): (cmd: seq<byte>)
    ensures |cmd| == 4
  {
    var w := Word(tx);
    [w / 0x100_0000 % 256, w / 0x1_0000 % 256, w / 256 % 256, w % 256]
  }

  /** Its four bytes, most significant first, are the bits of the frame. */
  lemma CommandBits(tx: Tx)
    ensures var c := CmdBytes(tx);
            ToBits(c[0], 8) + ToBits(c[1], 8) + ToBits(c[2], 8) + ToBits(c[3], 8) == FrameBits(tx)
  {
    WordBits(tx);
    BytesOfWord(Word(tx));
  }

  lemma BytesOfWord(w: nat)
    requires w < WORD32
    ensures ToBits(w / 0x100_0000 % 256, 8) + ToBits(w / 0x1_0000 % 256, 8) + ToBits(w / 256 % 256, 8) +
            ToBits(w % 256, 8) == ToBits(w, 32)
  {
    SmallPowers();
    hide ToBits, Pow2;
    var a := w / 256;
    var b := a / 256;
    var c := b / 256;
    Shift16(w);
    Shift24(w);
    ToBitsConcat(a, 24, w % 256, 8);
    ToBitsConcat(b, 16, a % 256, 8);
    ToBitsConcat(c, 8, b % 256, 8);
  }

  lemma Shift16(w: nat)
    ensures w / 0x1_0000 == w / 256 / 256
  {}

  lemma Shift24(w: nat)
    requires w < WORD32
    ensures w / 0x100_0000 == w / 256 / 256 / 256 < 256
  {}

  lemma WordBits(tx: Tx)
    ensures ToBits(Word(tx), 32) == FrameBits(tx)
  {
    var op, ta, d := OpBits(tx), if tx.read then 0 else 2, if tx.read then 0 else tx.val;
    SmallPowers();
    hide ToBits, Pow2;
    var w1 := 4 + op;
    var w2 := w1 * 32 + tx.phy;
    var w3 := w2 * 32 + tx.reg;
    var w4 := w3 * 4 + ta;
    assert Word(tx) == w4 * WORD16 + d;
    ToBitsConcat(w4, 16, d, 16);
    ToBitsConcat(w3, 14, ta, 2);
    ToBitsConcat(w2, 9, tx.reg, 5);
    ToBitsConcat(w1, 4, tx.phy, 5);
    ToBitsConcat(1, 2, op, 2);
  }

  /** The frame published for a transaction's command carries that transaction, and the mailbox
      says what came back. */
  lemma AnswerCarries(tx: Tx, last: seq<bit>, status: byte, resH: byte, resL: byte)
    requires Answer(CmdBytes(tx), tx.read, last, status, resH, resL)
    ensures Carries(last, tx)
    ensures status == if tx.read && last[15] == 1 then ST_NORESP else ST_OK
    ensures tx.read ==> resH * 256 + resL == Val(last[16..32])
  {
    CommandBits(tx);
    var f := FrameBits(tx);
    hide ToBits, Val, FrameBits, CmdBytes;
    assert forall i :: 0 <= i < 32 ==> Image(CmdBytes(tx))[32 + i] == f[i];
    if tx.read {
      assert last[..14] == f[..14];
      assert last[16..32] == last[16..24] + last[24..32];
      ValBytes(last[16..24], last[24..32]);
    } else {
      assert last == f;
    }
  }

  lemma ValBytes(hi: seq<bit>, lo: seq<bit>)
    requires |hi| == |lo| == 8
    ensures Val(hi + lo) == Val(hi) * 256 + Val(lo)
  {
    hide *;
    SmallPowers();
    var h, l := Val(hi), Val(lo);
    assert h < 256 && l < 256;
    BitsOfVal(hi);
    BitsOfVal(lo);
    ToBitsConcat(h, 8, l, 8);
    assert ToBits(h * 256 + l, 16) == hi + lo;
    WordFits(h, l);
    ValOfBits(h * 256 + l, 16);
  }

  lemma WordFits(h: nat, l: nat)
    requires h < 256 && l < 256
    ensures h * 256 + l < WORD16
  {}

  // ---- the books -------------------------------------------------------------------------------------

  /** How far into its plan a request is, seen from step_. */
  predicate StepAt(op: Op, step: Step, n: nat) {
    if op.OpRead? || op.OpWrite? then (n == 0 && step == StepStart) || (n == 1 && step == StepDone)
    else
      match step
      case StepStart => n == 0
      case StepMmdAddrMode => n == 1
      case StepMmdSetAddr => n == 2
      case StepMmdDataMode => n == 3
      case StepMmdData => n == 4
      case StepDone => false
  }

  /** The transactions started so far are the first of the plan. */
  predicate OnPlan(req: Request, begun: seq<Tx>, step: Step) {
    begun <= Plan(req) && StepAt(req.op, step, |begun|)
  }

  lemma PlanStarts(req: Request)
    ensures OnPlan(req, [], StepStart)
  {}

  /** A finished request that did not time out ran its whole plan and reported its last frame. */
  ghost predicate Told(done: seq<Outcome>) {
    forall o :: o in done ==> CarryPlan(o.frames, Plan(o.req)) && (o.status == Timeout || Reported(o))
  }

  predicate AllTrue(waits: seq<bool>) { forall w :: w in waits ==> w }

  lemma AllTrueSnoc(waits: seq<bool>, w: bool)
    ensures AllTrue(waits + [w]) <==> AllTrue(waits) && w
  {
    assert w in waits + [w] && forall x :: x in waits + [w] <==> x in waits || x == w;
  }

  predicate NoTimeouts(done: seq<Outcome>) {
    forall o :: o in done ==> o.status != Timeout
  }

  lemma {:induction false} AllFramesSnoc(done: seq<Outcome>, o: Outcome)
    ensures AllFrames(done + [o]) == AllFrames(done) + o.frames
  {
    if done == [] {
      assert AllFrames([o]) == o.frames + AllFrames([]);
    } else {
      AllFramesSnoc(done[1..], o);
      assert (done + [o])[1..] == done[1..] + [o];
    }
  }

  /** The mailbox holds a transaction's command. */
  ghost predicate Posted(box: Mailbox, tx: Tx)
    reads box
  {
    box.cmd == CmdBytes(tx) && (box.ctrl % 2 == 1) == tx.read
  }

  /** Every doorbell has one transaction; those served are on the wire, in order, and the mailbox
      still holds the last one. */
  ghost predicate Rung(b: Blob, posted: seq<Tx>)
    reads b, b.box
  {
    && b.Linked() && b.Due() && |posted| == b.rung && CarryPlan(b.frames, posted)
    && (posted != [] ==> Posted(b.box, posted[|posted| - 1]))
  }

  /** The current request's frames begin at `start`. Between requests the program may still be at work
      on a transaction that has timed out; between the transactions of a request it waits. */
  ghost predicate Clean(b: Blob, done: seq<Outcome>, posted: seq<Tx>, start: nat, begun: seq<Tx>, started: bool)
    reads b, b.box
  {
    && Rung(b, posted) && Told(done) && start <= |b.frames| && start <= |posted|
    && (if begun != [] then posted[start..] == begun && (started || b.Waiting())
        else !started && |posted| <= start + 1)
    && (NoTimeouts(done) ==> b.frames[..start] == AllFrames(done) && (begun == [] ==> |posted| == start))
  }

  /** The request slot: between transactions nothing waits, and a free slot is empty. */
  predicate Slot(active: bool, started: bool, req: Request, begun: seq<Tx>, step: Step, wireRead: bool) {
    if active then
      && OnPlan(req, begun, step) && (started <==> begun != [])
      && (started ==> wireRead == begun[|begun| - 1].read)
    else !started && begun == []
  }

  class Master {
    const box: Mailbox
    const blob: Blob
    var active: bool
    var started: bool
    var req: Request                      // op_, phy_, mmd_, reg_, val_
    var step: Step
    var wireRead: bool
    var wireReg: field
    var wireVal: uint16
    var startedMs: uint32
    var resp: Response?
    ghost var begun: seq<Tx>              // transactions started for the current request
    ghost var done: seq<Outcome>          // every finished request
    ghost var posted: seq<Tx>             // one transaction for each doorbell
    ghost var start: nat                  // how many frames belong to earlier requests
    ghost var waits: seq<bool>            // whether the program waited, for each transaction started
    ghost var clean: bool                 // it always did

    ghost predicate Valid()
      reads this, blob, box, resp
    {
      && (active <==> resp != null) && (active ==> resp.status == Pending)
      && Slot(active, started, req, begun, step, wireRead) && blob.box == box && blob.Valid()
      && |waits| == |posted| && (clean <==> AllTrue(waits))
      && (clean ==> Clean(blob, done, posted, start, begun, started))
    }

    /** How much of the request is left; zero when the slot is free. */
    ghost function Measure(): nat
      reads this
    {
      if active && |begun| <= |Plan(req)| then 1 + |Plan(req)| - |begun| else 0
    }

    constructor (box: Mailbox, blob: Blob)
      requires blob.box == box && blob.Valid() && blob.Linked() && blob.frames == [] && blob.rung == 0
      ensures Valid() && clean && waits == [] && !active && done == [] && posted == []
      ensures this.box == box && this.blob == blob
    {
      this.box, this.blob := box, blob;
      active, started, resp := false, false, null;
      req, step := Request(OpRead, 0, 0, 0, 0), StepStart;
      wireRead, wireReg, wireVal, startedMs := true, 0, 0, 0;
      begun, done, posted, start, waits, clean := [], [], [], 0, [], true;
    }

    /** Accept a request, or refuse it while another one is under way. */
    method Submit(op: Op, phy: byte, mmd: byte, reg: uint16, val: uint16, r: Response) returns (result: Result)
      requires Valid()
      modifies this, r
      ensures Valid() && clean == old(clean) && done == old(done) && posted == old(posted) && waits == old(waits)
      ensures old(active) ==> result == Busy && unchanged(this) && unchanged(r)
      ensures !old(active) ==>
                && result == Ok && active && resp == r && r.status == Pending
                && req == Request(op, phy, mmd, reg, val) && begun == [] && !started
    {
      hide Clean, Blob.Valid, OnPlan;
      if active {
        return Busy;
      }
      Accept(Request(op, phy, mmd, reg, val), r);
      result := Ok;
    }

    method Accept(request: Request, r: Response)
      requires Valid() && !active
      modifies this`active, this`started, this`req, this`step, this`wireRead, this`wireReg, this`wireVal,
               this`startedMs, this`resp, r
      ensures Valid() && active && !started && resp == r && r.status == Pending && req == request
    {
      hide Clean, Blob.Valid, OnPlan;
      r.status, r.value := Pending, 0;
      active, started := true, false;
      req, step := request, StepStart;
      wireRead, wireReg, wireVal, startedMs := true, 0, 0, 0;
      resp := r;
      PlanStarts(request);
    }

    /** The program runs on while the CPU does nothing to the mailbox. */
    method Meanwhile(levels: seq<bit>)
      requires Valid()
      modifies blob, box`ctrl, box`status, box`resH, box`resL
      ensures Valid() && old(blob.wire) <= blob.wire && blob.rung == old(blob.rung)
      ensures old(blob.Waiting()) ==>
                && blob.Waiting() && blob.frames == old(blob.frames)
                && box.status == old(box.status) && box.resH == old(box.resH) && box.resL == old(box.resL)
      ensures levels == [] ==> unchanged(blob) && unchanged(box)
      ensures old(blob.Linked()) ==> blob.Linked() && (|levels| >= old(blob.ToGo()) ==> blob.Waiting())
    {
      hide Blob.ToGo, Told, Blob.Serving, Blob.Due, Answer, AllFrames, CarryPlan, CmdBytes;
      blob.Run(levels);
      if clean {
        RanRung(blob, old(blob.frames), posted);
        assert blob.frames[..start] == old(blob.frames)[..start];
      }
    }

    /** One command byte; the program runs on before the write. */
    method PutCommand(i: nat, b: byte, levels: seq<bit>)
      requires blob.Valid() && blob.box == box && i < 4
      modifies blob, box
      ensures blob.Valid() && box.cmd == old(box.cmd)[i := b]
      ensures old(blob.Linked() && blob.Waiting()) ==>
                blob.Linked() && blob.Waiting() && blob.frames == old(blob.frames)
      ensures blob.rung == old(blob.rung) && old(blob.wire) <= blob.wire
      ensures levels == [] ==> unchanged(blob) && unchanged(box`ctrl) && unchanged(box`status)
      ensures |levels| + 1 == old(blob.ToGo()) ==>
                && blob.phase == Publish && blob.frames == old(blob.frames)
                && CarriesCommand(old(box.cmd), old(blob.Read()), blob.Part()) && (!old(blob.Read()) ==> !blob.x)
    {
      hide Blob.Serving, Blob.Due, Blob.ToGo, CarriesCommand;
      if |levels| + 1 == blob.ToGo() {
        AlmostDone(blob);
      }
      blob.Run(levels);
      if |levels| + 1 == old(blob.ToGo()) {
        AlmostDone(blob);
      }
      CommandFree(blob);
      box.cmd := box.cmd[i := b];
      CommandFree(blob);
    }

    /** Hand the frame and the doorbell to the program; STATUS is cleared before GO. A program that
        waits sees exactly this transaction. One that is still busy may write its STATUS between the
        clearing and the doorbell. */
    method StartTransaction(levels: nat -> seq<bit>)
      requires blob.Valid() && blob.box == box
      modifies blob, box
      ensures blob.Valid() && old(blob.wire) <= blob.wire
      ensures blob.rung == old(blob.rung) + 1 && Asked(box, Tx(wireRead, req.phy % 32, wireReg, wireVal))
      ensures Still(levels, 0) ==> blob.phase == old(blob.phase) && blob.frames == old(blob.frames)
      ensures old(blob.Linked() && blob.Waiting()) ==>
                && blob.Linked() && blob.frames == old(blob.frames) && blob.rung == |blob.frames| + 1
                && Posted(box, Tx(wireRead, req.phy % 32, wireReg, wireVal))
      ensures 0 < old(blob.ToGo()) && Overtakes(levels, old(blob.ToGo())) ==>
                && blob.phase == WaitGo && Published(box.status) && (!old(blob.Read()) ==> box.status == ST_OK)
                && |blob.frames| == |old(blob.frames)| + 1
                && blob.frames[..|old(blob.frames)|] == old(blob.frames)
                && FrameOfCommand(old(box.cmd), old(blob.Read()), blob.frames[|old(blob.frames)|])
    {
      hide Blob.Serving, Blob.Due, CmdBytes, Blob.Valid, Blob.ToGo, Blob.Linked, CarriesCommand, FrameOfCommand;
      var op := if wireRead then 2 else 1;
      var ta := if wireRead then 0 else 2;
      var frame := 0x4000_0000 + op * 0x1000_0000 + (req.phy % 32) * 0x80_0000 + wireReg * 0x4_0000 + ta * 0x1_0000
                   + if wireRead then 0 else wireVal;
      WordIs(Tx(wireRead, req.phy % 32, wireReg, wireVal), frame);
      PutCommand(0, frame / 0x100_0000 % 256, levels(0));
      PutCommand(1, frame / 0x1_0000 % 256, levels(1));
      PutCommand(2, frame / 256 % 256, levels(2));
      PutCommand(3, frame % 256, levels(3));
      CommandIs(Tx(wireRead, req.phy % 32, wireReg, wireVal), frame, box.cmd);
      PublishedPart(blob);
      ghost var part := blob.Part();
      Ring(levels);
      CommandPart(old(box.cmd), old(blob.Read()), part);
    }

    method Ring(levels: nat -> seq<bit>)
      requires blob.Valid() && blob.box == box
      modifies blob, box`ctrl, box`status, box`resH, box`resL
      ensures blob.Valid() && old(blob.wire) <= blob.wire && blob.rung == old(blob.rung) + 1
      ensures old(blob.Linked() && blob.Waiting()) ==>
                && blob.Linked() && blob.frames == old(blob.frames) && blob.rung == |blob.frames| + 1
                && (box.ctrl % 2 == 1) == wireRead
      ensures box.ctrl >= CTRL_GO
      ensures levels(4) == levels(5) == [] ==> blob.phase == old(blob.phase) && blob.frames == old(blob.frames)
      ensures old(blob.phase) == Publish && levels(4) == [] && |levels(5)| == 1 ==>
                && blob.phase == WaitGo && box.status == (if old(blob.x) then ST_NORESP else ST_OK)
                && blob.frames == old(blob.frames) + [old(blob.Part())[PREAMBLE..]]
    {
      hide Blob.Serving, Blob.Due, Blob.ToGo;
      blob.Run(levels(4));
      CommandFree(blob);
      box.status := 0;
      CommandFree(blob);
      blob.Run(levels(5));
      CommandFree(blob);
      box.ctrl := (if wireRead then 1 else 0) + CTRL_GO;
      blob.rung := blob.rung + 1;
      CommandFree(blob);
    }

    /** The next transaction of the request. */
    method Choose()
      requires OnPlan(req, begun, step) && |begun| < |Plan(req)|
      modifies this`wireRead, this`wireReg, this`wireVal, this`step
      ensures Tx(wireRead, req.phy % 32, wireReg, wireVal) == Plan(req)[|begun|]
      ensures OnPlan(req, begun + [Plan(req)[|begun|]], step)
    {
      if req.op.OpRead? || req.op.OpWrite? {
        wireRead := req.op.OpRead?;
        wireReg := req.reg % 32;
        wireVal := req.val;
        step := StepDone;
      } else if step == StepStart {
        wireRead, wireReg, wireVal := false, REGCR, req.mmd % 32;
        step := StepMmdAddrMode;
      } else if step == StepMmdAddrMode {
        wireRead, wireReg, wireVal := false, ADDAR, req.reg;
        step := StepMmdSetAddr;
      } else if step == StepMmdSetAddr {
        wireRead, wireReg, wireVal := false, REGCR, MMD_DATA + req.mmd % 32;
        step := StepMmdDataMode;
      } else {
        wireRead, wireReg, wireVal := req.op.OpReadMmd?, ADDAR, req.val;
        step := StepMmdData;
      }
    }

    /** Start the next transaction. Whether the program waits at this moment decides whether what it
        reports can be trusted; a transaction that timed out is over by then. */
    method StartNextTransaction(nowMs: uint32, levels: nat -> seq<bit>)
      requires active && resp != null && resp.status == Pending && OnPlan(req, begun, step) && |begun| < |Plan(req)|
      requires blob.box == box && blob.Valid() && (clean ==> Clean(blob, done, posted, start, begun, begun != []))
      requires |waits| == |posted| && (clean <==> AllTrue(waits))
      modifies this`started, this`startedMs, this`wireRead, this`wireReg, this`wireVal, this`step, this`begun,
               this`posted, this`start, this`waits, this`clean, blob, box
      ensures Valid() && active && started && startedMs == nowMs && old(blob.wire) <= blob.wire
      ensures |old(begun)| < |Plan(req)| && begun == old(begun) + [Plan(req)[|old(begun)|]]
      ensures posted == old(posted) + [Plan(req)[|old(begun)|]]
      ensures clean <==> old(clean) && old(blob.Waiting())
      ensures waits == old(waits) + [old(blob.Waiting())]
      ensures Asked(box, begun[|begun| - 1])
      ensures Still(levels, 0) ==> blob.phase == old(blob.phase) && blob.frames == old(blob.frames)
      ensures old(blob.Linked() && blob.Waiting()) ==>
                blob.Linked() && !blob.Waiting() && box.status == 0 && blob.frames == old(blob.frames)
      ensures 0 < old(blob.ToGo()) && Overtakes(levels, old(blob.ToGo())) ==>
                && blob.phase == WaitGo && Published(box.status) && (!old(blob.Read()) ==> box.status == ST_OK)
                && |blob.frames| == |old(blob.frames)| + 1
                && blob.frames[..|old(blob.frames)|] == old(blob.frames)
                && FrameOfCommand(old(box.cmd), old(blob.Read()), blob.frames[|old(blob.frames)|])
    {
      hide Blob.Valid, Blob.Linked, Blob.Waiting, Blob.Due, Blob.ToGo, Told, Plan, OnPlan, CmdBytes, FrameOfCommand,
           Overtakes, Clean, Even, Posted, AllTrue;
      ghost var tx := Prepare();
      ghost var linked := blob.Linked() && blob.Waiting();
      StartTransaction(levels);
      if linked {
        RingsBusy(blob);
      }
      NoteStart(nowMs, tx);
    }

    method NoteStart(nowMs: uint32, ghost tx: Tx)
      requires active && resp != null && resp.status == Pending && blob.box == box && blob.Valid()
      requires OnPlan(req, begun + [tx], step) && tx.read == wireRead
      requires |waits| == |posted| + 1 && (clean <==> AllTrue(waits))
      requires clean ==>
                 blob.Linked() && blob.rung == |blob.frames| + 1 && Posted(box, tx) &&
                 Even(blob.frames, done, posted, start, begun)
      modifies this`started, this`startedMs, this`begun, this`posted
      ensures Valid() && started && startedMs == nowMs
      ensures begun == old(begun) + [tx] && posted == old(posted) + [tx]
    {
      hide Blob.Valid, Blob.Linked, OnPlan, Clean, Even, Posted;
      if clean {
        StartedClean(blob, done, posted, start, begun, tx);
      }
      started := true;
      startedMs := nowMs;
      begun, posted := begun + [tx], posted + [tx];
    }

    /** Choose the transaction; the books are closed on what went before, if the program waits. */
    method Prepare() returns (ghost tx: Tx)
      requires OnPlan(req, begun, step) && |begun| < |Plan(req)|
      requires clean ==> Clean(blob, done, posted, start, begun, begun != [])
      requires clean <==> AllTrue(waits)
      modifies this`wireRead, this`wireReg, this`wireVal, this`step, this`start, this`waits, this`clean
      ensures tx == Tx(wireRead, req.phy % 32, wireReg, wireVal) == Plan(req)[|begun|]
      ensures OnPlan(req, begun + [tx], step) && (clean <==> old(clean) && blob.Waiting())
      ensures clean ==> blob.Linked() && blob.rung == |blob.frames| && Even(blob.frames, done, posted, start, begun)
      ensures waits == old(waits) + [blob.Waiting()] && (clean <==> AllTrue(waits))
    {
      hide Blob.Linked, Blob.Waiting, Plan, OnPlan, Clean, Even, AllTrue;
      AllTrueSnoc(waits, blob.Waiting());
      waits := waits + [blob.Waiting()];
      Choose();
      tx := Tx(wireRead, req.phy % 32, wireReg, wireVal);
      clean := clean && blob.Waiting();
      if clean {
        Resting(blob, done, posted, start, begun);
        start := if begun == [] then |blob.frames| else start;
      }
    }

    /** Tell the client and free the slot. */
    method Finish(status: Status, value: uint16)
      requires active && resp != null && OnPlan(req, begun, step) && blob.box == box && blob.Valid()
      requires status == Done || status == NoResp || status == Timeout
      requires clean ==> Ends(blob, done, posted, start, begun, req, status, value)
      requires |waits| == |posted| && (clean <==> AllTrue(waits))
      modifies this`active, this`started, this`resp, this`begun, this`done, this`start, resp
      ensures Valid() && !active && old(resp).status == status && old(resp).value == value
      ensures |done| == |old(done)| + 1 && done[..|old(done)|] == old(done)
      ensures var o := done[|old(done)|]; o.req == req && o.status == status && o.value == value
    {
      hide Blob.Valid, Clean, Ends, Plan, StepAt;
      ghost var o := Outcome(req, if start <= |blob.frames| then blob.frames[start..] else [], status, value);
      if clean {
        FinishedClean(blob, done, posted, start, begun, o);
      }
      resp.value := value;
      resp.status := status;
      active, started, resp := false, false, null;
      done, begun, start := done + [o], [], |blob.frames|;
    }

    /** The transaction is over: finish, or go on with the next one. */
    method CompleteTransaction(nowMs: uint32, status: Status, value: uint16, levels: nat -> seq<bit>)
      requires Valid() && started && (status == Done || status == NoResp || status == Timeout)
      requires clean ==> blob.rung == |blob.frames| && Came(begun, blob.frames, status, value)
      modifies this, blob, box, resp
      ensures Valid() && clean == old(clean) && old(blob.wire) <= blob.wire && req == old(req)
      ensures OneEach(old(waits), waits, old(posted), posted)
      ensures if status == Done && |old(begun)| < |Plan(req)| then
                && active && resp == old(resp) && done == old(done) && started && startedMs == nowMs
                && begun == old(begun) + [Plan(req)[|old(begun)|]]
                && posted == old(posted) + [Plan(req)[|old(begun)|]] && Asked(box, Plan(req)[|old(begun)|])
                && (Still(levels, 0) ==> blob.phase == old(blob.phase) && blob.frames == old(blob.frames))
              else Ended(status, old(resp), old(done), done, req) && !active && posted == old(posted) && unchanged(blob)
    {
      hide Blob.Valid, Clean, Plan, StepAt, Reported, CmdBytes, Told, Ends, Overtakes, FrameOfCommand, Blob.ToGo;
      if clean {
        Served(blob, done, posted, start, begun, req, step, status, value);
      }
      StepsMean(req, begun, step);
      started := false;
      if status != Done {
        Finish(status, 0);
        return;
      }
      if step == StepDone {
        Finish(Done, value);
        return;
      }
      if step == StepMmdData {
        Finish(Done, if req.op.OpReadMmd? then value else 0);
        return;
      }
      StartNextTransaction(nowMs, levels);
    }

    /** Each transaction started has its entry in `waits`. */
    static ghost predicate OneEach(waits: seq<bool>, waits': seq<bool>, posted: seq<Tx>, posted': seq<Tx>) {
      waits <= waits' && posted <= posted' && |waits'| - |waits| == |posted'| - |posted|
    }

    /** The client's Response left Pending, and the request is in the history. */
    static ghost predicate Ended(status: Status, r: Response?, done: seq<Outcome>, done': seq<Outcome>, req: Request)
      reads r
    {
      && r != null && r.status == status && status != Pending
      && |done'| == |done| + 1 && done'[..|done|] == done
      && var o := done'[|done|]; o.req == req && o.status == status && o.value == r.value
    }

    /** The two result bytes; the program, done, may run on before each. */
    method ReadValue(levels: nat -> seq<bit>) returns (value: uint16)
      requires Valid() && started && (clean ==> blob.Waiting())
      modifies blob, box`ctrl, box`status, box`resH, box`resL
      ensures Valid() && old(blob.wire) <= blob.wire && blob.rung == old(blob.rung)
      ensures clean ==>
                && blob.Waiting() && blob.frames == old(blob.frames)
                && value == if wireRead then box.resH * 256 + box.resL else 0
      ensures clean ==> box.resH == old(box.resH) && box.resL == old(box.resL) && box.status == old(box.status)
      ensures levels(0) == levels(1) == [] ==> unchanged(blob)
    {
      hide Blob.Valid, Told, CmdBytes, Answer, Blob.Serving;
      value := 0;
      if wireRead {
        Meanwhile(levels(0));
        var h := box.resH;
        Meanwhile(levels(1));
        value := h * 256 + box.resL;
      }
    }

    /** One poll; `st` is the STATUS it reads, if a request is under way. Every accepted request leaves
        Pending exactly once; between polls either the request moves on or its transaction has been
        running for at most 5 ms. Only the start of a transaction under a busy program costs the
        guarantee, a timeout does not. */
    method Tick(nowMs: uint32, levels: nat -> seq<bit>) returns (ghost st: byte)
      requires Valid()
      modifies this, blob, box, resp
      ensures Valid() && old(blob.wire) <= blob.wire && req == old(req)
      ensures !old(active) ==> unchanged(this) && unchanged(blob) && unchanged(box)
      ensures old(active) && active ==> resp == old(resp) && done == old(done) && old(begun) <= begun && started
      ensures old(active) && !active ==>
                exists status :: status != Pending && Ended(status, old(resp), old(done), done, req)
      ensures Measure() < old(Measure()) ||
              (active == old(active) && begun == old(begun) && startedMs == old(startedMs) &&
               (active ==> (nowMs - startedMs) % WORD32 <= TIMEOUT_MS))
      ensures old(active) && active && begun != old(begun) ==> startedMs == nowMs
      ensures clean <==> old(clean) && (old(active) && !old(started) ==> old(blob.Waiting()))
      ensures OneEach(old(waits), waits, old(posted), posted)
      ensures old(active && !started) ==> |waits| > |old(waits)| && waits[|old(waits)|] == old(blob.Waiting())
      ensures old(active) && active ==> |waits| - |old(waits)| == |begun| - |old(begun)|
      ensures old(active) ==> Reacted(st, nowMs, if old(started) then old(startedMs) else nowMs, old(resp), old(done),
                                      if old(started) then |old(begun)| else 1)
      ensures old(active && !started && blob.Linked() && blob.Waiting()) && Still(levels, 0) ==>
                && st == 0 && blob.Linked() && !blob.Waiting() && blob.frames == old(blob.frames)
                && posted == old(posted) + [Plan(req)[0]]
      ensures old(active && started) && Still(levels, 0) && |Plan(req)| == 1 ==>
                st == old(box.status) && posted == old(posted) && unchanged(blob) && (st == 0 ==> unchanged(box))
      ensures old(active && !started) && 0 < old(blob.ToGo()) && Overtakes(levels, old(blob.ToGo())) &&
              Still(levels, 6) ==>
                && (active ==> Skipped(blob, req, begun))
                && (!active ==> if old(resp).status == Done then |Plan(req)| == 1
                                else old(resp).status == NoResp && old(blob.Read()))
                && |blob.frames| == |old(blob.frames)| + 1 && blob.frames[..|old(blob.frames)|] == old(blob.frames)
                && FrameOfCommand(old(box.cmd), old(blob.Read()), blob.frames[|old(blob.frames)|])
    {
      hide Blob.Valid, Clean, Plan, StepAt, Told, CmdBytes, Overtakes, FrameOfCommand, Blob.ToGo, Blob.Linked, Asked,
           AllTrue;
      st := 0;
      if !active {
        return;
      }
      OnPlanBound(req, begun, step);
      PlanBegins(req);
      if !started {
        st := Begin(nowMs, levels);
      } else {
        var later := (i: nat) => levels(i + 10);
        StillLater(levels, later);
        st := Poll(nowMs, later);
      }
      OnPlanBound(req, begun, step);
    }

    /** The first transaction of a request is started, and polled at once. */
    method Begin(nowMs: uint32, levels: nat -> seq<bit>) returns (ghost st: byte)
      requires Valid() && active && !started
      modifies this, blob, box, resp
      ensures Valid() && old(blob.wire) <= blob.wire && req == old(req)
      ensures active ==> resp == old(resp) && done == old(done) && started && startedMs == nowMs && begun != []
      ensures Reacted(st, nowMs, nowMs, old(resp), old(done), 1)
      ensures clean <==> old(clean) && old(blob.Waiting())
      ensures OneEach(old(waits), waits, old(posted), posted)
      ensures |waits| > |old(waits)| && waits[|old(waits)|] == old(blob.Waiting())
      ensures active ==> |waits| - |old(waits)| == |begun|
      ensures old(blob.Linked() && blob.Waiting()) && Still(levels, 0) ==>
                && st == 0 && blob.Linked() && !blob.Waiting() && blob.frames == old(blob.frames)
                && posted == old(posted) + [Plan(req)[0]]
      ensures 0 < old(blob.ToGo()) && Overtakes(levels, old(blob.ToGo())) && Still(levels, 6) ==>
                && (active ==> Skipped(blob, req, begun))
                && (!active ==> if old(resp).status == Done then |Plan(req)| == 1
                                else old(resp).status == NoResp && old(blob.Read()))
                && |blob.frames| == |old(blob.frames)| + 1 && blob.frames[..|old(blob.frames)|] == old(blob.frames)
                && FrameOfCommand(old(box.cmd), old(blob.Read()), blob.frames[|old(blob.frames)|])
    {
      hide Blob.Valid, Clean, Plan, StepAt, Told, CmdBytes, Overtakes, FrameOfCommand, Blob.ToGo, Blob.Linked, Asked,
           AllTrue;
      OnPlanBound(req, begun, step);
      PlanBegins(req);
      StartNextTransaction(nowMs, levels);
      var later := (i: nat) => levels(i + 10);
      StillLater(levels, later);
      st := Poll(nowMs, later);
      OnPlanBound(req, begun, step);
    }

    /** What a poll that reads st does. */
    ghost predicate Reacted(st: byte, nowMs: uint32, since: uint32, r: Response?, done0: seq<Outcome>, n: nat)
      reads this, r
    {
      if (st == 0 && (nowMs - since) % WORD32 <= TIMEOUT_MS) || (st == ST_OK && n < |Plan(req)|) then active
      else
        && !active
        && Ended(if st == ST_OK then Done else if st == ST_NORESP then NoResp else Timeout, r, done0, done, req)
    }

    method Poll(nowMs: uint32, levels: nat -> seq<bit>) returns (ghost st: byte)
      requires Valid() && started
      modifies this, blob, box, resp
      ensures Valid() && old(blob.wire) <= blob.wire && req == old(req) && clean == old(clean)
      ensures OneEach(old(waits), waits, old(posted), posted)
      ensures active ==> |waits| - |old(waits)| == |begun| - |old(begun)|
      ensures active ==> resp == old(resp) && done == old(done) && started
      ensures active ==>
                (begun == old(begun) && startedMs == old(startedMs) && (nowMs - startedMs) % WORD32 <= TIMEOUT_MS)
                || (old(begun) <= begun && |begun| == |old(begun)| + 1 && startedMs == nowMs)
      ensures Reacted(st, nowMs, old(startedMs), old(resp), old(done), |old(begun)|)
      ensures levels(0) == [] ==> st == old(box.status)
      ensures Still(levels, 0) && (st != ST_OK || |old(begun)| == |Plan(req)|) ==>
                unchanged(blob) && posted == old(posted)
      ensures Still(levels, 0) && st == 0 ==> unchanged(box)
      ensures Still(levels, 0) && st == ST_OK && |old(begun)| < |Plan(req)| ==>
                && begun == old(begun) + [Plan(req)[|old(begun)|]] && Asked(box, Plan(req)[|old(begun)|])
                && blob.phase == old(blob.phase) && blob.frames == old(blob.frames)
    {
      hide Blob.Valid, Clean, Plan, OnPlan, Told, CmdBytes, Came, Posted, Blob.Linked, Blob.Waiting, Asked;
      Meanwhile(levels(0));
      st := box.status;
      if box.status == 0 {
        if (nowMs - startedMs) % WORD32 > TIMEOUT_MS {
          GiveUp(levels(1));
        }
        return;
      }
      if clean {
        StatusMeans(blob, done, posted, start, begun);
      }
      if box.status == ST_NORESP {
        CompleteTransaction(nowMs, NoResp, 0, levels);
        return;
      }
      if box.status != ST_OK {
        CompleteTransaction(nowMs, Timeout, 0, levels);
        return;
      }
      Succeed(nowMs, levels);
    }

    /** STATUS says that the transaction is done: fetch what it brought, and go on. */
    method Succeed(nowMs: uint32, levels: nat -> seq<bit>)
      requires Valid() && started && box.status == ST_OK
      modifies this, blob, box, resp
      ensures Valid() && old(blob.wire) <= blob.wire && req == old(req) && clean == old(clean)
      ensures OneEach(old(waits), waits, old(posted), posted)
      ensures active ==> |waits| - |old(waits)| == |begun| - |old(begun)|
      ensures if |old(begun)| < |Plan(req)| then
                && active && resp == old(resp) && done == old(done) && started && startedMs == nowMs
                && begun == old(begun) + [Plan(req)[|old(begun)|]] && Asked(box, Plan(req)[|old(begun)|])
                && (Still(levels, 0) ==> blob.phase == old(blob.phase) && blob.frames == old(blob.frames))
              else
                && Ended(Done, old(resp), old(done), done, req) && !active && posted == old(posted)
                && (Still(levels, 0) ==> unchanged(blob))
    {
      hide Blob.Valid, Clean, Plan, OnPlan, Told, CmdBytes, Came, Posted, Blob.Linked, Blob.Waiting, Asked;
      if clean {
        StatusMeans(blob, done, posted, start, begun);
      }
      var value := ReadValue(i => levels(i + 1));
      if clean {
        StatusMeans(blob, done, posted, start, begun);
      }
      CompleteTransaction(nowMs, Done, value, i => levels(i + 3));
    }

    /** The 5 ms are over; the program may still be at work. */
    method GiveUp(levels: seq<bit>)
      requires Valid() && started
      modifies this, blob, box, resp
      ensures Valid() && !active && old(blob.wire) <= blob.wire && req == old(req) && clean == old(clean)
      ensures Ended(Timeout, old(resp), old(done), done, req) && posted == old(posted) && waits == old(waits)
      ensures levels == [] ==> unchanged(blob) && unchanged(box)
    {
      hide Blob.Valid, Clean, Ends, Plan, StepAt, CmdBytes;
      Meanwhile(levels);
      if clean {
        TimedOut(blob, done, posted, start, begun, req, step);
      }
      Finish(Timeout, 0);
    }
  }

  /** The mailbox holds this command, with the doorbell rung. */
  ghost predicate Asked(box: Mailbox, tx: Tx)
    reads box
  {
    box.cmd == CmdBytes(tx) && box.ctrl >= CTRL_GO
  }

  /** The first transaction counts as done, and the second has taken its place in the mailbox before the
      program has looked at it. */
  ghost predicate Skipped(b: Blob, req: Request, begun: seq<Tx>)
    reads b, b.box
  {
    |Plan(req)| > 1 && begun == Plan(req)[..2] && b.phase == WaitGo && Asked(b.box, Plan(req)[1])
  }

  /** From register access `from` on, the program makes no step. */
  ghost predicate Still(levels: nat -> seq<bit>, from: nat) {
    forall k: nat :: from <= k ==> levels(k) == []
  }

  lemma StillLater(levels: nat -> seq<bit>, later: nat -> seq<bit>)
    requires forall i: nat :: later(i) == levels(i + 10)
    ensures Still(levels, 0) ==> Still(levels, 6)
    ensures Still(levels, 6) ==> Still(later, 0)
  {
    if Still(levels, 6) {
      forall k: nat
        ensures later(k) == []
      {
        assert levels(k + 10) == [];
      }
    }
  }

  /** The program finishes the transaction it is at between the clearing of STATUS and the doorbell;
      it has n steps to go. */
  predicate Overtakes(levels: nat -> seq<bit>, n: nat) {
    |levels(0)| + 1 == n && levels(1) == levels(2) == levels(3) == levels(4) == [] && |levels(5)| == 1
  }

  /** A frame that was clocked out for this command. */
  ghost predicate FrameOfCommand(cmd: seq<byte>, read: bool, f: seq<bit>) {
    && |cmd| == 4 && |f| == FRAME_BITS
    && forall i :: 0 <= i < (if read then 14 else 32) ==> f[i] == Image(cmd)[PREAMBLE + i]
  }

  ghost predicate CarriesCommand(cmd: seq<byte>, read: bool, part: seq<bit>) {
    |part| == CLOCKS && FrameOfCommand(cmd, read, part[PREAMBLE..])
  }

  lemma CommandPart(cmd: seq<byte>, read: bool, part: seq<bit>)
    ensures CarriesCommand(cmd, read, part) ==> |part| == CLOCKS && FrameOfCommand(cmd, read, part[PREAMBLE..])
  {}

  lemma CommandCarries(tx: Tx, f: seq<bit>)
    requires FrameOfCommand(CmdBytes(tx), tx.read, f)
    ensures Carries(f, tx)
  {
    var status := if tx.read && f[15] == 1 then ST_NORESP else ST_OK;
    var h, l := Val(f[16..24]), Val(f[24..32]);
    SmallPowers();
    AnswerCarries(tx, f, status, h, l);
  }

  /** A program about to write STATUS has clocked out the command in the mailbox. */
  lemma AlmostDone(b: Blob)
    requires b.Valid()
    ensures b.ToGo() > 0 ==> b.Linked()
    ensures b.ToGo() == 1 ==>
              && b.phase == Publish && b.base <= |b.wire| && CarriesCommand(b.box.cmd, b.Read(), b.Part())
              && (!b.Read() ==> !b.x)
  {
    if b.ToGo() == 1 {
      BusyToGo(b);
      hide Faithful, ToPublish, NextPhase, Image;
      FaithfulResult(b.box.cmd, b.Read(), b.Part(), b.exch, b.x, b.box.resH, b.box.resL);
    }
  }

  lemma RingsBusy(b: Blob)
    requires b.Linked() && b.rung == |b.frames| + 1
    ensures !b.Waiting() && b.box.status == 0
  {
    hide Blob.Serving;
  }

  lemma OnPlanBound(req: Request, begun: seq<Tx>, step: Step)
    ensures OnPlan(req, begun, step) ==> |begun| <= |Plan(req)|
  {}

  lemma PlanBegins(req: Request)
    ensures |Plan(req)| > 0
  {}

  /** The protocol: a non-zero STATUS, with the result bytes, belongs to the current doorbell and
      thus to the transaction just started. */
  lemma StatusMeans(b: Blob, done: seq<Outcome>, posted: seq<Tx>, start: nat, begun: seq<Tx>)
    requires Clean(b, done, posted, start, begun, true) && b.box.status != 0
    ensures b.Waiting() && b.rung == |b.frames| && Published(b.box.status)
    ensures b.box.status == ST_NORESP ==> Came(begun, b.frames, NoResp, 0)
    ensures var tx := begun[|begun| - 1];
            b.box.status == ST_OK ==>
              Came(begun, b.frames, Done, if tx.read then b.box.resH * 256 + b.box.resL else 0)
  {
    hide Blob.Serving, Told, CmdBytes, Carries, AllFrames;
    var tx := begun[|begun| - 1];
    assert posted[|posted| - 1] == posted[start..][|begun| - 1] == tx;
    AnswerCarries(tx, b.frames[|b.frames| - 1], b.box.status, b.box.resH, b.box.resL);
  }

  /** The last transaction was answered with this status and value. */
  ghost predicate Came(begun: seq<Tx>, frames: seq<seq<bit>>, status: Status, value: uint16) {
    && begun != [] && frames != []
    && var tx, last := begun[|begun| - 1], frames[|frames| - 1];
       && Carries(last, tx) && status == (if tx.read && last[15] == 1 then NoResp else Done)
       && (tx.read && status == Done ==> value == Val(last[16..32]))
  }

  lemma StepsMean(req: Request, begun: seq<Tx>, step: Step)
    requires OnPlan(req, begun, step) && begun != []
    ensures (step == StepDone || step == StepMmdData) <==> |begun| == |Plan(req)|
    ensures step == StepDone ==> req.op.OpRead? || req.op.OpWrite?
    ensures step == StepMmdData ==> req.op.OpReadMmd? || req.op.OpWriteMmd?
  {}

  /** Only the last transaction of a plan reads, so only it can go unanswered. */
  lemma OnlyLastReads(req: Request, begun: seq<Tx>)
    requires begun <= Plan(req) && begun != [] && begun[|begun| - 1].read
    ensures |begun| == |Plan(req)| && IsRead(req.op)
  {}

  lemma LastReads(req: Request)
    ensures Plan(req)[|Plan(req)| - 1].read == IsRead(req.op)
  {}

  /** Every doorbell has been served. */
  ghost predicate Even(frames: seq<seq<bit>>, done: seq<Outcome>, posted: seq<Tx>, start: nat, begun: seq<Tx>) {
    && |frames| == |posted| && CarryPlan(frames, posted) && Told(done) && start <= |frames| && posted[start..] == begun
    && (NoTimeouts(done) ==> frames[..start] == AllFrames(done))
  }

  /** What finishing a request needs: its frames carry its transactions and make the report. */
  ghost predicate Ends(b: Blob, done: seq<Outcome>, posted: seq<Tx>, start: nat, begun: seq<Tx>, req: Request,
                       status: Status, value: uint16)
    reads b, b.box
  {
    && Rung(b, posted) && Told(done) && start <= |b.frames| && start <= |posted| && posted[start..] == begun
    && begun <= Plan(req)
    && (NoTimeouts(done) ==> b.frames[..start] == AllFrames(done))
    && (status != Timeout ==> b.Waiting() && Reported(Outcome(req, b.frames[start..], status, value)))
  }

  /** Every doorbell served: the last frame makes the report. */
  lemma Served(b: Blob, done: seq<Outcome>, posted: seq<Tx>, start: nat, begun: seq<Tx>, req: Request, step: Step,
               status: Status, value: uint16)
    requires Clean(b, done, posted, start, begun, true) && b.rung == |b.frames| && OnPlan(req, begun, step)
    requires Came(begun, b.frames, status, value)
    ensures Clean(b, done, posted, start, begun, begun != []) && b.Waiting()
    ensures |begun| == |Plan(req)| || status != Done ==>
              var v := if status != Done then 0 else if IsRead(req.op) then value else 0;
              && Ends(b, done, posted, start, begun, req, status, v)
              && Ends(b, done, posted, start, begun, req, status, if status != Done then 0 else value)
  {
    hide Blob.Serving, Plan, StepAt, Carries, Blob.Due, CmdBytes, Told, AllFrames;
    var last, tx := b.frames[|b.frames| - 1], begun[|begun| - 1];
    var cur := b.frames[start..];
    CurrentCarries(b.frames, posted, start, begun);
    if status != Done {
      OnlyLastReads(req, begun);
    }
    if |begun| == |Plan(req)| {
      LastReads(req);
      assert begun == Plan(req) && cur[|cur| - 1] == last;
    }
  }

  lemma CurrentCarries(frames: seq<seq<bit>>, posted: seq<Tx>, start: nat, begun: seq<Tx>)
    requires CarryPlan(frames, posted) && start <= |frames| && start <= |posted| && posted[start..] == begun
    ensures CarryPlan(frames[start..], begun)
  {
    hide Carries;
    forall i | 0 <= i < |frames| - start
      ensures Carries(frames[start..][i], begun[i])
    {
      assert begun[i] == posted[start + i] && frames[start..][i] == frames[start + i];
    }
  }

  lemma TimedOut(b: Blob, done: seq<Outcome>, posted: seq<Tx>, start: nat, begun: seq<Tx>, req: Request, step: Step)
    requires Clean(b, done, posted, start, begun, true) && OnPlan(req, begun, step)
    ensures Ends(b, done, posted, start, begun, req, Timeout, 0)
  {
    hide Rung, Told, AllFrames, Plan, StepAt;
  }

  /** The program waits at the start of a transaction: what is left of an earlier request is over. */
  lemma Resting(b: Blob, done: seq<Outcome>, posted: seq<Tx>, start: nat, begun: seq<Tx>)
    requires Clean(b, done, posted, start, begun, begun != []) && b.Waiting()
    ensures b.Linked() && b.rung == |b.frames|
    ensures Even(b.frames, done, posted, if begun == [] then |b.frames| else start, begun)
  {
    hide Blob.Serving, Told, Blob.Due, AllFrames, CarryPlan, CmdBytes;
  }

  lemma StartedClean(b: Blob, done: seq<Outcome>, posted: seq<Tx>, start: nat, begun: seq<Tx>, tx: Tx)
    requires b.Linked() && b.rung == |b.frames| + 1 && Posted(b.box, tx) && Even(b.frames, done, posted, start, begun)
    ensures Clean(b, done, posted + [tx], start, begun + [tx], true)
  {
    hide Blob.Linked, Told, CmdBytes, AllFrames, Carries;
    assert (posted + [tx])[start..] == posted[start..] + [tx];
  }

  lemma FinishedClean(b: Blob, done: seq<Outcome>, posted: seq<Tx>, start: nat, begun: seq<Tx>, o: Outcome)
    requires Ends(b, done, posted, start, begun, o.req, o.status, o.value)
    requires o.frames == if start <= |b.frames| then b.frames[start..] else []
    ensures Clean(b, done + [o], posted, |b.frames|, [], false)
  {
    hide Blob.Serving, Blob.Due, Reported, Plan, CmdBytes, Carries, AllFrames, Posted;
    CurrentCarries(b.frames, posted, start, begun);
    AllFramesSnoc(done, o);
    assert b.frames == b.frames[..start] + b.frames[start..];
    forall x | x in done + [o]
      ensures CarryPlan(x.frames, Plan(x.req)) && (x.status == Timeout || Reported(x))
    {}
    if NoTimeouts(done + [o]) {
      assert o in done + [o] && forall x :: x in done ==> x in done + [o];
      assert NoTimeouts(done);
    }
  }

  /** While the program waits, its books do not depend on the mailbox. */
  lemma CommandFree(b: Blob)
    ensures b.Linked() && b.Waiting() ==>
              && b.base <= |b.wire| && b.Part() == [] && b.wire[..b.base] == OnWire(b.frames) && !b.x
              && b.rung == |b.frames|
    ensures (b.phase == WaitGo && b.base <= |b.wire| && b.Part() == [] && b.wire[..b.base] == OnWire(b.frames) && !b.x)
              ==> b.Serving()
  {
    hide OnWire;
    if b.phase == WaitGo && b.base <= |b.wire| && b.Part() == [] && !b.x {
      FaithfulIdle(b.phase, b.box.cmd, b.Read(), b.Part(), b.exch, b.box.resH, b.box.resL);
    }
  }

  lemma WordIs(tx: Tx, frame: nat)
    requires frame == 0x4000_0000 + (if tx.read then 2 else 1) * 0x1000_0000 + tx.phy * 0x80_0000 + tx.reg * 0x4_0000
                      + (if tx.read then 0 else 2) * 0x1_0000 + (if tx.read then 0 else tx.val)
    ensures frame == Word(tx)
  {}

  lemma CommandIs(tx: Tx, frame: nat, cmd: quad)
    requires frame == Word(tx)
    requires cmd[0] == frame / 0x100_0000 % 256 && cmd[1] == frame / 0x1_0000 % 256
    requires cmd[2] == frame / 256 % 256 && cmd[3] == frame % 256
    ensures cmd == CmdBytes(tx)
  {
    hide Word;
  }

  /** The frame that appeared, if any, is the one that was posted. */
  lemma RanRung(b: Blob, before: seq<seq<bit>>, posted: seq<Tx>)
    requires b.Linked() && b.Due() && |posted| == b.rung && (posted != [] ==> Posted(b.box, posted[|posted| - 1]))
    requires before <= b.frames && CarryPlan(before, posted) && |posted| <= |before| + 1
    ensures Rung(b, posted)
  {
    hide Blob.Serving, Answer, Carries;
    if b.frames != [] && b.rung == |b.frames| {
      var tx := posted[|posted| - 1];
      AnswerCarries(tx, b.frames[|b.frames| - 1], b.box.status, b.box.resH, b.box.resL);
    }
    forall i | 0 <= i < |b.frames|
      ensures Carries(b.frames[i], posted[i])
    {
      assert i < |before| ==> b.frames[i] == before[i];
    }
  }

  // ---- main results --------------------------------------------------------------------------------

  /** What clients may rely on: as long as every transaction was started with the program waiting,
      every request that did not time out reported the frame its last transaction got on the wire,
      whatever the interleaving, timeouts included. */
  lemma ReportsAreTrue(m: Master)
    requires m.Valid() && m.clean
    ensures forall o :: o in m.done && o.status != Timeout ==> Reported(o)
  {}

  /** ... and every transaction posted is on the wire, in order, and is what the sniffer decodes. */
  lemma WireIsPosted(m: Master)
    requires m.Valid() && m.clean && m.blob.Waiting()
    ensures CarryPlan(m.blob.frames, m.posted) && |m.posted| == |m.blob.frames|
    ensures DecodeBits(m.blob.wire) == SeenAll(m.posted, m.blob.frames)
  {
    hide Told, DecodeBits, AllFrames, Blob.Due, Faithful, OnWire, Carries, Hunt;
    WaitingWire(m.blob);
    CarriesLength(m.blob.frames, m.posted);
    HuntAll(m.posted, m.blob.frames, []);
    assert OnWire(m.blob.frames) + [] == m.blob.wire;
    NothingHunted();
  }

  lemma NothingHunted()
    ensures Hunt([], 0) == [] && forall s :: DecodeBits(s) == Hunt(s, 0)
  {}

  lemma WaitingWire(b: Blob)
    requires b.Linked() && b.Waiting()
    ensures b.wire == OnWire(b.frames) && b.rung == |b.frames|
  {
    hide Faithful, OnWire;
    assert b.wire[..b.base] == b.wire;
  }

  /** Driver and sniffer, on the running master: whatever the interleaving, once no request is
      under way and none has timed out, the sniffer makes of the wire exactly one event per
      request, agreeing with what each client was told. */
  lemma WireReadsBack(m: Master, r: Mmd.Regs)
    requires m.Valid() && m.clean && !m.active
    requires forall o :: o in m.done ==> o.status != Timeout && MdioWire.Answered(o) && OutsideWindow(o.req)
    ensures m.blob.wire == OnWire(m.blob.frames) && CarryPlan(m.blob.frames, m.posted)
    ensures Mmd.Folded(r, DecodeBits(m.blob.wire)) == Reports(m.done)
  {
    hide Plan, Mmd.Folded, DecodeBits, Reported, MdioWire.Answered, OutsideWindow, AllFrames, Blob.Due, Blob.Serving,
         OnWire, Carries;
    var b := m.blob;
    assert NoTimeouts(m.done);
    assert b.Waiting() && b.frames[..m.start] == b.frames;
    WaitingWire(b);
    SnifferSeesRequests(r, m.done);
  }

  lemma BusyMaster(m: Master)
    requires m.Valid() && m.clean && !m.active && !m.blob.Waiting()
    ensures OnPath(m.blob.phase, m.blob.Read())
    ensures m.blob.ToGo() == 1 + ToPublish(m.blob.phase, m.blob.Read()) && m.posted != []
    ensures var tx := m.posted[|m.posted| - 1]; m.box.cmd == CmdBytes(tx) && m.blob.Read() == tx.read
  {
    hide Told, AllFrames, CmdBytes, Blob.Serving, ToPublish;
    BusyToGo(m.blob);
  }

  /** Without a waiting program no such promise is possible: whenever a request is started while the
      program is still busy, there is a schedule in which its client is told that it is done, or
      unanswered, although all that went over the wire is the transaction before. */
  method FalseDone(m: Master, nowMs: uint32, read: bool, phy: byte, reg: uint16, val: uint16, r: Response)
    requires m.Valid() && m.clean && !m.active && !m.blob.Waiting()
    modifies m, m.blob, m.box, r
    ensures m.Valid() && !m.active && old(m.posted) != []
    ensures r.status == Done || (old(m.posted[|m.posted| - 1].read) && r.status == NoResp)
    ensures |m.done| == |old(m.done)| + 1 && m.done[..|old(m.done)|] == old(m.done)
    ensures m.done[|old(m.done)|].req == Request(if read then OpRead else OpWrite, phy, 0, reg, val)
    ensures m.done[|old(m.done)|].status == r.status
    ensures |m.blob.frames| == |old(m.blob.frames)| + 1
    ensures m.blob.frames[..|old(m.blob.frames)|] == old(m.blob.frames)
    ensures Carries(m.blob.frames[|old(m.blob.frames)|], old(m.posted[|m.posted| - 1]))
  {
    hide Blob.Valid, Clean, Blob.Linked, Blob.Waiting, CmdBytes, FrameOfCommand, Blob.ToGo, Carries;
    BusyMaster(m);
    var n := 1 + ToPublish(m.blob.phase, m.box.ctrl % 2 == 1);
    ghost var tx := m.posted[|m.posted| - 1];
    ghost var frames := m.blob.frames;
    var result := m.Submit(if read then OpRead else OpWrite, phy, 0, reg, val, r);
    var levels := (k: nat) => if k == 0 then seq(n - 1, _ => 0) else if k == 5 then [0] else [];
    assert Still(levels, 6);
    ghost var st := m.Tick(nowMs, levels);
    CommandCarries(tx, m.blob.frames[|frames|]);
  }

  /** An MMD request meets the same: its client is told that no PHY answered, or the master takes its first
      transaction for done, which the program never sees. */
  method FalseStart(m: Master, nowMs: uint32, read: bool, phy: byte, mmd: byte, reg: uint16, val: uint16, r: Response)
    requires m.Valid() && m.clean && !m.active && !m.blob.Waiting()
    modifies m, m.blob, m.box, r
    ensures m.Valid() && old(m.posted) != []
    ensures m.active ==>
              Skipped(m.blob, Request(if read then OpReadMmd else OpWriteMmd, phy, mmd, reg, val), m.begun)
    ensures !m.active ==> r.status == NoResp && old(m.posted[|m.posted| - 1].read)
    ensures |m.blob.frames| == |old(m.blob.frames)| + 1
    ensures m.blob.frames[..|old(m.blob.frames)|] == old(m.blob.frames)
    ensures Carries(m.blob.frames[|old(m.blob.frames)|], old(m.posted[|m.posted| - 1]))
  {
    hide Blob.Valid, Clean, Blob.Linked, Blob.Waiting, CmdBytes, FrameOfCommand, Blob.ToGo, Carries, Skipped;
    BusyMaster(m);
    var n := 1 + ToPublish(m.blob.phase, m.box.ctrl % 2 == 1);
    ghost var tx := m.posted[|m.posted| - 1];
    ghost var frames := m.blob.frames;
    var result := m.Submit(if read then OpReadMmd else OpWriteMmd, phy, mmd, reg, val, r);
    var levels := (k: nat) => if k == 0 then seq(n - 1, _ => 0) else if k == 5 then [0] else [];
    assert Still(levels, 6);
    ghost var st := m.Tick(nowMs, levels);
    CommandCarries(tx, m.blob.frames[|frames|]);
  }

  /** Such a state is reached by a timeout: the program sleeps through the doorbell of a write for
      more than 5 ms. */
  method SleptThrough(val: uint16) returns (m: Master)
    ensures fresh(m) && fresh(m.blob) && fresh(m.box) && m.Valid() && m.clean && !m.active && !m.blob.Waiting()
    ensures m.blob.frames == [] && m.posted == [Tx(false, 1, 1, val)]
    ensures |m.done| == 1 && m.done[0].req == Request(OpWrite, 1, 0, 1, val) && m.done[0].status == Timeout
  {
    hide Blob.Valid, Clean, Blob.Linked, Blob.ToGo;
    var box := new Mailbox();
    var blob := new Blob(box);
    m := new Master(box, blob);
    Fresh(blob);
    var r := new Response();
    var result := m.Submit(OpWrite, 1, 0, 1, val, r);
    var asleep := (k: nat) => [];
    assert Still(asleep, 0);
    ghost var st := m.Tick(0, asleep);
    BusyStatus(m.blob);
    st := m.Tick(6, asleep);
  }

  /** The next write, to another register, is then reported as done although the only frame on the
      wire is that of the first. */
  method StaleStatus(first: uint16, second: uint16) returns (m: Master)
    ensures fresh(m) && m.Valid() && !m.active && |m.done| == 2 && |m.blob.frames| == 1
    ensures m.done[0].req == Request(OpWrite, 1, 0, 1, first) && m.done[0].status == Timeout
    ensures m.done[1].req == Request(OpWrite, 1, 0, 2, second) && m.done[1].status == Done
    ensures Carries(m.blob.frames[0], Tx(false, 1, 1, first))
  {
    hide Blob.Valid, Clean, Blob.Linked, Blob.Waiting, CmdBytes, FrameOfCommand, Blob.ToGo, Carries;
    m := SleptThrough(first);
    var r := new Response();
    FalseDone(m, 6, false, 1, 2, second, r);
  }

  /** Once the program waits again with no request under way, all is as at the start, whatever happened
      before: only the history has to be begun anew, and no real field. */
  ghost method Afresh(m: Master)
    requires m.Valid() && !m.active && m.blob.Waiting()
    modifies m`done, m`posted, m`start, m`waits, m`clean, m.blob`wire, m.blob`base, m.blob`frames, m.blob`rung
    ensures m.Valid() && m.clean && m.done == [] && m.posted == [] && m.blob.frames == [] && m.blob.wire == []
  {
    m.blob.wire, m.blob.base, m.blob.frames, m.blob.rung := [], 0, [], 0;
    m.done, m.posted, m.start, m.waits, m.clean := [], [], 0, [], true;
    StartOver(m.blob);
  }

  lemma StartOver(b: Blob)
    requires b.Valid() && b.Waiting() && b.wire == [] && b.base == 0 && b.frames == [] && b.rung == 0
    ensures Clean(b, [], [], 0, [], false)
  {
    FaithfulIdle(b.phase, b.box.cmd, b.Read(), b.Part(), b.exch, b.box.resH, b.box.resL);
    hide Faithful;
    assert b.wire[..b.base] == OnWire(b.frames);
  }

  // ---- whole runs ------------------------------------------------------------------------------------

  /** A client's request, a poll, or a while in which only the program runs. */
  datatype Act =
    | Ask(op: Op, phy: byte, mmd: byte, reg: uint16, val: uint16)
    | Look(nowMs: uint32, levels: nat -> seq<bit>)
    | Rest(meanwhile: seq<bit>)

  /** Before each request the program gets the steps it may still need for a transaction that timed out. */
  predicate Patient(acts: seq<Act>) {
    forall i :: 0 <= i < |acts| && acts[i].Ask? ==> i > 0 && acts[i - 1].Rest? && |acts[i - 1].meanwhile| >= BUSY_MAX
  }

  function RequestIn(a: Act): Request
    requires a.Ask?
  {
    Request(a.op, a.phy, a.mmd, a.reg, a.val)
  }

  /** The requests that were accepted, in order. */
  function Accepted(acts: seq<Act>, results: seq<Result>): seq<Request>
    requires |results| == |acts|
    decreases |acts|
  {
    if acts == [] then []
    else
      var n := |acts| - 1;
      Accepted(acts[..n], results[..n]) + if acts[n].Ask? && results[n] == Ok then [RequestIn(acts[n])] else []
  }

  lemma AcceptedSnoc(acts: seq<Act>, results: seq<Result>, i: nat, r: Result)
    requires i < |acts| && |results| == i
    ensures Accepted(acts[..i + 1], results + [r]) ==
            Accepted(acts[..i], results) + if acts[i].Ask? && r == Ok then [RequestIn(acts[i])] else []
  {
    assert acts[..i + 1][..i] == acts[..i] && (results + [r])[..i] == results;
  }

  /** The requests that have ended since `from`, and the one under way. */
  ghost function Taken(m: Master, from: nat): seq<Request>
    requires from <= |m.done|
    reads m
  {
    TakenOf(m.done, m.active, m.req, from)
  }

  function TakenOf(done: seq<Outcome>, active: bool, req: Request, from: nat): seq<Request>
    requires from <= |done|
  {
    seq(|done| - from, i requires 0 <= i < |done| - from => done[from + i].req) + if active then [req] else []
  }

  /** Requests ended before the i-th act. */
  function Before(ended: seq<nat>, i: nat): nat
    requires i <= |ended|
  {
    if i == 0 then 0 else ended[i - 1]
  }

  /** One act. */
  method Perform(m: Master, a: Act) returns (result: Result)
    requires m.Valid()
    modifies m, m.blob, m.box, m.resp
    ensures m.Valid() && old(m.done) <= m.done && Master.OneEach(old(m.waits), m.waits, old(m.posted), m.posted)
    ensures m.resp == null || m.resp == old(m.resp) || fresh(m.resp)
    ensures result == Ok <==> !a.Ask? || !old(m.active)
    ensures if a.Ask? && !old(m.active) then m.active && m.req == RequestIn(a) && m.done == old(m.done)
            else m.req == old(m.req) && (m.active ==> old(m.active))
    ensures !a.Look? ==> m.done == old(m.done) && (old(m.active) ==> m.active) && m.clean == old(m.clean)
    ensures a.Look? ==>
              && |m.done| == |old(m.done)| + (if old(m.active) && !m.active then 1 else 0)
              && (|m.done| > |old(m.done)| ==> m.done[|old(m.done)|].req == m.req)
              && (m.active ==> m.started && (a.nowMs - m.startedMs) % WORD32 <= TIMEOUT_MS)
              && (m.clean <==> old(m.clean) && (old(m.active && !m.started) ==> old(m.blob.Waiting())))
    ensures !a.Look? && old(m.blob.Waiting()) ==> m.blob.Waiting()
    ensures !a.Look? && old(m.active) ==> m.started == old(m.started)
    ensures old(m.clean) && a.Rest? && |a.meanwhile| >= BUSY_MAX ==> m.blob.Waiting()
  {
    hide Blob.Valid, Clean, Blob.Linked, Blob.Waiting, Blob.ToGo, Master.Reacted, Plan, OnPlan, Skipped,
         Reported, CarryPlan, AllTrue;
    result := Ok;
    match a {
      case Ask(op, phy, mmd, reg, val) =>
        var r := new Response();
        result := m.Submit(op, phy, mmd, reg, val, r);
      case Look(nowMs, levels) =>
        ghost var st := m.Tick(nowMs, levels);
        SlotEmpty(m);
      case Rest(levels) =>
        if m.clean {
          CleanLinked(m);
        }
        ToGoBound(m.blob);
        m.Meanwhile(levels);
    }
  }

  /** A request is accepted exactly if all accepted before it have ended; only a poll ends one. */
  predicate InTurn(acts: seq<Act>, results: seq<Result>, ended: seq<nat>, i: nat)
    requires i < |acts| == |results| == |ended|
  {
    && Before(ended, i) <= ended[i] <= Before(ended, i) + (if acts[i].Look? then 1 else 0)
    && (results[i] == Ok <==> !acts[i].Ask? || |Accepted(acts[..i], results[..i])| == Before(ended, i))
  }

  /** `taken` are the requests accepted in these acts, and n of them have ended. */
  predicate Tracks(acts: seq<Act>, results: seq<Result>, ended: seq<nat>, taken: seq<Request>, n: nat) {
    && |results| == |ended| == |acts| && taken == Accepted(acts, results) && n == Before(ended, |acts|)
    && forall i :: 0 <= i < |acts| ==> InTurn(acts, results, ended, i)
  }

  lemma NothingTracked()
    ensures Tracks([], [], [], [], 0)
  {}

  lemma TracksSnoc(acts: seq<Act>, results: seq<Result>, ended: seq<nat>, taken: seq<Request>, n: nat, i: nat,
                   result: Result, n': nat)
    requires i < |acts| && Tracks(acts[..i], results, ended, taken, n)
    requires n <= n' <= n + (if acts[i].Look? then 1 else 0)
    requires result == Ok <==> !acts[i].Ask? || |taken| == n
    ensures Tracks(acts[..i + 1], results + [result], ended + [n'],
                   taken + (if acts[i].Ask? && result == Ok then [RequestIn(acts[i])] else []), n')
  {
    hide Accepted;
    AcceptedSnoc(acts, results, i, result);
    var acts', results', ended' := acts[..i + 1], results + [result], ended + [n'];
    assert acts'[..i] == acts[..i] && results'[..i] == results && acts'[i] == acts[i];
    forall j | 0 <= j <= i
      ensures InTurn(acts', results', ended', j)
    {
      if j < i {
        assert InTurn(acts[..i], results, ended, j);
        assert acts'[..j] == acts[..i][..j] && results'[..j] == results[..j];
        assert Before(ended', j) == Before(ended, j);
      }
    }
  }

  /** How the requests taken change with one act. */
  lemma TakenNow(m: Master, from: nat, was: seq<Outcome>, busy: bool, req: Request)
    requires from <= |was| && was <= m.done && |m.done| <= |was| + 1
    requires |m.done| > |was| ==> busy && !m.active && m.done[|was|].req == req
    requires |m.done| == |was| && busy ==> m.active && m.req == req
    ensures Taken(m, from) == TakenOf(was, busy, req, from) + if !busy && m.active then [m.req] else []
  {}

  lemma TakenSize(done: seq<Outcome>, active: bool, req: Request, from: nat)
    requires from <= |done|
    ensures |TakenOf(done, active, req, from)| == |done| - from + if active then 1 else 0
  {}

  /** Any requests, polls and pauses, in any order, the program going on between any two register accesses. A
      request is accepted exactly if all accepted before it have ended; only a poll ends one, and none is
      left alone for more than 5 ms. If the program waited whenever a transaction was started, then every
      request that did not time out has reported the frame its last transaction got, and the wire holds what
      was asked for, in order. It did wait if each request was preceded by a long enough pause. */
  method Session(m: Master, acts: seq<Act>) returns (results: seq<Result>, ghost ended: seq<nat>)
    requires m.Valid() && m.clean && !m.active
    modifies m, m.blob, m.box
    ensures m.Valid() && old(m.done) <= m.done
    ensures Tracks(acts, results, ended, Taken(m, |old(m.done)|), |m.done| - |old(m.done)|)
    ensures acts != [] && acts[|acts| - 1].Look? && m.active ==>
              m.started && (acts[|acts| - 1].nowMs - m.startedMs) % WORD32 <= TIMEOUT_MS
    ensures Master.OneEach(old(m.waits), m.waits, old(m.posted), m.posted)
    ensures AllTrue(m.waits) ==>
              && CarryPlan(m.blob.frames, m.posted)
              && forall o :: o in m.done && o.status != Timeout ==> Reported(o)
    ensures Patient(acts) ==> AllTrue(m.waits)
  {
    hide Blob.Valid, Clean, Blob.Linked, Blob.Waiting, Reported, CarryPlan, AllTrue, Tracks, TakenOf;
    ghost var done := m.done;
    results, ended := [], [];
    SlotEmpty(m);
    NothingTracked();
    TakenNone(m);
    assert acts[..0] == [];
    for i := 0 to |acts|
      invariant m.Valid() && Master.OneEach(old(m.waits), m.waits, old(m.posted), m.posted)
      invariant (m.resp == null || fresh(m.resp)) && done <= m.done
      invariant Tracks(acts[..i], results, ended, Taken(m, |done|), |m.done| - |done|)
      invariant i > 0 && acts[i - 1].Look? && m.active ==>
                  m.started && (acts[i - 1].nowMs - m.startedMs) % WORD32 <= TIMEOUT_MS
      invariant Patient(acts) ==> m.clean && (m.active && !m.started ==> m.blob.Waiting())
      invariant Patient(acts) && i > 0 && acts[i - 1].Rest? && |acts[i - 1].meanwhile| >= BUSY_MAX && !m.active ==>
                  m.blob.Waiting()
    {
      ghost var was, req, busy := m.done, m.req, m.active;
      TakenSize(m.done, m.active, m.req, |done|);
      var result := Perform(m, acts[i]);
      TakenNow(m, |done|, was, busy, req);
      TracksSnoc(acts, results, ended, TakenOf(was, busy, req, |done|), |was| - |done|, i, result, |m.done| - |done|);
      results, ended := results + [result], ended + [|m.done| - |done|];
    }
    assert acts[..|acts|] == acts;
    if m.clean {
      ReportsAreTrue(m);
      CleanCarries(m);
    }
  }

  lemma TakenNone(m: Master)
    requires !m.active
    ensures Taken(m, |m.done|) == []
  {}

  lemma CleanLinked(m: Master)
    requires m.Valid() && m.clean
    ensures m.blob.Linked()
  {
    hide Told, AllFrames, Carries, Blob.Serving, Blob.Due;
  }

  lemma SlotEmpty(m: Master)
    requires m.Valid()
    ensures m.resp == null <==> !m.active
  {}

  lemma CleanCarries(m: Master)
    requires m.Valid() && m.clean
    ensures CarryPlan(m.blob.frames, m.posted)
  {
    hide Told, AllFrames, Carries;
  }

  lemma Fresh(b: Blob)
    requires b.Linked() && b.frames == [] && b.rung == 0
    ensures b.Waiting()
  {
    hide Blob.Serving;
  }

  lemma BusyStatus(b: Blob)
    requires b.Linked() && !b.Waiting()
    ensures b.box.status == 0
  {
    hide Blob.Serving;
  }
}
