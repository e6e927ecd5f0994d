/** The bit-banged MDIO program (pioc/mdio_master.ASM) and the mailbox it shares with the
    CPU, one register access at a time; the CPU may act between any two steps. */
module MdioMailbox {
  import opened Bytes
  import opened Clause22
  import opened MdioWire

  const ST_OK: byte := 0x01
  const ST_NORESP: byte := 0x80
  const CTRL_GO: byte := 0x80
  const DRIVEN: nat := 46        // clocks driven by a read: preamble and fourteen frame bits
  const CLOCKS: nat := 64

  type quad = s: seq<byte> | |s| == 4 witness [0, 0, 0, 0]

  /** CMD0..3, CTRL, STATUS, RES_H, RES_L. */
  class Mailbox {
    var cmd: quad
    var ctrl: byte
    var status: byte
    var resH: byte
    var resL: byte

    constructor ()
      ensures ctrl == 0 && status == 0
    {
      cmd, ctrl, status, resH, resL := [0, 0, 0, 0], 0, 0, 0, 0;
    }
  }

  /** Places of the program between register accesses and clock cycles. */
  datatype Phase =
    | WaitGo                 // polling CTRL bit 7
    | TakeGo                 // about to clear it
    | MarkBusy               // about to clear STATUS
    | Load(pos: nat)         // about to fetch the byte clocked out from pos on
    | Branch                 // about to test CTRL bit 0
    | Clock(pos: nat)        // about to clock bit pos
    | StoreH | StoreL        // about to store a sampled byte
    | Publish                // about to write STATUS

  /** Clocks made so far. */
  function Pos(p: Phase): nat {
    match p
    case Load(pos) => pos
    case Clock(pos) => pos
    case Branch => 40
    case StoreH => 56
    case StoreL => CLOCKS
    case Publish => CLOCKS
    case _ => 0
  }

  /** The program's path: what follows clock number pos. */
  function AfterClock(pos: nat, read: bool): Phase {
    if pos == 32 then Load(32)
    else if pos == 40 then Branch
    else if pos == 48 && !read then Load(48)
    else if pos == 56 then (if read then StoreH else Load(56))
    else if pos == CLOCKS then (if read then StoreL else Publish)
    else Clock(pos)
  }

  /** The phase exists on the path of a read or of a write. */
  predicate OnPath(p: Phase, read: bool) {
    match p
    case Load(pos) => pos == 32 || pos == 40 || (!read && (pos == 48 || pos == 56))
    case Clock(pos) => pos < CLOCKS
    case StoreH => read
    case StoreL => read
    case _ => true
  }

  /** How far the program is from waiting again. */
  function Left(p: Phase): nat {
    match p
    case WaitGo => 0
    case TakeGo => 1000
    case MarkBusy => 999
    case Publish => 1
    case StoreL => 2
    case StoreH => 10 * (CLOCKS - 56) + 5
    case Branch => 10 * (CLOCKS - 40) + 7
    case Load(pos) => if pos <= CLOCKS then 10 * (CLOCKS - pos) + 6 else 0
    case Clock(pos) => if pos <= CLOCKS then 10 * (CLOCKS - pos) + 4 else 0
  }

  /** The step after p, on the way from a doorbell to its result. */
  function NextPhase(p: Phase, read: bool): (p': Phase)
    requires OnPath(p, read)
    ensures OnPath(p', read) && (!p.WaitGo? && !p.Publish? ==> Left(p') < Left(p) && !p'.WaitGo?)
  {
    match p
    case WaitGo => TakeGo
    case TakeGo => MarkBusy
    case MarkBusy => Clock(0)
    case Load(pos) => Clock(pos)
    case Branch => Load(40)
    case Clock(pos) => AfterClock(pos + 1, read)
    case StoreH => Clock(56)
    case StoreL => Publish
    case Publish => WaitGo
  }

  /** Steps to go until STATUS is about to be written. */
  function ToPublish(p: Phase, read: bool): nat
    requires OnPath(p, read)
    decreases if p.WaitGo? then 2000 else Left(p)
  {
    if p.Publish? then 0 else 1 + ToPublish(NextPhase(p, read), read)
  }

  /** The bits clocked so far follow the command as far as the program drives the line. */
  ghost predicate Driven(cmd: seq<byte>, read: bool, part: seq<bit>) {
    |cmd| == 4 && |part| <= CLOCKS &&
    forall i :: 0 <= i < |part| && (read ==> i < DRIVEN) ==> part[i] == Image(cmd)[i]
  }

  /** Preamble and command bytes. */
  function Image(cmd: seq<byte>): (bits: seq<bit>)
    requires |cmd| == 4
    ensures |bits| == CLOCKS
  {
    Ones(PREAMBLE) + (ToBits(cmd[0], 8) + ToBits(cmd[1], 8) + ToBits(cmd[2], 8) + ToBits(cmd[3], 8))
  }

  /** What the shift register holds at each place. */
  ghost predicate Latched(p: Phase, cmd: seq<byte>, read: bool, part: seq<bit>, exch: byte) {
    && |cmd| == 4 && |part| == Pos(p)
    && match p
       case Clock(pos) =>
         if pos < 32 then exch == 0xFF
         else if pos < 40 then exch == cmd[0]
         else if pos < (if read then DRIVEN else 48) then exch == cmd[1]
         else if !read then exch == (if pos < 56 then cmd[2] else cmd[3])
         else pos < CLOCKS && (pos > 48 ==> ToBits(exch, 8)[..pos % 8] == part[pos - pos % 8..])
       case StoreH => ToBits(exch, 8) == part[48..]
       case StoreL => ToBits(exch, 8) == part[56..]
       case _ => true
  }

  /** What a read has sampled so far. */
  ghost predicate Sampled(p: Phase, read: bool, part: seq<bit>, x: bool, resH: byte, resL: byte) {
    && |part| == Pos(p)
    && (x <==> read && |part| > 47 && part[47] == 1)
    && (read && (|part| > 56 || p == Clock(56)) ==> resH == Val(part[48..56]))
    && (read && p.Publish? ==> resL == Val(part[56..64]))
  }

  // ---- one clock cycle -----------------------------------------------------------------------------

  /** BG2F: bit 7 - k of the shift register takes the level of the line. */
  function SetBit(exch: byte, k: nat, level: bit): (e: byte)
    requires k < 8
    ensures ToBits(e, 8) == ToBits(exch, 8)[k := level]
  {
    var bits := ToBits(exch, 8)[k := level];
    BitsOfVal(bits);
    assert Pow2(8) == 256;
    Val(bits)
  }

  /** The bit a clock puts on the line: the register's while the program drives, otherwise what
      the PHY or the pull-up makes of it. */
  function LineBit(exch: byte, pos: nat, read: bool, level: bit): bit {
    if read && pos >= DRIVEN then level else ToBits(exch, 8)[pos % 8]
  }

  lemma ImageAt(cmd: seq<byte>, pos: nat, k: nat)
    requires |cmd| == 4 && k < 4 && 32 + 8 * k <= pos < 40 + 8 * k
    ensures Image(cmd)[pos] == ToBits(cmd[k], 8)[pos % 8]
  {
    Octet(pos, k);
    hide ToBits;
  }

  lemma Octet(pos: nat, k: nat)
    requires k < 4 && 32 + 8 * k <= pos < 40 + 8 * k
    ensures pos % 8 == pos - 32 - 8 * k
  {}

  lemma AllOnes(k: nat)
    requires k < 8
    ensures ToBits(0xFF, 8)[k] == 1
  {
    OnesValOf(8);
    SmallPowers();
    BitsOfVal(Ones(8));
  }

  lemma DrivenBit(p: Phase, cmd: seq<byte>, read: bool, part: seq<bit>, exch: byte, pos: nat)
    requires p == Clock(pos) && pos < CLOCKS && Latched(p, cmd, read, part, exch)
    requires read ==> pos < DRIVEN
    ensures ToBits(exch, 8)[pos % 8] == Image(cmd)[pos]
  {
    if pos < 32 {
      AllOnes(pos % 8);
    } else {
      ImageAt(cmd, pos, if pos < 40 then 0 else if pos < 48 then 1 else if pos < 56 then 2 else 3);
    }
    hide ToBits;
  }

  /** A clock keeps line, register and samples in step. */
  lemma ClockKeeps(pos: nat, cmd: seq<byte>, read: bool, part: seq<bit>, exch: byte, x: bool, resH: byte, resL: byte,
                   level: bit)
    requires pos < CLOCKS && OnPath(Clock(pos), read)
    requires Driven(cmd, read, part) && Latched(Clock(pos), cmd, read, part, exch)
    requires Sampled(Clock(pos), read, part, x, resH, resL)
    ensures var part' := part + [LineBit(exch, pos, read, level)];
            var exch' := if read && pos >= 48 then SetBit(exch, pos % 8, level) else exch;
            var p' := AfterClock(pos + 1, read);
            && Driven(cmd, read, part') && Latched(p', cmd, read, part', exch') && Pos(p') == pos + 1
            && Sampled(p', read, part', x || (read && pos == 47 && level == 1), resH, resL)
  {
    ClockDrives(pos, cmd, read, part, exch, level);
    ClockLatches(pos, cmd, read, part, exch, level);
    ClockSamples(pos, read, part, exch, x, resH, resL, level);
  }

  lemma ClockDrives(pos: nat, cmd: seq<byte>, read: bool, part: seq<bit>, exch: byte, level: bit)
    requires pos < CLOCKS && Driven(cmd, read, part) && Latched(Clock(pos), cmd, read, part, exch)
    ensures Driven(cmd, read, part + [LineBit(exch, pos, read, level)])
  {
    if !read || pos < DRIVEN {
      DrivenBit(Clock(pos), cmd, read, part, exch, pos);
    }
    hide Image, ToBits;
  }

  lemma ClockLatches(pos: nat, cmd: seq<byte>, read: bool, part: seq<bit>, exch: byte, level: bit)
    requires pos < CLOCKS && OnPath(Clock(pos), read) && Latched(Clock(pos), cmd, read, part, exch)
    ensures Pos(AfterClock(pos + 1, read)) == pos + 1
    ensures Latched(AfterClock(pos + 1, read), cmd, read, part + [LineBit(exch, pos, read, level)],
                    if read && pos >= 48 then SetBit(exch, pos % 8, level) else exch)
  {
    hide Image, SetBit, ToBits;
    if read && pos >= 48 {
      SampleStep(exch, pos, part, level);
      assert pos % 8 == 7 <==> pos == 55 || pos == 63;
    }
  }

  lemma ClockSamples(pos: nat, read: bool, part: seq<bit>, exch: byte, x: bool, resH: byte, resL: byte, level: bit)
    requires pos < CLOCKS && Sampled(Clock(pos), read, part, x, resH, resL)
    ensures Sampled(AfterClock(pos + 1, read), read, part + [LineBit(exch, pos, read, level)],
                    x || (read && pos == 47 && level == 1), resH, resL)
  {
    hide ToBits, Val;
    var part' := part + [LineBit(exch, pos, read, level)];
    if |part| >= 56 {
      assert part'[48..56] == part[48..56];
    }
  }

  lemma SampleStep(exch: byte, pos: nat, part: seq<bit>, level: bit)
    requires 48 <= pos < CLOCKS && |part| == pos
    requires pos > 48 ==> ToBits(exch, 8)[..pos % 8] == part[pos - pos % 8..]
    ensures var bits := ToBits(SetBit(exch, pos % 8, level), 8);
            var part' := part + [level];
            && bits[..pos % 8 + 1] == part'[pos - pos % 8..]
            && (pos % 8 == 7 ==> bits == part'[pos - 7..])
            && (pos % 8 < 7 ==> (pos + 1) % 8 == pos % 8 + 1)
  {
    hide ToBits;
    var k := pos % 8;
    var bits := ToBits(SetBit(exch, k, level), 8);
    assert bits[..k] == ToBits(exch, 8)[..k];
    assert ToBits(exch, 8)[..k] == part[pos - k..];
    assert bits[..k + 1] == bits[..k] + [level];
    assert (part + [level])[pos - k..] == part[pos - k..] + [level];
    if k == 7 {
      assert bits[..8] == bits;
    }
  }

  // ---- the program -----------------------------------------------------------------------------------

  ghost predicate Faithful(p: Phase, cmd: seq<byte>, read: bool, part: seq<bit>, exch: byte, x: bool,
                           resH: byte, resL: byte)
  {
    Driven(cmd, read, part) && Latched(p, cmd, read, part, exch) && Sampled(p, read, part, x, resH, resL)
  }

  /** The result in the mailbox is that of the frame `last`, sent for the command in the mailbox. */
  ghost predicate Answer(cmd: seq<byte>, read: bool, last: seq<bit>, status: byte, resH: byte, resL: byte) {
    && |cmd| == 4 && |last| == FRAME_BITS
    && (forall i :: 0 <= i < (if read then 14 else 32) ==> last[i] == Image(cmd)[PREAMBLE + i])
    && status == (if read && last[15] == 1 then ST_NORESP else ST_OK)
    && (read ==> resH == Val(last[16..24]) && resL == Val(last[24..32]))
  }

  /** What the program writes into STATUS at the end. */
  predicate Published(status: byte) { status == ST_OK || status == ST_NORESP }

  predicate Branched(p: Phase) { Pos(p) > 40 || p == Load(40) || p == Clock(40) }

  class Blob {
    const box: Mailbox
    var phase: Phase
    var exch: byte
    var rd: bool
    var x: bool                            // SB_GP_BIT_X: no PHY answered
    ghost var wire: seq<bit>               // the data line at every rising clock edge
    ghost var base: nat                    // |wire| when the current transaction began
    ghost var frames: seq<seq<bit>>        // the 32 bits after the preamble of each transaction
    ghost var rung: nat                    // doorbells rung by the CPU

    ghost predicate Valid()
      reads this, box
    {
      && base <= |wire| && |wire| - base == Pos(phase) && OnPath(phase, rd) && (Pos(phase) < 48 ==> !x)
    }

    ghost function Part(): seq<bit>
      requires base <= |wire|
      reads this
    {
      wire[base..]
    }

    ghost predicate Read()
      reads box
    {
      box.ctrl % 2 == 1
    }

    /** The transaction under way is the one in the mailbox. */
    ghost predicate Serving()
      reads this, box
    {
      && Valid() && wire[..base] == OnWire(frames)
      && (Branched(phase) ==> rd == Read())
      && Faithful(phase, box.cmd, Read(), Part(), exch, x, box.resH, box.resL)
    }

    /** The doorbell protocol: STATUS is zero from the doorbell to the end of its transaction. */
    ghost predicate Linked()
      reads this, box
    {
      && Serving()
      && if phase == WaitGo && box.ctrl < CTRL_GO then rung == |frames|
         else rung == |frames| + 1 && box.status == 0 && (box.ctrl >= CTRL_GO <==> phase == WaitGo || phase == TakeGo)
    }

    /** Polling, and no doorbell to see. */
    ghost predicate Waiting()
      reads this, box
    {
      phase == WaitGo && box.ctrl < CTRL_GO
    }

    /** Steps until a program that serves a doorbell has written STATUS; zero when it waits. */
    ghost function ToGo(): nat
      reads this, box
    {
      if Linked() && !Waiting() && OnPath(phase, Read()) then 1 + ToPublish(phase, Read()) else 0
    }

    /** When every doorbell has been served, the mailbox holds the last one's result. */
    ghost predicate Due()
      reads this, box
    {
      rung == |frames| && frames != [] ==>
        Answer(box.cmd, Read(), frames[|frames| - 1], box.status, box.resH, box.resL)
    }

    constructor (box: Mailbox)
      requires box.ctrl == 0
      ensures this.box == box && Valid() && Linked() && Due() && wire == [] && frames == [] && rung == 0
    {
      this.box := box;
      phase, exch, rd, x := WaitGo, 0, false, false;
      wire, base, frames, rung := [], 0, [], 0;
    }

    /** One clock of the line. */
    method ClockOne(pos: nat, level: bit)
      requires Valid() && phase == Clock(pos)
      modifies this
      ensures Valid() && old(wire) <= wire && frames == old(frames) && rung == old(rung)
      ensures old(Serving()) ==> Serving()
      ensures phase == AfterClock(pos + 1, old(rd)) && rd == old(rd)
      ensures phase != WaitGo && phase != TakeGo && Left(phase) < Left(old(phase))
    {
      hide Faithful, OnWire;
      ghost var part := Part();
      var b := LineBit(exch, pos, rd, level);
      if Serving() {
        FaithfulClock(pos, box.cmd, Read(), part, exch, x, box.resH, box.resL, level);
        BranchedClock(pos, rd, Read(), exch, level);
      }
      hide LineBit, SetBit, AfterClock;
      LastClock(wire, base, b);
      PosAfter(pos, rd);
      wire := wire + [b];
      if rd && pos == 47 && level == 1 {
        x := true;
      }
      if rd && pos >= 48 {
        exch := SetBit(exch, pos % 8, level);
      }
      phase := AfterClock(pos + 1, rd);
    }

    /** The end of a transaction: STATUS is written last. */
    method PublishStatus()
      requires Valid() && phase == Publish
      modifies this, box`status
      ensures Valid() && wire == old(wire) && phase == WaitGo && rung == old(rung)
      ensures box.status == if old(x) then ST_NORESP else ST_OK
      ensures frames == old(frames) + [old(Part())[PREAMBLE..]]
      ensures old(Serving()) ==>
                Serving() && Answer(box.cmd, Read(), frames[|frames| - 1], box.status, box.resH, box.resL)
    {
      hide Faithful, OnWire, Answer;
      ghost var part := Part();
      if Serving() {
        FaithfulResult(box.cmd, Read(), part, exch, x, box.resH, box.resL);
        OnWireSnoc(frames, part[PREAMBLE..]);
        assert wire == wire[..base] + part;
      }
      box.status := if x then ST_NORESP else ST_OK;
      x := false;
      frames := frames + [part[PREAMBLE..]];
      base := |wire|;
      phase := WaitGo;
      assert wire[..base] == wire;
      FaithfulIdle(phase, box.cmd, Read(), Part(), exch, box.resH, box.resL);
    }

    /** Everything between two clocks except the end. */
    method Move()
      requires Valid() && !phase.Clock? && !phase.Publish?
      modifies this, box`ctrl, box`status, box`resH, box`resL
      ensures Valid() && wire == old(wire) && frames == old(frames) && rung == old(rung)
      ensures old(Linked()) ==> Linked() && Read() == old(Read())
      ensures old(Linked() && Due()) ==> Due()
      ensures old(Waiting()) ==>
                && Waiting() && frames == old(frames)
                && box.status == old(box.status) && box.resH == old(box.resH) && box.resL == old(box.resL)
      ensures old(phase) != WaitGo ==> Left(phase) < Left(old(phase))
      ensures old(phase) == WaitGo && old(box.ctrl) >= CTRL_GO ==> phase == TakeGo
      ensures phase == WaitGo ==> old(phase) == WaitGo
      ensures phase == if old(phase) == WaitGo && old(box.ctrl) < CTRL_GO then WaitGo
                       else NextPhase(old(phase), old(rd))
    {
      hide Faithful, OnWire, Answer;
      FaithfulMove(phase, box.cmd, Read(), Part(), exch, x, box.resH, box.resL);
      match phase {
        case WaitGo =>
          if box.ctrl >= CTRL_GO {
            phase := TakeGo;
          }
        case TakeGo =>
          box.ctrl := box.ctrl % 128;
          phase := MarkBusy;
        case MarkBusy =>
          box.status := 0;
          exch := 0xFF;
          phase := Clock(0);
        case Load(pos) =>
          exch := Fetch(box.cmd, pos);
          phase := Clock(pos);
        case Branch =>
          rd := box.ctrl % 2 == 1;
          phase := Load(40);
        case StoreH =>
          box.resH := exch;
          phase := Clock(56);
        case StoreL =>
          box.resL := exch;
          phase := Publish;
      }
    }

    /** One register access or one clock of the program; `level` is the line when released. */
    method Step(level: bit)
      requires Valid()
      modifies this, box`ctrl, box`status, box`resH, box`resL
      ensures Valid() && old(wire) <= wire && old(frames) <= frames && rung == old(rung)
      ensures old(Linked()) ==> Linked() && Read() == old(Read())
      ensures old(Linked() && Due()) ==> Due()
      ensures old(Waiting()) ==>
                && Waiting() && frames == old(frames)
                && box.status == old(box.status) && box.resH == old(box.resH) && box.resL == old(box.resL)
      ensures old(phase) != WaitGo ==> Left(phase) < Left(old(phase))
      ensures old(phase) == WaitGo && old(box.ctrl) >= CTRL_GO ==> phase == TakeGo
      ensures if old(phase) == Publish then
                && phase == WaitGo && frames == old(frames) + [old(Part())[PREAMBLE..]]
                && box.status == if old(x) then ST_NORESP else ST_OK
              else frames == old(frames) && (phase == WaitGo ==> old(phase) == WaitGo)
      ensures old(ToGo()) > 1 ==> ToGo() == old(ToGo()) - 1 && frames == old(frames)
      ensures old(ToGo()) == 1 ==> old(phase) == Publish && Waiting()
    {
      hide Faithful, OnWire, Answer, AfterClock;
      if ToGo() > 0 {
        PathUnbranched(phase, rd, Read());
      }
      if phase.Clock? {
        ClockOne(phase.pos, level);
      } else if phase.Publish? {
        PublishStatus();
      } else {
        Move();
      }
    }

    /** Any number of steps between two register accesses of the CPU. */
    method Run(levels: seq<bit>)
      requires Valid()
      modifies this, box`ctrl, box`status, box`resH, box`resL
      ensures Valid() && old(wire) <= wire && old(frames) <= frames && rung == old(rung)
      ensures old(Linked()) ==> Linked() && Read() == old(Read())
      ensures old(Linked() && Due()) ==> Due()
      ensures old(Waiting()) ==>
                && Waiting() && frames == old(frames)
                && box.status == old(box.status) && box.resH == old(box.resH) && box.resL == old(box.resL)
      ensures |levels| < old(ToGo()) ==> ToGo() == old(ToGo()) - |levels| && frames == old(frames)
      ensures old(Linked()) && |levels| >= old(ToGo()) ==> Waiting()
      ensures levels == [] ==> unchanged(this) && unchanged(box)
      ensures |levels| == 1 && old(phase) == Publish ==>
                && phase == WaitGo && box.status == (if old(x) then ST_NORESP else ST_OK)
                && frames == old(frames) + [old(Part())[PREAMBLE..]]
    {
      hide Valid, Linked, Due, Waiting, ToGo;
      PublishedPart(this);
      WaitsAtZero(this);
      for i := 0 to |levels|
        invariant old(Linked()) && i >= old(ToGo()) ==> Waiting()
        invariant i < old(ToGo()) ==> ToGo() == old(ToGo()) - i && frames == old(frames)
        invariant i == 0 ==> unchanged(this) && unchanged(box)
        invariant i == 1 && old(phase) == Publish ==>
                    && phase == WaitGo && box.status == (if old(x) then ST_NORESP else ST_OK)
                    && frames == old(frames) + [old(Part())[PREAMBLE..]]
        invariant Valid() && old(wire) <= wire && old(frames) <= frames && rung == old(rung)
        invariant old(Linked()) ==> Linked() && Read() == old(Read())
        invariant old(Linked() && Due()) ==> Due()
        invariant old(Waiting()) ==>
                    && Waiting() && frames == old(frames)
                    && box.status == old(box.status) && box.resH == old(box.resH) && box.resL == old(box.resL)
      {
        Step(levels[i]);
      }
    }
  }

  lemma LastClock(wire: seq<bit>, base: nat, b: bit)
    requires base <= |wire|
    ensures (wire + [b])[base..] == wire[base..] + [b] && (wire + [b])[..base] == wire[..base]
  {}

  lemma PosAfter(pos: nat, read: bool)
    requires pos < CLOCKS
    ensures var p := AfterClock(pos + 1, read);
            && Pos(p) == pos + 1 && OnPath(p, read) && !p.WaitGo? && !p.TakeGo? && Left(p) < Left(Clock(pos))
  {}

  lemma PublishedPart(b: Blob)
    requires b.Valid()
    ensures b.base <= |b.wire| && (b.phase == Publish ==> |b.Part()| == CLOCKS)
  {}

  lemma WaitsAtZero(b: Blob)
    ensures b.Linked() && b.ToGo() == 0 ==> b.Waiting()
  {
    if b.Linked() {
      BusyToGo(b);
    }
  }

  /** The longest way from a doorbell to its result, in steps of the program. */
  const BUSY_MAX: nat := 73

  /** The steps between clocks that are still ahead at clock `pos`. */
  function Between(pos: nat, read: bool): nat {
    if pos < 32 then 5 else if pos < 40 then 4
    else if pos < 48 then 2 else if pos < 56 then (if read then 2 else 1) else if read then 1 else 0
  }

  function Steps(p: Phase, read: bool): nat {
    match p
    case WaitGo => 72
    case TakeGo => 71
    case MarkBusy => 70
    case Load(pos) => if pos <= CLOCKS then 1 + CLOCKS - pos + Between(pos, read) else 0
    case Branch => 2 + CLOCKS - 40 + Between(40, read)
    case Clock(pos) => if pos <= CLOCKS then CLOCKS - pos + Between(pos, read) else 0
    case StoreH => 1 + CLOCKS - 56 + Between(56, read)
    case StoreL => 1
    case Publish => 0
  }

  lemma {:induction false} PathLength(p: Phase, read: bool)
    requires OnPath(p, read)
    ensures ToPublish(p, read) == Steps(p, read) <= 72
    decreases if p.WaitGo? then 2000 else Left(p)
  {
    if !p.Publish? {
      PathLength(NextPhase(p, read), read);
    }
  }

  lemma ToGoBound(b: Blob)
    ensures b.ToGo() <= BUSY_MAX
  {
    hide Blob.Linked, ToPublish;
    if b.ToGo() > 0 {
      PathLength(b.phase, b.Read());
    }
  }

  lemma BusyToGo(b: Blob)
    requires b.Linked()
    ensures b.ToGo() == 0 <==> b.Waiting()
    ensures b.ToGo() == 1 <==> b.phase == Publish
  {
    PathUnbranched(b.phase, b.rd, b.Read());
  }

  /** Up to the branch the path is the same for a read and a write. */
  lemma PathUnbranched(p: Phase, rd: bool, read: bool)
    requires OnPath(p, rd) && (Branched(p) ==> rd == read)
    ensures OnPath(p, read) && NextPhase(p, rd) == NextPhase(p, read)
  {}

  function Fetch(cmd: seq<byte>, pos: nat): byte
    requires |cmd| == 4
  {
    if pos == 32 then cmd[0] else if pos == 40 then cmd[1] else if pos == 48 then cmd[2] else cmd[3]
  }

  lemma FaithfulClock(pos: nat, cmd: seq<byte>, read: bool, part: seq<bit>, exch: byte, x: bool, resH: byte,
                      resL: byte, level: bit)
    requires pos < CLOCKS && OnPath(Clock(pos), read)
    requires Faithful(Clock(pos), cmd, read, part, exch, x, resH, resL)
    ensures Faithful(AfterClock(pos + 1, read), cmd, read, part + [LineBit(exch, pos, read, level)],
                     if read && pos >= 48 then SetBit(exch, pos % 8, level) else exch,
                     x || (read && pos == 47 && level == 1), resH, resL)
  {
    ClockKeeps(pos, cmd, read, part, exch, x, resH, resL, level);
  }

  /** Up to the branch a read is clocked like a write. */
  lemma BranchedClock(pos: nat, rd: bool, read: bool, exch: byte, level: bit)
    requires Branched(Clock(pos)) ==> rd == read
    ensures LineBit(exch, pos, rd, level) == LineBit(exch, pos, read, level)
    ensures AfterClock(pos + 1, rd) == AfterClock(pos + 1, read)
    ensures Branched(AfterClock(pos + 1, read)) ==> rd == read
    ensures pos >= 47 ==> rd == read
  {
    hide ToBits;
  }

  lemma FaithfulIdle(p: Phase, cmd: seq<byte>, read: bool, part: seq<bit>, exch: byte, resH: byte, resL: byte)
    requires |cmd| == 4 && part == [] && (p.WaitGo? || p.TakeGo? || p.MarkBusy?)
    ensures Faithful(p, cmd, read, part, exch, false, resH, resL)
  {
    hide Image;
  }

  /** The steps between clocks keep line, register and samples in step. */
  lemma FaithfulMove(p: Phase, cmd: seq<byte>, read: bool, part: seq<bit>, exch: byte, x: bool, resH: byte, resL: byte)
    requires |cmd| == 4 && !p.Clock? && !p.Publish? && |part| == Pos(p)
    ensures Faithful(p, cmd, read, part, exch, x, resH, resL) ==>
              match p
              case WaitGo => Faithful(TakeGo, cmd, read, part, exch, x, resH, resL)
              case TakeGo => Faithful(MarkBusy, cmd, read, part, exch, x, resH, resL)
              case MarkBusy => Faithful(Clock(0), cmd, read, part, 0xFF, x, resH, resL)
              case Load(pos) =>
                OnPath(p, read) ==> Faithful(Clock(pos), cmd, read, part, Fetch(cmd, pos), x, resH, resL)
              case Branch => Faithful(Load(40), cmd, read, part, exch, x, resH, resL)
              case StoreH => read ==> Faithful(Clock(56), cmd, read, part, exch, x, exch, resL)
              case StoreL => read ==> Faithful(Publish, cmd, read, part, exch, x, resH, exch)
              case _ => true
  {
    hide Image, ToBits, Val;
    if p.StoreH? {
      Stored(exch, part, 48);
      assert part[48..56] == part[48..];
    } else if p.StoreL? {
      Stored(exch, part, 56);
      assert part[56..64] == part[56..];
    }
  }

  lemma Stored(exch: byte, part: seq<bit>, from: nat)
    requires from <= |part|
    ensures ToBits(exch, 8) == part[from..] ==> exch == Val(part[from..])
  {
    SmallPowers();
    ValOfBits(exch, 8);
  }

  lemma FaithfulResult(cmd: seq<byte>, read: bool, part: seq<bit>, exch: byte, x: bool, resH: byte, resL: byte)
    requires Faithful(Publish, cmd, read, part, exch, x, resH, resL)
    ensures |part| == CLOCKS && part == Ones(PREAMBLE) + part[PREAMBLE..]
    ensures Answer(cmd, read, part[PREAMBLE..], if x then ST_NORESP else ST_OK, resH, resL)
  {
    hide ToBits, Val;
    var last := part[PREAMBLE..];
    assert forall i :: 0 <= i < PREAMBLE ==> part[i] == Image(cmd)[i] == 1;
    assert part[48..56] == last[16..24] && part[56..64] == last[24..32];
    assert last[15] == part[47];
  }
}
