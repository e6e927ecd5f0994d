/** The USB command bridge of the MDIO master (src/mdio/mdio_bridge.cpp): one command at a
    time, and the 32 reads of a print. */
module MdioBridge {
  import opened Bytes
  import opened Cobs
  import opened MdioWire
  import opened MdioMaster
  import opened MdioText
  import opened MdioCommand

  /** What a reply line reports. */
  datatype Report = Got(value: uint16) | Written | NoAnswer | TimedOut | BusyNow

  datatype Reply = Reply(verb: Verb, phy: nat, mmd: Option<nat>, reg: nat, report: Report) | ErrInvalid

  const PRINT_REGS: nat := 32

  /** The request startRead or startWrite submits. */
  function RequestOf(c: Command): Request
    requires InRange(c)
  {
    if c.verb == VWrite then
      Request(if c.mmd.Some? then OpWriteMmd else OpWrite, c.phy, if c.mmd.Some? then c.mmd.value else 0, c.reg, c.val)
    else
      Request(if c.mmd.Some? then OpReadMmd else OpRead, c.phy, if c.mmd.Some? then c.mmd.value else 0, c.reg, 0)
  }

  /** emitActiveResponse. */
  function ReplyTo(c: Command, status: Status, value: uint16): Reply {
    Reply(c.verb, c.phy, c.mmd, c.reg,
          if status == Done then (if c.verb == VRead then Got(value) else Written)
          else if status == NoResp then NoAnswer
          else if status == Timeout then TimedOut
          else BusyNow)
  }

  /** The request is the one that the command names. */
  predicate Asks(q: Request, c: Command) {
    && q.phy == c.phy && q.reg == c.reg
    && match q.op
       case OpRead => c.verb != VWrite && c.mmd == None
       case OpWrite => c.verb == VWrite && c.mmd == None && q.val == c.val
       case OpReadMmd => c.verb != VWrite && c.mmd == Some(q.mmd)
       case OpWriteMmd => c.verb == VWrite && c.mmd == Some(q.mmd) && q.val == c.val
  }

  /** The reply names the command and reports how the request made for it has ended. */
  predicate Answers(r: Reply, c: Command, o: Outcome) {
    && Asks(o.req, c)
    && r.Reply? && r.verb == c.verb && r.phy == c.phy && r.mmd == c.mmd && r.reg == c.reg
    && (r.report.Got? <==> c.verb == VRead && o.status == Done) && (r.report.Got? ==> r.report.value == o.value)
    && (r.report.Written? <==> c.verb == VWrite && o.status == Done)
    && (r.report.NoAnswer? <==> o.status == NoResp)
    && (r.report.TimedOut? <==> o.status == Timeout)
  }

  lemma ReplyAnswers(c: Command, active: bool, req: Request, done: seq<Outcome>, status: Status, value: uint16)
    requires Waiting(c, active, req, done, status, value)
    ensures active ==> Asks(req, c)
    ensures !active ==> done != [] && Answers(ReplyTo(c, status, value), c, done[|done| - 1])
  {}

  function BusyReply(c: Command): Reply { Reply(c.verb, c.phy, c.mmd, c.reg, BusyNow) }

  function PrintRead(phy: nat, reg: nat): Command { Command(VRead, phy, None, reg, 0) }

  /** The first n registers of a print: the master's finished requests from `base` on read exactly
      them, in order, and each reply reports its own request. */
  ghost predicate Printed(printed: seq<Reply>, done: seq<Outcome>, base: nat, phy: nat, n: nat) {
    && phy <= 31 && |printed| == n <= PRINT_REGS && base + n <= |done|
    && forall i :: 0 <= i < n ==>
         && done[base + i].req == RequestOf(PrintRead(phy, i))
         && printed[i] == ReplyTo(PrintRead(phy, i), done[base + i].status, done[base + i].value)
  }

  lemma PrintedSnoc(printed: seq<Reply>, done: seq<Outcome>, base: nat, phy: nat, n: nat, r: Reply)
    requires Printed(printed, done, base, phy, n) && n < PRINT_REGS && base + n + 1 == |done|
    requires done[base + n].req == RequestOf(PrintRead(phy, n))
    requires r == ReplyTo(PrintRead(phy, n), done[base + n].status, done[base + n].value)
    ensures Printed(printed + [r], done, base, phy, n + 1)
  {}

  lemma PrintedGrows(printed: seq<Reply>, done: seq<Outcome>, done': seq<Outcome>, base: nat, phy: nat, n: nat)
    requires Printed(printed, done, base, phy, n) && |done'| == |done| + 1 && done'[..|done|] == done
    ensures Printed(printed, done', base, phy, n)
  {
    hide ReplyTo, RequestOf;
    forall i | 0 <= i < n
      ensures done'[base + i].req == RequestOf(PrintRead(phy, i))
      ensures printed[i] == ReplyTo(PrintRead(phy, i), done'[base + i].status, done'[base + i].value)
    {
      assert done'[..|done|][base + i] == done[base + i];
    }
  }

  /** What the bridge waits for is what the master works on, or its last finished request. */
  ghost predicate Waiting(c: Command, active: bool, req: Request, done: seq<Outcome>, status: Status, value: uint16) {
    && InRange(c) && c.verb != VPrint
    && if active then status == Pending && req == RequestOf(c)
       else
         && done != [] && status != Pending
         && done[|done| - 1].req == RequestOf(c) && done[|done| - 1].status == status
         && done[|done| - 1].value == value
  }

  /** How the print stands. */
  ghost predicate PrintBooks(printActive: bool, printed: seq<Reply>, done: seq<Outcome>, base: nat, phy: nat,
                             next: nat, pending: bool, current: Command, masterActive: bool)
  {
    printActive ==>
      && next <= PRINT_REGS && (pending ==> next > 0 && current == PrintRead(phy, next - 1))
      && Printed(printed, done, base, phy, if pending then next - 1 else next)
      && |printed| == (if pending then next - 1 else next)
      && |done| == base + |printed| + (if pending && !masterActive then 1 else 0)
  }

  class UsbBridge {
    const mdio: Master
    const resp: Response
    var pending: bool
    var current: Command                   // activeOp_, activePhy_, activeMmd_, activeReg_
    var printActive: bool
    var printAllOk: bool
    var printPhy: nat
    var printNextReg: nat
    ghost var printed: seq<Reply>          // replies of the latest print
    ghost var base: nat                    // finished requests when it was accepted

    ghost predicate Valid()
      reads this, resp, mdio, mdio.blob, mdio.box, mdio.resp
    {
      && mdio.Valid()
      && (if pending then
            && (mdio.active ==> mdio.resp == resp)
            && Waiting(current, mdio.active, mdio.req, mdio.done, resp.status, resp.value)
          else !mdio.active)
      && PrintBooks(printActive, printed, mdio.done, base, printPhy, printNextReg, pending, current, mdio.active)
    }

    /** How much is left of the print and of the request under way. */
    ghost function Measure(): nat
      reads this, mdio
    {
      (if printActive && printNextReg <= PRINT_REGS then 8 * (PRINT_REGS + 1 - printNextReg) else 0) +
      (if pending then 1 + mdio.Measure() else 0)
    }

    constructor (mdio: Master)
      requires mdio.Valid() && !mdio.active
      ensures Valid() && this.mdio == mdio && !pending && !printActive && fresh(resp)
    {
      this.mdio := mdio;
      resp := new Response();
      pending, current := false, Command(VRead, 0, None, 0, 0);
      printActive, printAllOk, printPhy, printNextReg, printed, base := false, true, 0, 0, [], 0;
    }

    /** startRead and startWrite: hand the command to the master. */
    method Start(c: Command) returns (ok: bool)
      requires mdio.Valid() && InRange(c) && c.verb != VPrint
      modifies this`pending, this`current, mdio, resp
      ensures mdio.Valid() && ok == !old(mdio.active) && mdio.done == old(mdio.done)
      ensures ok ==>
                && pending && current == c && mdio.active && mdio.resp == resp
                && Waiting(c, mdio.active, mdio.req, mdio.done, resp.status, resp.value)
                && (c.verb == VRead && c.mmd.None? ==> mdio.Measure() == 2)
      ensures !ok ==> pending == old(pending) && current == old(current) && unchanged(mdio) && unchanged(resp)
    {
      hide Master.Valid;
      var mmd := if c.mmd.Some? then c.mmd.value else 0;
      var r;
      if c.verb == VRead {
        r := mdio.Submit(if c.mmd.Some? then OpReadMmd else OpRead, c.phy, mmd, c.reg, 0, resp);
      } else {
        r := mdio.Submit(if c.mmd.Some? then OpWriteMmd else OpWrite, c.phy, mmd, c.reg, c.val, resp);
      }
      ok := r == Ok;
      if ok {
        pending := true;
        current := c;
      }
    }

    /** The main loop's poll of the master. */
    method MasterTick(nowMs: uint32, levels: nat -> seq<bit>)
      requires Valid()
      modifies mdio, mdio.box, mdio.blob, mdio.resp
      ensures Valid() && pending == old(pending) && printed == old(printed)
      ensures |old(mdio.done)| <= |mdio.done| && mdio.done[..|old(mdio.done)|] == old(mdio.done)
      ensures !old(pending) ==> mdio.done == old(mdio.done)
      ensures |mdio.done| == |old(mdio.done)| + if old(mdio.active) && !mdio.active then 1 else 0
      ensures mdio.active ==> old(mdio.active)
      ensures Measure() <= old(Measure())
      ensures Measure() < old(Measure()) || Young(mdio, old(mdio.active), old(mdio.startedMs), nowMs)
    {
      hide Master.Valid, Printed, RequestOf;
      ghost var done0 := mdio.done;
      ActivePends(mdio);
      ghost var st := mdio.Tick(nowMs, levels);
      ActivePends(mdio);
      if old(mdio.active) && !mdio.active && printActive {
        PrintedGrows(printed, done0, mdio.done, base, printPhy, |printed|);
      }
    }

    /** Report a finished request, and go on with a print. */
    method PollResponse() returns (replies: seq<Reply>)
      requires Valid()
      modifies this, mdio, resp
      ensures Valid() && mdio.done == old(mdio.done)
      ensures |replies| <= 1 && replies == if old(pending && !mdio.active)
                then [ReplyTo(old(current), old(resp.status), old(resp.value))] else []
      ensures replies != [] ==> mdio.done != [] && Answers(replies[0], old(current), mdio.done[|mdio.done| - 1])
      ensures old(printActive) ==> printed == old(printed) + replies && base == old(base) && printPhy == old(printPhy)
      ensures old(printActive) && !printActive ==> !pending && Printed(printed, mdio.done, base, printPhy, PRINT_REGS)
      ensures printActive ==> old(printActive) && pending
      ensures (printActive || pending) ==
                old((pending && mdio.active) || (printActive && printNextReg < PRINT_REGS))
      ensures if old((pending && mdio.active) || (!pending && !printActive))
                then unchanged(this) && unchanged(mdio) && unchanged(resp) else Measure() < old(Measure())
    {
      hide Master.Valid, Printed, RequestOf, ReplyTo, Answers;
      replies := Collect();
      if !printActive || pending {
        return;
      }
      if printNextReg < PRINT_REGS {
        PrintInRange(printPhy, printNextReg, printed, mdio.done, base);
        var ok := Start(PrintRead(printPhy, printNextReg));
        if ok {
          printNextReg := printNextReg + 1;
        }
        return;
      }
      printActive := false;
    }

    method Collect() returns (replies: seq<Reply>)
      requires Valid()
      modifies this`pending, this`printAllOk, this`printed
      ensures Valid() && pending == (old(pending) && mdio.active)
      ensures replies == if old(pending && !mdio.active) then [ReplyTo(current, resp.status, resp.value)] else []
      ensures replies != [] ==> mdio.done != [] && Answers(replies[0], current, mdio.done[|mdio.done| - 1])
      ensures printed == if printActive then old(printed) + replies else old(printed)
      ensures !old(pending && !mdio.active) ==> unchanged(this)
    {
      hide Master.Valid, Printed, RequestOf, ReplyTo, Answers;
      replies := [];
      if pending && resp.status != Pending {
        var ok := resp.status == Done;
        replies := [ReplyTo(current, resp.status, resp.value)];
        ReplyAnswers(current, mdio.active, mdio.req, mdio.done, resp.status, resp.value);
        if printActive {
          PrintedSnoc(printed, mdio.done, base, printPhy, printNextReg - 1, replies[0]);
          printed := printed + replies;
          if !ok {
            printAllOk := false;
          }
        }
        pending := false;
      }
      assert printed + [] == printed;
    }

    /** A parsed line. While a request or a print is under way every other command is refused, and
        nothing of it reaches the master. */
    method HandleCommand(c: Command) returns (replies: seq<Reply>)
      requires Valid() && InRange(c)
      modifies this, mdio, resp
      ensures Valid() && mdio.done == old(mdio.done)
      ensures old(printActive || pending) ==>
                && unchanged(this) && unchanged(mdio) && unchanged(resp)
                && replies == if c.verb == VPrint then BusyPrint(c.phy, 0) else [BusyReply(c)]
      ensures !old(printActive || pending) ==> replies == [] && pending && mdio.active
      ensures !old(printActive || pending) && c.verb == VPrint ==>
                printActive && printPhy == c.phy && printed == [] && base == |mdio.done|
      ensures !old(printActive || pending) && c.verb != VPrint ==> !printActive && current == c
    {
      hide Master.Valid, Printed, RequestOf, ReplyTo, BusyPrint;
      replies := [];
      if c.verb != VPrint {
        var ok := false;
        if !printActive && !pending {
          ok := Start(c);
        }
        if !ok {
          replies := [BusyReply(c)];
        }
        return;
      }
      if printActive || pending {
        return BusyPrint(c.phy, 0);
      }
      NothingPrinted(mdio.done, c.phy);
      printActive, printAllOk, printPhy, printNextReg := true, true, c.phy, 0;
      printed, base := [], |mdio.done|;
      var ok := Start(PrintRead(c.phy, 0));   // the master is free whenever nothing is pending
      if ok {
        printNextReg := 1;
      }
    }

    method HandleLine(line: seq<byte>) returns (replies: seq<Reply>)
      requires Valid()
      modifies this, mdio, resp
      ensures Valid() && mdio.done == old(mdio.done)
      ensures Parsed(line).None? ==>
                replies == [ErrInvalid] && unchanged(this) && unchanged(mdio) && unchanged(resp)
      ensures old(printActive || pending) ==>
                unchanged(this) && unchanged(mdio) && unchanged(resp)
      ensures old(printActive || pending) && Parsed(line).Some? ==>
                var c := Parsed(line).value;
                replies == if c.verb == VPrint then BusyPrint(c.phy, 0) else [BusyReply(c)]
      ensures !old(printActive || pending) && Parsed(line).Some? ==>
                replies == [] && At(Parsed(line).value)
    {
      hide Master.Valid, Printed, RequestOf, ReplyTo, BusyPrint, Parsed, PrintBooks;
      var c := Parse(line);
      if c.None? {
        return [ErrInvalid];
      }
      AcceptedInRange(line, c.value);
      replies := HandleCommand(c.value);
    }

    /** The bridge works on this command. */
    ghost predicate At(c: Command)
      reads this, mdio
    {
      && pending && mdio.active
      && if c.verb == VPrint then printActive && printPhy == c.phy && printed == [] && base == |mdio.done|
         else !printActive && current == c
    }

    /** The command half of tick(): the lines of the bytes at hand, each answered as it ends. An idle
        bridge takes up the first command among them; every other line is answered at once. */
    method PollCommand(reader: LineReader, bytes: seq<byte>)
      returns (replies: seq<Reply>, ghost events: seq<LineEvent>)
      requires Valid() && reader.Valid()
      modifies this, mdio, resp, reader, reader.line
      ensures Valid() && reader.Valid() && mdio.done == old(mdio.done)
      ensures events == NonSilent(LineEvents(old(reader.cur), bytes)) && reader.cur == LineRest(old(reader.cur), bytes)
      ensures replies == RepliesTo(old(printActive || pending), events)
      ensures old(printActive || pending) || FirstCommand(events).None? ==>
                unchanged(this) && unchanged(mdio) && unchanged(resp)
      ensures !old(printActive || pending) && FirstCommand(events).Some? ==> At(FirstCommand(events).value)
    {
      hide UsbBridge.Valid, UsbBridge.At, LineReader.Valid, LineEvents, LineRest, EventOf, NonSilent, Parsed,
           RepliesTo, FirstCommand;
      replies, events := [], [];
      ghost var all := LineEvents(reader.cur, bytes);
      ghost var busy := printActive || pending;
      assert bytes[0..] == bytes && events + NonSilent(all) == NonSilent(all);
      NoReplies(busy);
      for i := 0 to |bytes|
        invariant Valid() && reader.Valid() && mdio.done == old(mdio.done)
        invariant LineRest(reader.cur, bytes[i..]) == LineRest(old(reader.cur), bytes)
        invariant events + NonSilent(LineEvents(reader.cur, bytes[i..])) == NonSilent(all)
        invariant replies == RepliesTo(busy, events) && busy == old(printActive || pending)
        invariant busy || FirstCommand(events).None? ==> unchanged(this) && unchanged(mdio) && unchanged(resp)
        invariant !busy && FirstCommand(events).Some? ==> At(FirstCommand(events).value)
      {
        AtBusy(this);
        ghost var taken := busy || FirstCommand(events).Some?;
        assert taken == (printActive || pending);
        LineStep(reader.cur, bytes, i);
        var e := reader.PushByte(bytes[i]);
        var more := AnswerLine(e);
        RepliesSnoc(busy, events, e);
        assert more == LineReplies(taken, e);
        if e != Silent {
          events := events + [e];
        } else {
          assert replies + [] == replies;
        }
        replies := replies + more;
      }
      assert bytes[|bytes|..] == [];
      LineEnd(reader.cur);
    }

    method AnswerLine(e: LineEvent) returns (replies: seq<Reply>)
      requires Valid()
      modifies this, mdio, resp
      ensures Valid() && mdio.done == old(mdio.done)
      ensures replies == LineReplies(old(printActive || pending), e)
      ensures old(printActive || pending) || CommandIn(e).None? ==>
                unchanged(this) && unchanged(mdio) && unchanged(resp)
      ensures !old(printActive || pending) && CommandIn(e).Some? ==> At(CommandIn(e).value)
    {
      hide UsbBridge.Valid, UsbBridge.At, Parsed, BusyPrint;
      match e {
        case Ready(text) => replies := HandleLine(text);
        case Invalid => replies := [ErrInvalid];
        case Silent => replies := [];
      }
    }

    /** One call of tick(). `ended` says that a print came to its end, with these replies. */
    method Tick(sessionStarted: bool, reader: LineReader, bytes: seq<byte>)
      returns (replies: seq<Reply>, ghost events: seq<LineEvent>, ended: bool)
      requires Valid() && reader.Valid()
      modifies this, mdio, resp, reader, reader.line
      ensures Valid() && reader.Valid() && mdio.done == old(mdio.done)
      ensures var cur := if sessionStarted then [] else old(reader.cur);
              events == NonSilent(LineEvents(cur, bytes)) && reader.cur == LineRest(cur, bytes)
      ensures old(printActive) ==> ended == !old((pending && mdio.active) || (printActive && printNextReg < PRINT_REGS))
      ensures !old(printActive || pending) ==> !ended && (FirstCommand(events).Some? ==> At(FirstCommand(events).value))
      ensures old(pending && mdio.active) ==> unchanged(this) && unchanged(mdio)
      ensures var mine := if old(pending && !mdio.active)
                          then [ReplyTo(old(current), old(resp.status), old(resp.value))] else [];
              var busy := old((pending && mdio.active) || (printActive && printNextReg < PRINT_REGS));
              && replies == mine + RepliesTo(busy, events)
              && (ended ==> old(printActive) &&
                            Printed(old(printed) + mine, mdio.done, old(base), old(printPhy), PRINT_REGS))
      ensures old(printActive) && !ended ==>
                printActive && base == old(base) && printPhy == old(printPhy) &&
                printed == old(printed) + (if old(pending && !mdio.active)
                                           then [ReplyTo(old(current), old(resp.status), old(resp.value))] else []) &&
                (if old(pending && mdio.active) then unchanged(this) && unchanged(mdio) else Measure() < old(Measure()))
    {
      hide UsbBridge.Valid, UsbBridge.At, UsbBridge.Measure, LineReader.Valid, Parsed, RepliesTo, FirstCommand, Printed,
           LineEvents, LineRest, NonSilent, ReplyTo;
      if sessionStarted {
        reader.Reset();
      }
      var was := printActive;
      var mine := PollResponse();
      ended := was && !printActive;
      var more;
      more, events := PollCommand(reader, bytes);
      replies := mine + more;
    }

    /** One turn of the main loop; `mine` is the reply of a finished request. A print either ends, or gets
        ahead, or its read is under way for at most 5 ms. */
    method MainLoop(nowMs: uint32, levels: nat -> seq<bit>, sessionStarted: bool, reader: LineReader, bytes: seq<byte>)
      returns (replies: seq<Reply>, mine: seq<Reply>, ended: bool)
      requires Valid() && reader.Valid()
      modifies this, mdio, mdio.box, mdio.blob, mdio.resp, resp, reader, reader.line
      ensures Valid() && reader.Valid() && |mine| <= |replies| && |mine| <= 1 && replies[..|mine|] == mine
      ensures var cur := if sessionStarted then [] else old(reader.cur);
              var lines := NonSilent(LineEvents(cur, bytes));
              && reader.cur == LineRest(cur, bytes)
              && (old(printActive) ==> replies == mine + RepliesTo(!ended, lines))
              && (!old(printActive || pending) ==>
                    && mine == [] && !ended && replies == RepliesTo(false, lines) && mdio.done == old(mdio.done)
                    && (FirstCommand(lines).Some? ==> At(FirstCommand(lines).value)))
      ensures old(pending && !printActive) ==>
                && replies == mine + RepliesTo(mine == [], NonSilent(LineEvents(if sessionStarted then [] else old(reader.cur), bytes)))
                && if mine == [] then
                     && pending && !printActive && current == old(current) && mdio.done == old(mdio.done)
                     && old(mdio.active) && mdio.active && Measure() <= old(Measure())
                     && (Measure() < old(Measure()) || Young(mdio, true, old(mdio.startedMs), nowMs))
                   else
                     && |mdio.done| == |old(mdio.done)| + (if old(mdio.active) then 1 else 0) > 0
                     && Answers(mine[0], old(current), mdio.done[|mdio.done| - 1])
      ensures ended ==>
                && old(printActive)
                && Printed(old(printed) + mine, mdio.done, old(base), old(printPhy), PRINT_REGS)
      ensures old(printActive) && !ended ==>
                && printActive && base == old(base) && printPhy == old(printPhy) && printed == old(printed) + mine
                && Measure() <= old(Measure())
                && (Measure() < old(Measure()) || (old(mdio.active) && Young(mdio, true, old(mdio.startedMs), nowMs)))
    {
      hide UsbBridge.Valid, UsbBridge.At, UsbBridge.Measure, LineReader.Valid, RepliesTo, Printed, ReplyTo, LineEvents,
           LineRest, NonSilent, FirstCommand, Answers;
      MasterTick(nowMs, levels);
      ghost var events;
      mine := if pending && !mdio.active then [ReplyTo(current, resp.status, resp.value)] else [];
      WaitsRight(this);
      replies, events, ended := Tick(sessionStarted, reader, bytes);
    }
  }

  /** The request, if any, was under way before, and its transaction is at most 5 ms old. */
  ghost predicate Young(m: Master, active: bool, startedMs: uint32, nowMs: uint32)
    reads m
  {
    m.active == active && m.startedMs == startedMs && (active ==> (nowMs - startedMs) % WORD32 <= TIMEOUT_MS)
  }

  // ---- a print comes to its end ----------------------------------------------------------------------

  /** The clock of the main loop: it never goes back or jumps, and moves on within `stall` turns. */
  ghost predicate Runs(ms: nat -> nat, stall: nat) {
    && (forall i: nat :: ms(i) <= ms(i + 1) <= ms(i) + 1000)
    && forall i: nat :: ms(i) < ms(i + stall)
  }

  lemma {:induction false} RunsOn(ms: nat -> nat, stall: nat, i: nat, j: nat)
    requires Runs(ms, stall) && i <= j
    ensures ms(i) <= ms(j)
    decreases j - i
  {
    if i < j {
      RunsOn(ms, stall, i, j - 1);
      assert ms(j - 1) <= ms(j - 1 + 1);
    }
  }

  lemma {:induction false} RunsPast(ms: nat -> nat, stall: nat, i: nat, n: nat)
    requires Runs(ms, stall)
    ensures ms(i) + n <= ms(i + n * stall)
    decreases n
  {
    if n > 0 {
      RunsPast(ms, stall, i, n - 1);
      assert ms(i + (n - 1) * stall) < ms(i + (n - 1) * stall + stall);
      assert (n - 1) * stall + stall == n * stall;
    }
  }

  /** An age of at most 5 ms does not last through a clock that has moved on by more. */
  lemma Aged(t: nat, d: nat, started: uint32)
    requires (t % WORD32 - started) % WORD32 <= TIMEOUT_MS && d <= TIMEOUT_MS + 1000
    requires ((t + d) % WORD32 - started) % WORD32 <= TIMEOUT_MS
    ensures d <= TIMEOUT_MS
  {}

  /** A read that is seen under way at turn `since`, and still at turn i. */
  lemma StillYoung(ms: nat -> nat, stall: nat, since: nat, i: nat, started: uint32)
    requires Runs(ms, stall) && since < i && ms(i - 1) <= ms(since) + TIMEOUT_MS
    requires (ms(since) % WORD32 - started) % WORD32 <= TIMEOUT_MS && (ms(i) % WORD32 - started) % WORD32 <= TIMEOUT_MS
    ensures ms(i) <= ms(since) + TIMEOUT_MS && i < since + 6 * stall
  {
    RunsOn(ms, stall, since, i);
    assert ms(i - 1) <= ms(i - 1 + 1) <= ms(i - 1) + 1000;
    Aged(ms(since), ms(i) - ms(since), started);
    if i >= since + 6 * stall {
      RunsPast(ms, stall, since, 6);
      RunsOn(ms, stall, since + 6 * stall, i);
    }
  }

  lemma RespOf(b: UsbBridge)
    requires b.Valid()
    ensures b.mdio.resp == null || b.mdio.resp == b.resp
  {
    hide PrintBooks, Waiting;
    ActivePends(b.mdio);
  }

  /** What one turn of the main loop meets. */
  datatype Turn = Turn(levels: nat -> seq<bit>, sessionStarted: bool, bytes: seq<byte>)

  /** The half line with which turn i begins, if turn `from` began with `cur`. */
  function CurAt(turns: nat -> Turn, cur: seq<byte>, from: nat, i: nat): seq<byte>
    requires from <= i
    decreases i
  {
    if i == from then cur
    else LineRest(if turns(i - 1).sessionStarted then [] else CurAt(turns, cur, from, i - 1), turns(i - 1).bytes)
  }

  /** The line events of turn i. */
  function LinesAt(turns: nat -> Turn, cur: seq<byte>, from: nat, i: nat): seq<LineEvent>
    requires from <= i
  {
    NonSilent(LineEvents(if turns(i).sessionStarted then [] else CurAt(turns, cur, from, i), turns(i).bytes))
  }

  lemma {:induction false} CurLater(turns: nat -> Turn, cur: seq<byte>, from: nat, i: nat)
    requires from < i
    ensures CurAt(turns, cur, from, i) == CurAt(turns, CurAt(turns, cur, from, from + 1), from + 1, i)
    decreases i
  {
    if from + 1 < i {
      CurLater(turns, cur, from, i - 1);
    }
  }

  function Flat(parts: seq<seq<Reply>>): seq<Reply>
    decreases |parts|
  {
    if parts == [] then [] else Flat(parts[..|parts| - 1]) + parts[|parts| - 1]
  }

  lemma FlatSnoc(parts: seq<seq<Reply>>, part: seq<Reply>)
    ensures Flat(parts + [part]) == Flat(parts) + part
  {
    assert (parts + [part])[..|parts|] == parts;
  }

  lemma {:induction false} FlatCons(parts: seq<seq<Reply>>)
    ensures Flat([[]] + parts) == Flat(parts)
    decreases |parts|
  {
    if parts == [] {
      FlatSnoc([], []);
      assert [[]] + parts == [] + [[]];
    } else {
      var init, part := parts[..|parts| - 1], parts[|parts| - 1];
      FlatCons(init);
      FlatSnoc([[]] + init, part);
      assert [[]] + parts == [[]] + init + [part];
    }
  }

  /** The replies of a print: one for each register in order, each from its own read, and no other request
      between these. */
  ghost predicate FullPrint(replies: seq<Reply>, done: seq<Outcome>, base: nat, phy: nat) {
    && |replies| == 32 && base + 32 <= |done|
    && forall i :: 0 <= i < 32 ==> RegisterReply(replies[i], done[base + i], phy, i)
  }

  /** Every accepted print ends, whatever the program, the PHYs and the host do meanwhile. Of each turn, `own`
      are the print's replies; they come first, and then the lines of the turn are answered, as busy until the
      print has ended. Together with those sent before they are the whole report. */
  method AwaitPrint(b: UsbBridge, reader: LineReader, ms: nat -> nat, ghost stall: nat, turns: nat -> Turn, from: nat)
    returns (out: seq<seq<Reply>>, ghost own: seq<seq<Reply>>)
    requires b.Valid() && reader.Valid() && b.printActive && Runs(ms, stall)
    modifies b, b.mdio, b.mdio.box, b.mdio.blob, b.mdio.resp, b.resp, reader, reader.line
    ensures b.Valid() && reader.Valid() && out != []
    ensures Answered(out, own, turns, old(reader.cur), from, true)
    ensures FullPrint(old(b.printed) + Flat(own), b.mdio.done, old(b.base), old(b.printPhy))
  {
    hide UsbBridge.Valid, UsbBridge.Measure, UsbBridge.At, LineReader.Valid, Printed, Runs, FullPrint, Flat, LinesAt,
         RepliesTo, LineEvents, LineRest, NonSilent, FirstCommand, Answered, CurAt;
    out, own := [], [];
    NoneAnswered(turns, reader.cur, from);
    ghost var cur := reader.cur;
    RespOf(b);
    NoneFlat();
    assert b.printed + [] == b.printed;
    var i := from;
    ghost var since: nat := 0;                           // the first turn at which the read under way was seen
    ghost var started, seen := b.mdio.startedMs, false;
    while true
      invariant b.Valid() && reader.Valid() && b.printActive && since <= i && from <= i
      invariant b.base == old(b.base) && b.printPhy == old(b.printPhy) && b.printed == old(b.printed) + Flat(own)
      invariant |out| == i - from && reader.cur == CurAt(turns, cur, from, i)
      invariant Answered(out, own, turns, cur, from, false)
      invariant b.mdio.resp == b.resp || b.mdio.resp == null
      invariant seen ==>
                  && b.mdio.startedMs == started && since < i && ms(i - 1) <= ms(since) + TIMEOUT_MS
                  && (ms(since) % WORD32 - started) % WORD32 <= TIMEOUT_MS
      decreases b.Measure(), if seen then since + 6 * stall + 1 - i else i + 6 * stall + 2
    {
      ghost var measure, before := b.Measure(), b.printed;
      var t := turns(i);
      LinesIs(turns, cur, from, i);
      var replies, ended;
      ghost var mine;
      replies, mine, ended := b.MainLoop(ms(i) % WORD32, t.levels, t.sessionStarted, reader, t.bytes);
      FlatSnoc(own, mine);
      AnsweredSnoc(out, own, turns, cur, from, replies, mine, ended);
      out, own := out + [replies], own + [mine];
      assert old(b.printed) + Flat(own) == before + mine;
      if ended {
        PrintIsComplete(old(b.printed) + Flat(own), b.mdio.done, old(b.base), old(b.printPhy));
        return;
      }
      if b.Measure() < measure {
        seen := false;
      } else if !seen {
        seen, since, started := true, i, b.mdio.startedMs;
      } else {
        StillYoung(ms, stall, since, i, started);
      }
      RespOf(b);
      i := i + 1;
    }
  }

  /** Of each turn the print's own replies come first, and then those to its lines, answered as busy; if the
      print has ended, its last turn has found the bridge free again. */
  ghost predicate Answered(out: seq<seq<Reply>>, own: seq<seq<Reply>>, turns: nat -> Turn, cur: seq<byte>, from: nat,
                           ended: bool)
  {
    && |out| == |own|
    && forall i :: 0 <= i < |out| ==>
         out[i] == own[i] + RepliesTo(!ended || i < |out| - 1, LinesAt(turns, cur, from, from + i))
  }

  lemma NoneAnswered(turns: nat -> Turn, cur: seq<byte>, from: nat)
    ensures Answered([], [], turns, cur, from, false) && CurAt(turns, cur, from, from) == cur
  {}

  lemma AnsweredSnoc(out: seq<seq<Reply>>, own: seq<seq<Reply>>, turns: nat -> Turn, cur: seq<byte>, from: nat,
                     replies: seq<Reply>, mine: seq<Reply>, ended: bool)
    requires Answered(out, own, turns, cur, from, false)
    requires replies == mine + RepliesTo(!ended, LinesAt(turns, cur, from, from + |out|))
    ensures Answered(out + [replies], own + [mine], turns, cur, from, ended)
  {
    hide RepliesTo, LinesAt;
  }

  lemma NoneFlat()
    ensures Flat([]) == []
  {}

  lemma LinesIs(turns: nat -> Turn, cur: seq<byte>, from: nat, i: nat)
    requires from <= i
    ensures var c, t := CurAt(turns, cur, from, i), turns(i);
            var start := if t.sessionStarted then [] else c;
            && LinesAt(turns, cur, from, i) == NonSilent(LineEvents(start, t.bytes))
            && CurAt(turns, cur, from, i + 1) == LineRest(start, t.bytes)
  {
    hide LineEvents, LineRest, NonSilent;
  }

  /** From the command line on: an idle bridge whose next command is a print gives exactly the 32 replies of this
      print, besides what it answers to other lines. */
  method AnswerPrint(b: UsbBridge, reader: LineReader, ms: nat -> nat, ghost stall: nat, turns: nat -> Turn,
                     ghost phy: nat)
    returns (out: seq<seq<Reply>>, ghost own: seq<seq<Reply>>)
    requires b.Valid() && reader.Valid() && !b.printActive && !b.pending && Runs(ms, stall)
    requires var c := FirstCommand(LinesAt(turns, reader.cur, 0, 0));
             c.Some? && c.value.verb == VPrint && c.value.phy == phy
    modifies b, b.mdio, b.mdio.box, b.mdio.blob, b.mdio.resp, b.resp, reader, reader.line
    ensures b.Valid() && reader.Valid() && |out| == |own| > 1
    ensures forall i :: 0 <= i < |out| ==>
              out[i] == own[i] + RepliesTo(0 < i < |out| - 1, LinesAt(turns, old(reader.cur), 0, i))
    ensures FullPrint(Flat(own), b.mdio.done, |old(b.mdio.done)|, phy)
  {
    hide UsbBridge.Valid, UsbBridge.Measure, LineReader.Valid, Printed, Runs, FullPrint, Flat, LinesAt,
         RepliesTo, LineEvents, LineRest, NonSilent, FirstCommand;
    var t := turns(0);
    RespOf(b);
    LinesIs(turns, reader.cur, 0, 0);
    var first, ended;
    ghost var none;
    first, none, ended := b.MainLoop(ms(0) % WORD32, t.levels, t.sessionStarted, reader, t.bytes);
    RespOf(b);
    ghost var cur := reader.cur;
    assert [] + RepliesTo(false, LinesAt(turns, old(reader.cur), 0, 0)) == first;
    var more;
    ghost var rest;
    more, rest := AwaitPrint(b, reader, ms, stall, turns, 1);
    out, own := [first] + more, [[]] + rest;
    FlatCons(rest);
    assert [] + Flat(rest) == Flat(rest);
    forall i | 1 <= i < |out|
      ensures out[i] == own[i] + RepliesTo(0 < i < |out| - 1, LinesAt(turns, old(reader.cur), 0, i))
    {
      LinesLater(turns, old(reader.cur), i);
      assert out[i] == more[i - 1] && own[i] == rest[i - 1];
    }
  }

  lemma LinesLater(turns: nat -> Turn, cur: seq<byte>, i: nat)
    requires 0 < i
    ensures LinesAt(turns, cur, 0, i) == LinesAt(turns, CurAt(turns, cur, 0, 1), 1, i)
  {
    CurLater(turns, cur, 0, i);
    hide CurAt;
  }

  /** Every accepted read or write is answered, exactly once: each line that comes meanwhile is answered as busy,
      and the last turn begins with the reply, which reports the request made for the command. */
  method AwaitReply(b: UsbBridge, reader: LineReader, ms: nat -> nat, ghost stall: nat, turns: nat -> Turn, from: nat)
    returns (out: seq<seq<Reply>>, ghost own: seq<seq<Reply>>, ghost reply: Reply)
    requires b.Valid() && reader.Valid() && b.pending && !b.printActive && b.mdio.active && Runs(ms, stall)
    modifies b, b.mdio, b.mdio.box, b.mdio.blob, b.mdio.resp, b.resp, reader, reader.line
    ensures b.Valid() && reader.Valid() && out != []
    ensures Answered(out, own, turns, old(reader.cur), from, true) && Flat(own) == [reply]
    ensures |b.mdio.done| == |old(b.mdio.done)| + 1 && Answers(reply, old(b.current), b.mdio.done[|old(b.mdio.done)|])
  {
    hide UsbBridge.Valid, UsbBridge.Measure, UsbBridge.At, LineReader.Valid, Printed, Runs, Flat, LinesAt, RepliesTo,
         LineEvents, LineRest, NonSilent, FirstCommand, Answered, CurAt, Answers;
    out, own := [], [];
    NoneAnswered(turns, reader.cur, from);
    ghost var cur := reader.cur;
    RespOf(b);
    NoneFlat();
    var i := from;
    ghost var since: nat := 0;                           // the first turn at which the request was seen
    ghost var started, seen := b.mdio.startedMs, false;
    while true
      invariant b.Valid() && reader.Valid() && b.pending && !b.printActive && b.mdio.active && since <= i && from <= i
      invariant b.current == old(b.current) && b.mdio.done == old(b.mdio.done) && Flat(own) == []
      invariant |out| == i - from && reader.cur == CurAt(turns, cur, from, i)
      invariant Answered(out, own, turns, cur, from, false)
      invariant b.mdio.resp == b.resp || b.mdio.resp == null
      invariant seen ==>
                  && b.mdio.startedMs == started && since < i && ms(i - 1) <= ms(since) + TIMEOUT_MS
                  && (ms(since) % WORD32 - started) % WORD32 <= TIMEOUT_MS
      decreases b.Measure(), if seen then since + 6 * stall + 1 - i else i + 6 * stall + 2
    {
      ghost var measure := b.Measure();
      var t := turns(i);
      LinesIs(turns, cur, from, i);
      var replies, mine, ended;
      replies, mine, ended := b.MainLoop(ms(i) % WORD32, t.levels, t.sessionStarted, reader, t.bytes);
      FlatSnoc(own, mine);
      AnsweredSnoc(out, own, turns, cur, from, replies, mine, mine != []);
      out, own := out + [replies], own + [mine];
      if mine != [] {
        reply := mine[0];
        return;
      }
      if b.Measure() < measure {
        seen := false;
      } else if !seen {
        seen, since, started := true, i, b.mdio.startedMs;
      } else {
        StillYoung(ms, stall, since, i, started);
      }
      RespOf(b);
      i := i + 1;
    }
  }

  /** From the command line on: an idle bridge takes up its next command, a read or a write, and its replies,
      besides what it answers to other lines, are one that reports how the request for this command ended. */
  method AnswerCommand(b: UsbBridge, reader: LineReader, ms: nat -> nat, ghost stall: nat, turns: nat -> Turn,
                       ghost c: Command)
    returns (out: seq<seq<Reply>>, ghost own: seq<seq<Reply>>, ghost reply: Reply)
    requires b.Valid() && reader.Valid() && !b.printActive && !b.pending && Runs(ms, stall)
    requires FirstCommand(LinesAt(turns, reader.cur, 0, 0)) == Some(c) && c.verb != VPrint
    modifies b, b.mdio, b.mdio.box, b.mdio.blob, b.mdio.resp, b.resp, reader, reader.line
    ensures b.Valid() && reader.Valid() && |out| == |own| > 1 && Flat(own) == [reply]
    ensures forall i :: 0 <= i < |out| ==>
              out[i] == own[i] + RepliesTo(0 < i < |out| - 1, LinesAt(turns, old(reader.cur), 0, i))
    ensures |b.mdio.done| == |old(b.mdio.done)| + 1 && Answers(reply, c, b.mdio.done[|old(b.mdio.done)|])
  {
    hide UsbBridge.Valid, UsbBridge.Measure, LineReader.Valid, Printed, Runs, Flat, LinesAt, RepliesTo, LineEvents,
         LineRest, NonSilent, FirstCommand, Answers;
    var t := turns(0);
    RespOf(b);
    LinesIs(turns, reader.cur, 0, 0);
    var first, ended;
    ghost var none;
    first, none, ended := b.MainLoop(ms(0) % WORD32, t.levels, t.sessionStarted, reader, t.bytes);
    RespOf(b);
    ghost var cur := reader.cur;
    assert [] + RepliesTo(false, LinesAt(turns, old(reader.cur), 0, 0)) == first;
    var more;
    ghost var rest;
    more, rest, reply := AwaitReply(b, reader, ms, stall, turns, 1);
    out, own := [first] + more, [[]] + rest;
    FlatCons(rest);
    forall i | 1 <= i < |out|
      ensures out[i] == own[i] + RepliesTo(0 < i < |out| - 1, LinesAt(turns, old(reader.cur), 0, i))
    {
      LinesLater(turns, old(reader.cur), i);
      assert out[i] == more[i - 1] && own[i] == rest[i - 1];
    }
  }

  // ---- what the lines are answered -------------------------------------------------------------------

  function CommandIn(e: LineEvent): Option<Command> {
    if e.Ready? then Parsed(e.text) else None
  }

  /** What a line is answered at once. */
  function LineReplies(busy: bool, e: LineEvent): seq<Reply> {
    if e == Silent then []
    else
      match CommandIn(e)
      case None => [ErrInvalid]
      case Some(c) => if !busy then [] else if c.verb == VPrint then BusyPrint(c.phy, 0) else [BusyReply(c)]
  }

  function RepliesTo(busy: bool, events: seq<LineEvent>): seq<Reply>
    decreases events
  {
    if events == [] then []
    else LineReplies(busy, events[0]) + RepliesTo(busy || CommandIn(events[0]).Some?, events[1..])
  }

  function FirstCommand(events: seq<LineEvent>): Option<Command> {
    if events == [] then None
    else if CommandIn(events[0]).Some? then CommandIn(events[0])
    else FirstCommand(events[1..])
  }

  lemma NoReplies(busy: bool)
    ensures RepliesTo(busy, []) == [] && FirstCommand([]) == None
  {}

  lemma {:induction false} RepliesSnoc(busy: bool, events: seq<LineEvent>, e: LineEvent)
    ensures RepliesTo(busy, events + [e]) ==
            RepliesTo(busy, events) + LineReplies(busy || FirstCommand(events).Some?, e)
    ensures FirstCommand(events + [e]) == if FirstCommand(events).Some? then FirstCommand(events) else CommandIn(e)
    ensures e == Silent ==> LineReplies(true, e) == LineReplies(false, e) == [] && CommandIn(e) == None
    decreases events
  {
    hide *;
    SilentLine();
    if events == [] {
      NoReplies(busy);
      NoReplies(busy || CommandIn(e).Some?);
      FirstLine(busy, e, []);
      assert [e] + [] == events + [e];
    } else {
      var rest := events[1..];
      RepliesSnoc(busy || CommandIn(events[0]).Some?, rest, e);
      FirstLine(busy, events[0], rest);
      FirstLine(busy, events[0], rest + [e]);
      assert events == [events[0]] + rest && events + [e] == [events[0]] + (rest + [e]);
    }
  }

  /** Lines that hold no command are answered alike by a busy and an idle bridge. */
  lemma {:induction false} OneAccepted(before: seq<LineEvent>, e: LineEvent, after: seq<LineEvent>)
    requires FirstCommand(before).None? && CommandIn(e).Some?
    ensures RepliesTo(false, before + [e] + after) == RepliesTo(true, before) + RepliesTo(true, after)
  {
    hide *;
    if before == [] {
      NoReplies(true);
      FirstLine(false, e, after);
      Accepting(e);
      assert before + [e] + after == [e] + after;
    } else {
      var rest := before[1..];
      FirstLine(true, before[0], rest);
      FirstLine(false, before[0], rest);
      FirstLine(false, before[0], rest + [e] + after);
      assert before == [before[0]] + rest && before + [e] + after == [before[0]] + (rest + [e] + after);
      Accepting(before[0]);
      OneAccepted(rest, e, after);
    }
  }

  lemma FirstLine(busy: bool, e: LineEvent, rest: seq<LineEvent>)
    ensures RepliesTo(busy, [e] + rest) == LineReplies(busy, e) + RepliesTo(busy || CommandIn(e).Some?, rest)
    ensures FirstCommand([e] + rest) == if CommandIn(e).Some? then CommandIn(e) else FirstCommand(rest)
  {
    hide LineReplies, CommandIn;
    assert ([e] + rest)[1..] == rest;
  }

  lemma SilentLine()
    ensures LineReplies(true, Silent) == LineReplies(false, Silent) == [] && CommandIn(Silent) == None
  {}

  lemma Accepting(e: LineEvent)
    ensures if CommandIn(e).Some? then LineReplies(false, e) == [] else LineReplies(false, e) == LineReplies(true, e)
  {
    hide Parsed, BusyPrint;
  }

  lemma AtBusy(b: UsbBridge)
    ensures forall c :: b.At(c) ==> b.pending
  {}

  /** emitPrintBusy. */
  function BusyPrint(phy: nat, reg: nat): (replies: seq<Reply>)
    decreases PRINT_REGS - reg
  {
    if reg >= PRINT_REGS then [] else [BusyReply(PrintRead(phy, reg))] + BusyPrint(phy, reg + 1)
  }

  /** The reply turns the command away and names it. */
  predicate TurnsAway(r: Reply, verb: Verb, phy: nat, mmd: Option<nat>, reg: nat) {
    r.Reply? && r.verb == verb && r.phy == phy && r.mmd == mmd && r.reg == reg && r.report == BusyNow
  }

  /** A command that comes while the bridge is busy is turned away by name, a print register by register. */
  lemma BusyNames(text: seq<byte>, c: Command)
    requires Parsed(text) == Some(c)
    ensures var replies := LineReplies(true, Ready(text));
            if c.verb == VPrint then
              |replies| == 32 && forall i :: 0 <= i < 32 ==> TurnsAway(replies[i], VRead, c.phy, None, i)
            else
              |replies| == 1 && TurnsAway(replies[0], c.verb, c.phy, c.mmd, c.reg)
  {
    BusyPrintNames(c.phy, 0);
    hide Parsed, BusyPrint;
  }

  lemma {:induction false} BusyPrintNames(phy: nat, reg: nat)
    requires reg <= PRINT_REGS
    ensures |BusyPrint(phy, reg)| == PRINT_REGS - reg
    ensures forall i :: 0 <= i < PRINT_REGS - reg ==> TurnsAway(BusyPrint(phy, reg)[i], VRead, phy, None, reg + i)
    decreases PRINT_REGS - reg
  {
    if reg < PRINT_REGS {
      BusyPrintNames(phy, reg + 1);
      var rest := BusyPrint(phy, reg + 1);
      assert BusyPrint(phy, reg) == [BusyReply(PrintRead(phy, reg))] + rest;
      forall i | 0 < i < PRINT_REGS - reg
        ensures TurnsAway(BusyPrint(phy, reg)[i], VRead, phy, None, reg + i)
      {
        assert BusyPrint(phy, reg)[i] == rest[i - 1];
      }
    }
  }

  lemma NothingPrinted(done: seq<Outcome>, phy: nat)
    requires phy <= 31
    ensures Printed([], done, |done|, phy, 0)
  {}

  /** What the parser lets through is in range. */
  lemma AcceptedInRange(line: seq<byte>, c: Command)
    requires Parsed(line) == Some(c)
    ensures InRange(c)
  {
    var sp := ParsedIsPhrase(line, c);
    hide Parsed, Spells, Phrase;
  }

  /** The reply for register i of a print, from its own read. */
  ghost predicate RegisterReply(r: Reply, o: Outcome, phy: nat, i: nat) {
    && phy <= 31 && i <= 31 && r.Reply? && r.verb == VRead && r.phy == phy && r.mmd == None && r.reg == i
    && o.req == Request(OpRead, phy, 0, i, 0)
    && match o.status
       case Done => r.report == Got(o.value)
       case NoResp => r.report == NoAnswer
       case Timeout => r.report == TimedOut
       case _ => true
  }

  lemma PrintIsComplete(printed: seq<Reply>, done: seq<Outcome>, base: nat, phy: nat)
    requires Printed(printed, done, base, phy, PRINT_REGS)
    ensures FullPrint(printed, done, base, phy)
  {
    hide Printed;
    PrintedAt(printed, done, base, phy, 0);
    forall i | 0 <= i < 32
      ensures RegisterReply(printed[i], done[base + i], phy, i)
    {
      PrintedAt(printed, done, base, phy, i);
    }
  }

  lemma PrintedAt(printed: seq<Reply>, done: seq<Outcome>, base: nat, phy: nat, i: nat)
    requires Printed(printed, done, base, phy, PRINT_REGS) && i < 32
    ensures |printed| == 32 && base + 32 <= |done| && phy <= 31
    ensures done[base + i].req == RequestOf(PrintRead(phy, i))
    ensures printed[i] == ReplyTo(PrintRead(phy, i), done[base + i].status, done[base + i].value)
  {}

  lemma WaitsRight(b: UsbBridge)
    requires b.Valid()
    ensures b.pending && !b.mdio.active ==>
              && b.mdio.done != []
              && Answers(ReplyTo(b.current, b.resp.status, b.resp.value), b.current, b.mdio.done[|b.mdio.done| - 1])
  {
    hide Master.Valid, Answers, Waiting, PrintBooks;
    if b.pending {
      ReplyAnswers(b.current, b.mdio.active, b.mdio.req, b.mdio.done, b.resp.status, b.resp.value);
    }
  }

  lemma ActivePends(m: Master)
    requires m.Valid()
    ensures if m.active then m.resp != null && m.resp.status == Pending else m.resp == null
  {}

  lemma PrintInRange(phy: nat, next: nat, printed: seq<Reply>, done: seq<Outcome>, base: nat)
    requires Printed(printed, done, base, phy, next) && next < PRINT_REGS
    ensures InRange(PrintRead(phy, next))
  {}
}