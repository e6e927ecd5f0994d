/** The bulk endpoints of the USB-CDC device (src/usb/usb_cdc.cpp): two rings, one in-flight IN
    packet, and OUT flow control. The host acts between any two calls; the controller holds
    one completed transfer until the firmware has seen it. */
module UsbCdc {
  import opened Bytes
  import opened Ring

  const PACKET: nat := 64
  const RX_CAPACITY: nat := 1024
  const TX_CAPACITY: nat := 512
  const FLUSH_MS: nat := 1
  const PUMP_EVERY: nat := 16

  /** The controller's flags: nothing, a packet taken by the host, a packet from the host, a bus
      reset, or a transfer on another endpoint. */
  datatype Event = Quiet | In3 | Out2(data: seq<byte>) | Reset | Other

  class UsbCdc {
    const rx: Ring
    const tx: Ring
    const ep3: array<byte>
    var ep3Len: nat
    var ep3Busy: bool
    var ep2Nak: bool
    var partialPending: bool
    var partialSinceMs: uint32
    var pending: Event
    ghost var committed: seq<byte>        // given to write() or txCommit() since the last reset
    ghost var delivered: seq<byte>        // taken by the host
    ghost var received: seq<byte>         // sent by the host and accepted by the controller
    ghost var consumed: seq<byte>         // returned by read()

    /** The packet the controller may send at any moment. */
    ghost function Flight(): seq<byte>
      reads this, ep3
    {
      if ep3Busy && pending != In3 && ep3Len <= ep3.Length then ep3[..ep3Len] else []
    }

    /** The contiguous free bytes of the transmit ring. */
    ghost function Span(): nat
      reads this, tx
    {
      if |tx.items| <= TX_CAPACITY then Min(TX_CAPACITY - |tx.items|, TX_CAPACITY - Index(tx.head, TX_CAPACITY)) else 0
    }

    ghost predicate Shape()
      reads this, tx, rx, tx.buf, rx.buf
    {
      && rx != tx && rx.buf != tx.buf && ep3 != rx.buf && ep3 != tx.buf && rx.Valid() && tx.Valid()
      && rx.buf.Length == RX_CAPACITY && tx.buf.Length == TX_CAPACITY && ep3.Length == PACKET
      && rx.staged == [] && ep3Len <= PACKET
    }

    ghost predicate Valid()
      reads this, ep3, tx, rx, tx.buf, rx.buf
    {
      && Shape()
      && (pending == In3 ==> ep3Busy)
      && delivered + Flight() + tx.items == committed
      && (!ep2Nak ==> |rx.items| + PACKET <= RX_CAPACITY)
      && (pending.Out2? ==> !ep2Nak && |pending.data| <= PACKET)
      && consumed + rx.items + (if pending.Out2? then pending.data else []) == received
    }

    constructor ()
      ensures Valid() && fresh(rx) && fresh(tx) && fresh(ep3) && fresh(rx.buf) && fresh(tx.buf)
      ensures committed == [] && delivered == [] && received == [] && consumed == [] && tx.staged == []
    {
      rx := new Ring(RX_CAPACITY);
      tx := new Ring(TX_CAPACITY);
      ep3 := new byte[PACKET](_ => 0);
      ep3Len, ep3Busy, ep2Nak, partialPending, partialSinceMs, pending := 0, false, false, false, 0, Quiet;
      committed, delivered, received, consumed := [], [], [], [];
    }

    // ---- the host ------------------------------------------------------------------------------------

    /** The host polls EP3: an armed packet goes out, once. */
    method HostTakes()
      requires Valid() && pending == Quiet && ep3Busy
      modifies this`pending, this`delivered
      ensures Valid() && pending == In3 && delivered == old(delivered) + old(Flight())
    {
      hide Ring.Valid;
      assert delivered + Flight() + [] == delivered + Flight();
      delivered := delivered + Flight();
      pending := In3;
    }

    /** The host sends a packet; the controller answers NAK while the ring may be too full. */
    method HostSends(data: seq<byte>)
      requires Valid() && pending == Quiet && !ep2Nak && |data| <= PACKET
      modifies this`pending, this`received
      ensures Valid() && pending == Out2(data) && received == old(received) + data
    {
      hide Ring.Valid;
      assert consumed + rx.items + [] == consumed + rx.items;
      received := received + data;
      pending := Out2(data);
    }

    method HostResets()
      requires Valid() && pending == Quiet
      modifies this`pending
      ensures Valid() && pending == Reset
    {
      hide Ring.Valid;
      pending := Reset;
    }

    // ---- the firmware --------------------------------------------------------------------------------

    /** Pop one packet into the endpoint buffer; only ever called with nothing in flight. */
    method ArmEp3FromTx(allowShort: bool) returns (armed: bool)
      requires Valid() && !ep3Busy
      modifies this`ep3Len, this`ep3Busy, ep3, tx, tx.buf
      ensures Valid() && tx.staged == old(tx.staged) && tx.head == old(tx.head)
      ensures armed == (old(tx.items) != [] && (|old(tx.items)| >= PACKET || allowShort)) && ep3Busy == armed
      ensures armed ==> ep3Len == Min(PACKET, |old(tx.items)|) && Flight() == old(tx.items)[..ep3Len]
      ensures tx.items == if armed then old(tx.items)[ep3Len..] else old(tx.items)
    {
      hide Ring.Valid;
      var n := tx.Size();
      if n == 0 {
        return false;
      }
      if n < PACKET && !allowShort {
        return false;
      }
      if n > PACKET {
        n := PACKET;
      }
      ghost var items := tx.items;
      var d, added := tx.Pop(n, _ => []);
      ghost var rest := tx.items;
      assert rest == items[n..];
      CopyOut(d);
      ep3Len := n;
      ep3Busy := true;
      armed := true;
      assert ep3[..n] == d == items[..n];
      assert items == items[..n] + rest;
      RegroupFlight(delivered, items[..n], rest);
    }

    method CopyOut(d: seq<byte>)
      requires ep3.Length == PACKET && |d| <= PACKET
      modifies ep3
      ensures ep3[..|d|] == d
    {
      for i := 0 to |d|
        invariant ep3[..i] == d[..i]
      {
        ep3[i] := d[i];
      }
    }

    method BusReset()
      requires Valid()
      modifies this`ep3Busy, this`ep2Nak, this`partialPending, this`pending, this`committed, this`delivered,
               this`received, this`consumed, rx, tx
      ensures Valid() && pending == Quiet && !ep3Busy && !ep2Nak && !partialPending
      ensures committed == [] && delivered == [] && received == [] && consumed == []
      ensures tx.items == [] && rx.items == [] && tx.staged == []
    {
      hide Ring.Valid;
      rx.Clear();
      tx.Clear();
      ep3Busy, ep2Nak, partialPending := false, false, false;
      pending := Quiet;
      committed, delivered, received, consumed := [], [], [], [];
    }

    /** A packet from the host goes into the ring; it always fits. */
    method PushOut(data: seq<byte>)
      requires Valid() && pending == Out2(data)
      modifies this`ep2Nak, this`pending, rx, rx.buf
      ensures Valid() && pending == Quiet && rx.items == old(rx.items) + data
      ensures ep2Nak <==> |rx.items| + PACKET > RX_CAPACITY
    {
      hide Ring.Valid;
      ghost var before := rx.items;
      var n, gone := rx.Push(data, _ => 0);
      assert n == |data| && data[..n] == data && before[0..] == before;
      var free := rx.Free();
      if free < PACKET {
        ep2Nak := true;
      }
      pending := Quiet;
      assert consumed + (before + data) + [] == consumed + before + data;
    }

    /** The transfer and reset handling; control transfers touch none of this. */
    method OnIrq()
      requires Valid()
      modifies this`ep3Busy, this`ep2Nak, this`partialPending, this`pending, this`committed, this`delivered,
               this`received, this`consumed, rx, rx.buf, tx
      ensures Valid() && pending == Quiet && (old(pending) == In3 ==> !ep3Busy)
      ensures old(pending) != In3 && old(pending) != Reset ==> ep3Busy == old(ep3Busy)
      ensures old(pending) == Reset ==>
                committed == [] && tx.items == [] && tx.staged == [] && !ep3Busy && !partialPending
      ensures old(pending) != Reset ==>
                && committed == old(committed) && delivered == old(delivered) && tx.items == old(tx.items)
                && tx.head == old(tx.head) && tx.staged == old(tx.staged) && partialPending == old(partialPending)
                && received == old(received) && consumed == old(consumed)
    {
      hide Ring.Valid;
      match pending {
        case In3 =>
          ep3Busy := false;
          pending := Quiet;
        case Out2(data) =>
          PushOut(data);
        case Reset =>
          BusReset();
        case _ =>
          pending := Quiet;
      }
    }

    /** One main-loop step. `armed` is the length of the packet it arms, if any. */
    method Tick(nowMs: uint32) returns (armed: nat)
      requires Valid() && tx.staged == []
      modifies this, ep3, tx, tx.buf, rx, rx.buf
      ensures Valid() && pending == Quiet && tx.staged == []
      ensures old(pending) != Reset ==>
                && committed == old(committed) && delivered == old(delivered) && received == old(received)
                && armed <= |old(tx.items)| && tx.items == old(tx.items)[armed..]
      ensures old(pending) == Reset ==> committed == [] && tx.items == [] && armed == 0
      ensures old(ep3Busy) && old(pending) != In3 && old(pending) != Reset ==> Flight() == old(Flight()) && armed == 0
      ensures armed <= PACKET && (armed > 0 ==> ep3Busy && ep3Len == armed)
      ensures 0 < armed < PACKET ==>
                old(partialPending) && Minus(nowMs, old(partialSinceMs)) >= FLUSH_MS && tx.items == []
      ensures (!old(ep3Busy) || old(pending) == In3) && old(pending) != Reset ==>
                && (|old(tx.items)| >= PACKET ==> armed == PACKET)
                && (old(partialPending) && Minus(nowMs, old(partialSinceMs)) >= FLUSH_MS ==>
                      armed == Min(PACKET, |old(tx.items)|))
      ensures (!old(ep3Busy) || old(pending) == In3) && old(pending) != Reset ==>
                (armed == 0 ==> !ep3Busy && Holds(nowMs, old(partialPending), old(partialSinceMs)))
      ensures ep2Nak ==> |rx.items| + PACKET > RX_CAPACITY
    {
      hide Ring.Valid;
      armed := 0;
      if pending != Quiet {
        OnIrq();
      }
      Reopen();
      armed := Coalesce(nowMs);
    }

    /** Fewer than 64 bytes wait; if any, they are held, since now or from before, and not yet for FLUSH_MS. */
    ghost predicate Holds(nowMs: uint32, was: bool, sinceMs: uint32)
      reads this, tx
    {
      && |tx.items| < PACKET && (partialPending <==> tx.items != [])
      && (partialPending ==>
            && Minus(nowMs, partialSinceMs) < FLUSH_MS
            && partialSinceMs == if was then sinceMs else nowMs)
    }

    /** Re-open the OUT endpoint once the ring has room for a full packet. */
    method Reopen()
      requires Valid()
      modifies this`ep2Nak
      ensures Valid() && (ep2Nak ==> |rx.items| + PACKET > RX_CAPACITY)
    {
      hide Ring.Valid;
      if ep2Nak {
        var free := rx.Free();
        if free >= PACKET {
          ep2Nak := false;
        }
      }
    }

    /** Full packets at once; a short one only after it has been held for a millisecond. */
    method Coalesce(nowMs: uint32) returns (armed: nat)
      requires Valid() && tx.staged == []
      modifies this`ep3Len, this`ep3Busy, this`partialPending, this`partialSinceMs, ep3, tx, tx.buf
      ensures Valid() && tx.staged == [] && armed <= PACKET && armed <= |old(tx.items)|
      ensures tx.items == old(tx.items)[armed..]
      ensures old(ep3Busy) ==> armed == 0 && ep3Busy && Flight() == old(Flight())
      ensures armed > 0 ==> ep3Busy && ep3Len == armed
      ensures 0 < armed < PACKET ==>
                old(partialPending) && Minus(nowMs, old(partialSinceMs)) >= FLUSH_MS && tx.items == []
      ensures !old(ep3Busy) ==>
                && (|old(tx.items)| >= PACKET ==> armed == PACKET)
                && (old(partialPending) && Minus(nowMs, old(partialSinceMs)) >= FLUSH_MS ==>
                      armed == Min(PACKET, |old(tx.items)|))
                && (armed == 0 ==> !ep3Busy && Holds(nowMs, old(partialPending), old(partialSinceMs)))
    {
      hide Ring.Valid;
      armed := 0;
      if !ep3Busy {
        var n := tx.Size();
        if n >= PACKET {
          partialPending := false;
          var ok := ArmEp3FromTx(false);
          armed := PACKET;
        } else if n > 0 {
          if !partialPending {
            partialPending := true;
            partialSinceMs := nowMs;
          }
          if Minus(nowMs, partialSinceMs) >= FLUSH_MS {
            partialPending := false;
            var ok := ArmEp3FromTx(true);
            armed := n;
          }
        } else {
          partialPending := false;
        }
      }
    }

    /** The lean pump: if the host has taken the packet, arm the next full one at once. Safe while
        the producer fills a reserved span. */
    method Pump()
      requires Valid()
      modifies this, ep3, tx, tx.buf, rx, rx.buf
      ensures Valid() && committed == old(committed) && delivered == old(delivered) && received == old(received)
      ensures tx.staged == old(tx.staged) && tx.head == old(tx.head) && |tx.items| <= |old(tx.items)|
      ensures old(ep3Busy) && old(pending) != In3 ==> Flight() == old(Flight()) && tx.items == old(tx.items)
      ensures old(pending) != Reset ==> pending == Quiet
      ensures old(pending) == Quiet || old(pending) == Reset ==> unchanged(this)
      ensures old(pending) == In3 ==> ep3Busy == (|old(tx.items)| >= PACKET) && (ep3Busy ==> ep3Len == PACKET)
    {
      hide Ring.Valid;
      if pending == Quiet || pending == Reset {
        return;                                // no completed transfer
      }
      if pending != In3 {
        OnIrq();
        return;
      }
      ep3Busy := false;
      pending := Quiet;
      var armed := ArmEp3FromTx(false);
      if armed {
        partialPending := false;
      }
    }

    method Write(src: seq<byte>) returns (n: nat)
      requires Valid() && tx.staged == []
      modifies this`committed, tx, tx.buf
      ensures Valid() && tx.staged == [] && n == Min(|src|, TX_CAPACITY - |old(tx.items)|)
      ensures committed == old(committed) + src[..n]
    {
      hide Ring.Valid;
      ghost var before := tx.items;
      ghost var gone;
      n, gone := tx.Push(src, _ => 0);
      assert before[0..] == before;
      assert delivered + Flight() + (before + src[..n]) == delivered + Flight() + before + src[..n];
      committed := committed + src[..n];
    }

    method Read(maxLen: nat) returns (dst: seq<byte>)
      requires Valid()
      modifies this`consumed, rx, rx.buf
      ensures Valid() && dst == old(rx.items)[..Min(maxLen, |old(rx.items)|)] && consumed == old(consumed) + dst
    {
      hide Ring.Valid;
      ghost var before := rx.items;
      ghost var added;
      dst, added := rx.Pop(maxLen, _ => []);
      ghost var held := if pending.Out2? then pending.data else [];
      assert before == dst + rx.items by {
        assert rx.items == before[|dst|..];
      }
      Between(consumed, dst, rx.items, held);
      consumed := consumed + dst;
    }

    /** The zero-copy drain of service(): fill a reserved span, pumping every sixteen bytes while
        the host goes on taking packets. */
    method Fill(src: seq<byte>, taking: nat -> bool) returns (n: nat)
      requires Valid() && tx.staged == [] && pending != Reset
      modifies this, ep3, tx, tx.buf, rx, rx.buf
      ensures Valid() && tx.staged == [] && n <= |src| && pending != Reset
      ensures n == Min(|src|, old(Span()))
      ensures |old(delivered)| + |old(Flight())| <= |delivered| + |Flight()|
      ensures old(pending) == Quiet ==> pending == Quiet || pending == In3
      ensures !old(ep3Busy) && old(pending) == Quiet ==>
                && !ep3Busy && pending == Quiet && delivered == old(delivered)
                && partialPending == old(partialPending) && partialSinceMs == old(partialSinceMs)
      ensures |old(tx.items)| < TX_CAPACITY && src != [] ==> n > 0
      ensures committed == old(committed) + src[..n] && received == old(received) && old(delivered) <= delivered
    {
      hide Ring.Valid, UsbCdc.Valid;
      var cap := Reserve();
      n := Min(|src|, cap);
      var i := 0;
      while i < n
        invariant i <= n && Valid() && tx.staged == src[..i] && pending != Reset
        invariant tx.head == old(tx.head) && |tx.items| <= |old(tx.items)|
        invariant committed == old(committed) && received == old(received) && old(delivered) <= delivered
        invariant |old(delivered)| + |old(Flight())| <= |delivered| + |Flight()|
        invariant old(pending) == Quiet ==> pending == Quiet || pending == In3
        invariant !old(ep3Busy) && old(pending) == Quiet ==>
                    && !ep3Busy && pending == Quiet && delivered == old(delivered)
                    && partialPending == old(partialPending) && partialSinceMs == old(partialSinceMs)
      {
        if taking(i) && pending == Quiet && ep3Busy {
          HostTakes();
        }
        if i % PUMP_EVERY == 0 {
          Pump();
        }
        StageOne(i, src[i], n);
        i := i + 1;
      }
      CommitSpan(n);
    }

    method WriteSpace() returns (space: nat)
      requires Valid()
      ensures space == TX_CAPACITY - |tx.items|
    {
      hide Ring.Valid;
      space := tx.Free();
    }

    method Reserve() returns (cap: nat)
      requires Valid()
      ensures cap == Span() && cap <= TX_CAPACITY - |tx.items| && cap <= TX_CAPACITY - Index(tx.head, TX_CAPACITY)
      ensures |tx.items| < TX_CAPACITY ==> cap > 0
    {
      hide Ring.Valid;
      cap := tx.FreeContig();
    }

    /** txCommit of a whole span. */
    method CommitSpan(n: nat)
      requires Valid() && |tx.staged| == n
      modifies this`committed, tx
      ensures Valid() && tx.staged == [] && committed == old(committed) + old(tx.staged)
    {
      hide Ring.Valid;
      ghost var before, span := tx.items, tx.staged;
      tx.WriteCommit(n);
      assert span[..n] == span && span[n..] == [];
      assert delivered + Flight() + (before + span) == delivered + Flight() + before + span;
      committed := committed + span;
    }

    method StageOne(i: nat, b: byte, ghost n: nat)
      requires Valid() && i < n && |tx.staged| == i
      requires n <= TX_CAPACITY - |tx.items| && n <= TX_CAPACITY - Index(tx.head, TX_CAPACITY)
      modifies tx.buf, tx`staged
      ensures Valid() && tx.staged == old(tx.staged) + [b] && tx.items == old(tx.items)
    {
      hide Ring.Valid;
      tx.Stage(i, b);
    }
  }

  // ---- nothing is held for ever ------------------------------------------------------------------------

  /** How much of the first `goal` committed bytes the host has not taken. */
  ghost function Left(u: UsbCdc, goal: nat): nat
    reads u
  {
    if |u.delivered| < goal then goal - |u.delivered| else 0
  }

  /** Nothing waits for the host. */
  ghost predicate Taken(u: UsbCdc)
    reads u
  {
    !u.ep3Busy || u.pending == In3
  }

  /** The main loop's clock never goes back, and does not go all the way round between two turns. */
  ghost predicate Clock(ms: nat -> nat) {
    forall i: nat :: ms(i) <= ms(i + 1) < ms(i) + WORD32
  }

  /** One turn of the main loop with a host that takes whatever is in flight: a packet goes out, or everything has
      gone, or fewer than 64 bytes are held. */
  method TakingTurn(u: UsbCdc, nowMs: uint32, text: seq<byte>, src: seq<byte>, taking: nat -> bool, ghost goal: nat)
    requires u.Valid() && u.tx.staged == [] && u.pending != Reset && goal <= |u.committed|
    modifies u, u.ep3, u.tx, u.tx.buf, u.rx, u.rx.buf
    ensures u.Valid() && u.tx.staged == [] && u.pending != Reset && Taken(u)
    ensures old(u.committed) <= u.committed && old(u.delivered) <= u.delivered
    ensures Left(u, goal) <= old(Left(u, goal))
    ensures old(Taken(u)) && Left(u, goal) > 0 ==>
              || Left(u, goal) + PACKET <= old(Left(u, goal))
              || (Left(u, goal) < PACKET && !u.ep3Busy && u.partialPending && Minus(nowMs, u.partialSinceMs) < FLUSH_MS
                  && (u.partialSinceMs == if old(u.partialPending) then old(u.partialSinceMs) else nowMs))
  {
    hide Ring.Valid, UsbCdc.Valid;
    var w := u.Write(text);
    Balanced(u);
    var armed := u.Tick(nowMs);
    Balanced(u);
    var n := u.Fill(src, taking);
    Balanced(u);
    if u.pending == Quiet && u.ep3Busy {
      u.HostTakes();
    }
    Balanced(u);
  }

  /** A host that keeps taking packets gets everything, whatever is written meanwhile: the bytes committed before
      the first turn have all been delivered once there was a turn for each full packet and two more, and the
      clock has then moved on by FLUSH_MS. */
  method KeepTaking(u: UsbCdc, ms: nat -> nat, text: nat -> seq<byte>, src: nat -> seq<byte>,
                    taking: nat -> nat -> bool, turns: nat)
    requires u.Valid() && u.tx.staged == [] && u.pending != Reset && Clock(ms)
    modifies u, u.ep3, u.tx, u.tx.buf, u.rx, u.rx.buf
    ensures u.Valid() && u.tx.staged == [] && u.pending != Reset
    ensures old(u.committed) <= u.committed && old(u.delivered) <= u.delivered <= u.committed
    ensures var full := (|old(u.committed)| - |old(u.delivered)|) / PACKET + 1;
            turns > full && ms(turns - 1) >= ms(full) + FLUSH_MS ==> old(u.committed) <= u.delivered
  {
    hide Ring.Valid, UsbCdc.Valid, Clock;
    ghost var goal, left := |u.committed|, Left(u, |u.committed|);
    Delivers(u);
    ghost var held, at := false, 0;                     // the first turn that held the last bytes back
    var i := 0;
    while i < turns
      invariant i <= turns && u.Valid() && u.tx.staged == [] && u.pending != Reset && (i > 0 ==> Taken(u))
      invariant old(u.committed) <= u.committed && old(u.delivered) <= u.delivered && goal == |old(u.committed)|
      invariant Left(u, goal) <= left
      invariant !held && Left(u, goal) > 0 ==> Left(u, goal) + PACKET * i <= left + PACKET
      invariant held && Left(u, goal) > 0 ==> Kept(u, ms, at, i) && Left(u, goal) < PACKET && at <= left / PACKET + 1
    {
      ghost var before, since, free := Left(u, goal), u.partialSinceMs, Taken(u);
      TakingTurn(u, ms(i) % WORD32, text(i), src(i), taking(i), goal);
      if Left(u, goal) > 0 && free {
        if !held && Left(u, goal) + PACKET > before {
          held, at := true, i;
        } else if held {
          StillHeld(ms, at, i, since);
        }
      }
      i := i + 1;
    }
    Delivers(u);
    NoLonger(u, ms, goal, left, held, at, turns);
  }

  lemma Delivers(u: UsbCdc)
    requires u.Valid()
    ensures u.delivered <= u.committed && |u.delivered| <= |u.committed|
  {
    hide Ring.Valid;
  }

  lemma {:induction false} ClockRuns(ms: nat -> nat, i: nat, j: nat)
    requires Clock(ms) && i <= j
    ensures ms(i) <= ms(j)
    decreases j - i
  {
    if i < j {
      ClockRuns(ms, i, j - 1);
      assert ms(j - 1) <= ms(j - 1 + 1);
    }
  }

  /** Bytes held at two turns in a row: the clock has not moved on by FLUSH_MS between them. */
  lemma StillHeld(ms: nat -> nat, at: nat, i: nat, since: uint32)
    requires Clock(ms) && at < i && ms(i - 1) < ms(at) + FLUSH_MS && Minus(ms(i - 1) % WORD32, since) < FLUSH_MS
    ensures Minus(ms(i) % WORD32, since) < FLUSH_MS ==> ms(i) < ms(at) + FLUSH_MS
  {
    ClockRuns(ms, at, i - 1);
    assert ms(i - 1) <= ms(i - 1 + 1) < ms(i - 1) + WORD32;
    Moved(ms(i - 1), ms(i), since);
  }

  lemma Moved(a: nat, b: nat, since: uint32)
    requires a <= b < a + WORD32 && Minus(a % WORD32, since) < FLUSH_MS
    ensures Minus(b % WORD32, since) < FLUSH_MS ==> a == b
  {}

  lemma NoLonger(u: UsbCdc, ms: nat -> nat, goal: nat, left: nat, held: bool, at: nat, turns: nat)
    requires Clock(ms)
    requires !held && Left(u, goal) > 0 ==> Left(u, goal) + PACKET * turns <= left + PACKET
    requires held && Left(u, goal) > 0 ==> Kept(u, ms, at, turns) && at <= left / PACKET + 1
    ensures turns > left / PACKET + 1 && ms(turns - 1) >= ms(left / PACKET + 1) + FLUSH_MS ==> |u.delivered| >= goal
  {
    if held && at <= left / PACKET + 1 {
      ClockRuns(ms, at, left / PACKET + 1);
    }
  }

  /** The bytes held back since turn `at` are still held at turn i - 1, for the clock has not moved on. */
  ghost predicate Kept(u: UsbCdc, ms: nat -> nat, at: nat, i: nat)
    reads u
  {
    at < i && ms(i - 1) < ms(at) + FLUSH_MS && u.partialPending &&
    Minus(ms(i - 1) % WORD32, u.partialSinceMs) < FLUSH_MS
  }

  lemma RegroupFlight(a: seq<byte>, b: seq<byte>, c: seq<byte>)
    ensures a + [] + (b + c) == a + b + c
  {}

  /** Between two bus resets nothing is lost, doubled or reordered: what the host has taken, the
      packet in flight and the ring make up exactly the bytes committed; and every packet the
      controller accepted from the host has gone to read() or waits in the ring. */
  lemma Conservation(u: UsbCdc)
    requires u.Valid()
    ensures u.delivered + u.Flight() + u.tx.items == u.committed && u.delivered <= u.committed
    ensures u.pending == Quiet ==> u.consumed + u.rx.items == u.received && |u.received| - |u.consumed| <= RX_CAPACITY
    ensures !u.ep3Busy && u.tx.items == [] ==> u.delivered == u.committed
  {
    hide Ring.Valid;
    assert u.consumed + u.rx.items + [] == u.consumed + u.rx.items;
    RingBound(u.rx);
  }

  lemma Between(a: seq<byte>, b: seq<byte>, c: seq<byte>, d: seq<byte>)
    ensures a + (b + c) + d == a + b + c + d
  {}

  lemma Balanced(u: UsbCdc)
    requires u.Valid()
    ensures |u.delivered| + |u.Flight()| + |u.tx.items| == |u.committed|
    ensures u.pending == In3 ==> u.ep3Busy
  {
    hide Ring.Valid;
  }

  lemma RingBound(r: Ring)
    requires r.Valid()
    ensures |r.items| <= r.buf.Length
  {}
}
