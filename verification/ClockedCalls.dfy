/** What service() of the clocked path decides on (src/sniffer/clocked_sniffer.cpp:177-258), as a function
    of the state before the call, the clock readings and what the program samples meanwhile. It
    speaks of calls in which no record is dropped; ClockedSniffer proves that the object does the
    same. */
module ClockedCalls {
  import opened Bytes
  import opened RecordFramer
  import opened ClockedBlob

  const BURST_TCAP_US: nat := 50000

  /** a - b on 32-bit counters. */
  function Since(a: uint32, b: uint32): uint32 { (a - b) % WORD32 }

  /** What the timing decisions depend on: the open burst (its size and time), the state of a continued chain,
      the times of the last byte and of the first pending sample, the bytes drained, and the program. */
  datatype Face = Face(open: bool, need: bool, n: nat, t0: uint32, lastMs: uint32, seenBits: nat, seenMs: uint32,
                       taken: nat, prog: Prog)

  /** What one call saw when it decided: the sentinel position, the burst state and the times; the
      samples taken when ACC was read, and those among them that are already drained. */
  datatype Call = Call(kbits: nat, open: bool, need: bool, lastMs: uint32, seenMs: uint32, at: nat, end: nat)

  /** What a call meets: its time, the samples found before its i-th register access, and its i-th reading
      of the microsecond clock. */
  datatype Turn = Turn(nowMs: uint32, levels: nat -> seq<bit>, us: nat -> uint32)

  /** The guard in front of a flush. */
  predicate Flushes(c: Call, nowMs: uint32) {
    c.kbits > 0 && Since(nowMs, if c.open || c.need then c.lastMs else c.seenMs) > 3
  }

  /** The guard in front of a close that has nothing to flush. */
  predicate Closes(c: Call, nowMs: uint32) {
    (c.open || c.need) && Since(nowMs, c.lastMs) > 3
  }

  /** The time cap. */
  predicate Cuts(c: Call, t0: uint32, tNow: uint32) { c.open && Since(tNow, t0) > BURST_TCAP_US }

  /** How much of the staging ring a call may need. */
  function RoomUsed(c: Call, t0: uint32, nowMs: uint32, tNow: uint32): nat {
    if Flushes(c, nowMs) || Closes(c, nowMs) || Cuts(c, t0, tNow) then ENC_MAX else 0
  }

  // ---- the steps of a call ---------------------------------------------------------------------

  /** The program runs on. */
  function Onward(f: Face, levels: seq<bit>): Face { f.(prog := Ahead(f.prog, levels)) }

  /** The burst has been sent. */
  function Split(f: Face, continued: bool): Face { f.(open := false, n := 0, need := continued) }

  /** A byte joins the burst, which is opened if need be. */
  function Grown(f: Face, t: uint32): Face {
    f.(open := true, n := f.n + 1, t0 := if f.open then f.t0 else t, taken := f.taken + 1)
  }

  /** One turn of the drain loop. */
  function Took(f: Face, t: uint32): Face {
    var g := Grown(f, t);
    if g.n >= BURST_MAX then Split(g, true) else g
  }

  /** k turns of the drain loop, the program running on before each. */
  function Drained(f: Face, k: nat, levels: nat -> seq<bit>, us: nat -> uint32): Face {
    if k == 0 then f else Took(Onward(Drained(f, k - 1, levels, us), levels(k)), us(3 * (k - 1)))
  }

  /** The bytes that HEAD shows and that have not been drained. */
  function Waits(f: Face): nat {
    if HeadOf(f.prog) < f.taken then 0 else HeadOf(f.prog) - f.taken
  }

  /** HEAD is read, and everything it shows is drained. */
  function Collected(f: Face, t: Turn): Face {
    var g := Onward(f, t.levels(0));
    var n := Waits(g);
    var d := Drained(g, n, t.levels, t.us);
    if n > 0 then d.(lastMs := t.nowMs) else d
  }

  function Ready(f: Face, t: Turn): nat { Waits(Onward(f, t.levels(0))) }

  /** The position of the highest set bit. */
  function Top(v: nat): nat { if v < 2 then 0 else 1 + Top(v / 2) }

  /** ACC is read. */
  function Watched(f: Face, nowMs: uint32): Face {
    var k := Top(AccOf(f.prog));
    f.(seenBits := k, seenMs := if k > 0 && f.seenBits == 0 then nowMs else f.seenMs)
  }

  function Deciding(f: Face, t: Turn): Face {
    Watched(Onward(Collected(f, t), t.levels(Ready(f, t) + 1)), t.nowMs)
  }

  function CallAt(w: Face): Call {
    Call(w.seenBits, w.open, w.need, w.lastMs, w.seenMs, |w.prog.all|, w.prog.epoch + 8 * w.taken)
  }

  /** The terminal record has been sent. */
  function Closed(w: Face, tClose: uint32): Face {
    Split(w, false).(t0 := if w.open then w.t0 else tClose)
  }

  function Restarted(w: Face, levels: seq<bit>): Face {
    w.(taken := 0, seenBits := 0, prog := Anew(Ahead(w.prog, levels)))
  }

  /** Flush, close, cut, or do nothing. */
  function Settled(w: Face, nowMs: uint32, tNow: uint32, tClose: uint32, levels: seq<bit>): Face {
    var c := CallAt(w);
    if Flushes(c, nowMs) then Restarted(Closed(w, tClose), levels)
    else if Closes(c, nowMs) then Closed(w, tClose)
    else if Cuts(c, w.t0, tNow) then Split(w, false)
    else w
  }

  // ---- whole calls -----------------------------------------------------------------------------

  /** What the call sees when it decides. */
  function Saw(f: Face, t: Turn): Call { CallAt(Deciding(f, t)) }

  /** What it leaves behind. */
  function Next(f: Face, t: Turn): Face {
    var n := Ready(f, t);
    Settled(Deciding(f, t), t.nowMs, t.us(3 * n + 1), t.us(3 * n + 2), t.levels(n + 2))
  }

  /** One of the first k slots was overwritten before it was read. */
  predicate Lapped(f: Face, k: nat, levels: nat -> seq<bit>, us: nat -> uint32) {
    k > 0 && (Lapped(f, k - 1, levels, us) ||
              var d := Drained(f, k - 1, levels, us); Ahead(d.prog, levels(k)).stored > d.taken + SLOTS)
  }

  lemma DrainStarts(f: Face, levels: nat -> seq<bit>, us: nat -> uint32)
    ensures Drained(f, 0, levels, us) == f && !Lapped(f, 0, levels, us)
  {}

  lemma DrainTurn(f: Face, n: nat, levels: nat -> seq<bit>, us: nat -> uint32)
    ensures var d := Drained(f, n, levels, us);
            && Drained(f, n + 1, levels, us) == Took(Onward(d, levels(n + 1)), us(3 * n))
            && (Lapped(f, n + 1, levels, us) <==>
                  Lapped(f, n, levels, us) || Ahead(d.prog, levels(n + 1)).stored > d.taken + SLOTS)
  {}

  /** Until a call decides, a continued chain matters for nothing else. */
  lemma ChainedTook(f: Face, need: bool, levels: seq<bit>, t: uint32)
    ensures var g := Took(Onward(f.(need := need), levels), t);
            g.(need := f.need) == Took(Onward(f, levels), t).(need := f.need)
  {
    hide Ahead;
  }

  lemma ChainedSaw(f: Face, t: Turn, need: bool)
    ensures var w := Watched(Onward(Collected(f, t).(need := need), t.levels(Ready(f, t) + 1)), t.nowMs);
            CallAt(w) == Saw(f, t).(need := need)
  {
    hide Collected, Ahead, AccOf, Top;
  }

  /** The FIFO laps the call. */
  predicate Laps(f: Face, t: Turn) {
    var g := Onward(f, t.levels(0));
    Waits(g) > SLOTS || Lapped(g, Waits(g), t.levels, t.us)
  }

  // ---- facts -----------------------------------------------------------------------------------

  lemma {:induction false} TopIs(v: nat)
    ensures v > 0 ==> Pow2(Top(v)) <= v < 2 * Pow2(Top(v))
    ensures v == 0 ==> Top(v) == 0
  {
    if v >= 2 {
      TopIs(v / 2);
    }
  }

  /** The position is unique, so a seeded accumulator gives its sample count. */
  lemma {:induction false} SameExponent(acc: nat, m: nat, n: nat)
    requires Pow2(m) <= acc < 2 * Pow2(m) && Pow2(n) <= acc < 2 * Pow2(n)
    ensures m == n
  {
    if m < n {
      Pow2Mono(m + 1, n);
    } else if n < m {
      Pow2Mono(n + 1, m);
    }
  }

  lemma {:induction false} Pow2Mono(m: nat, n: nat)
    requires m <= n
    ensures Pow2(m) <= Pow2(n)
  {
    if m < n {
      Pow2Mono(m, n - 1);
    }
  }

  /** Between two bytes the sentinel stands above the pending samples. */
  lemma PendingCount(p: Prog)
    requires p.phase < FULL && p.phase <= |p.all|
    ensures Top(AccOf(p)) == p.phase
  {
    var samples := p.all[|p.all| - p.phase..];
    SeedPosition(samples);
    hide Top, Seeded;
    PowerPositive(p.phase);
    TopIs(Seeded(samples));
    SameExponent(Seeded(samples), p.phase, Top(Seeded(samples)));
  }

  lemma PowerPositive(n: nat)
    ensures Pow2(n) > 0
  {}

  /** While the program stands still, the drain takes bytes and changes nothing else. */
  lemma {:induction false} StillDrain(f: Face, k: nat, levels: nat -> seq<bit>, us: nat -> uint32)
    requires f.prog.phase <= PUBLISHED && forall i :: 1 <= i <= k ==> levels(i) == []
    ensures var d := Drained(f, k, levels, us);
            && d.prog == f.prog && d.taken == f.taken + k
            && d.lastMs == f.lastMs && d.seenBits == f.seenBits && d.seenMs == f.seenMs
            && (f.n + k < BURST_MAX ==>
                  && d.n == f.n + k && d.open == (f.open || k > 0) && d.need == f.need
                  && d.t0 == if f.open || k == 0 then f.t0 else us(0))
    ensures f.prog.stored <= f.taken + SLOTS ==> !Lapped(f, k, levels, us)
    decreases k
  {
    hide Ahead;
    NoSteps(f.prog);
    if k > 0 {
      StillDrain(f, k - 1, levels, us);
    }
  }

  /** A call during which the program stands still until it has decided. */
  lemma StillTurn(f: Face, t: Turn, n: nat)
    requires f.prog.phase <= PUBLISHED && n == Waits(f)
    requires f.prog.stored <= f.taken + SLOTS && f.taken <= f.prog.stored
    requires forall i :: 0 <= i <= n + 1 ==> t.levels(i) == []
    ensures Ready(f, t) == n && !Laps(f, t) && Deciding(f, t) == Watched(Collected(f, t), t.nowMs)
    ensures Collected(f, t).prog == f.prog && Collected(f, t).taken == f.taken + n
    ensures f.n + n < BURST_MAX ==>
              Collected(f, t) == f.(open := f.open || n > 0, n := f.n + n, taken := f.taken + n,
                                    t0 := if f.open || n == 0 then f.t0 else t.us(0),
                                    lastMs := if n > 0 then t.nowMs else f.lastMs)
  {
    NoSteps(f.prog);
    StillDrain(f, n, t.levels, t.us);
    hide Ahead, Drained, Lapped, Watched;
  }
}
