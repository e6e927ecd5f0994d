/** When a flush of pending samples loses some. The flush in service() takes it for granted that the
    clock has stopped; both of its guards can hold while the clock is running. */
module ClockedFlush {
  import opened Bytes
  import opened Cobs
  import opened RecordFramer
  import opened HostCapture
  import opened ClockedBlob
  import opened ClockedCalls
  import opened ClockedLedger
  import opened ClockedTimes
  import opened ClockedSniffer

  /** What a call decided on, when, and how many samples had been taken at its end. */
  datatype Made = Made(c: Call, nowMs: uint32, samples: nat)

  /** Not a flush, or one at whose reading of ACC samples were pending and no byte was complete that HEAD had
      not shown, with no sample between that reading and the restart. */
  predicate Harmless(m: Made) {
    Flushes(m.c, m.nowMs) ==> m.c.end < m.c.at < m.c.end + 8 && m.samples == m.c.at
  }

  /** A flush that reads ACC between the publication of a byte and the next seed. */
  predicate Doubling(m: Made) { Flushes(m.c, m.nowMs) && m.c.at == m.c.end }

  // ---- whole runs --------------------------------------------------------------------------

  /** The state after some calls. */
  function After(f: Face, turns: seq<Turn>): Face
    decreases |turns|
  {
    if turns == [] then f else Next(After(f, turns[..|turns| - 1]), turns[|turns| - 1])
  }

  function MadeIn(f: Face, t: Turn): Made { Made(Saw(f, t), t.nowMs, |Next(f, t).prog.all|) }

  /** The decisions of these calls, determined by the state before them and by what they meet. */
  function Calls(f: Face, turns: seq<Turn>): seq<Made>
    decreases |turns|
  {
    if turns == [] then []
    else
      var n := |turns| - 1;
      Calls(f, turns[..n]) + [MadeIn(After(f, turns[..n]), turns[n])]
  }

  /** The FIFO laps none of these calls. */
  predicate Unlapped(f: Face, turns: seq<Turn>)
    decreases |turns|
  {
    turns == [] ||
    var n := |turns| - 1;
    Unlapped(f, turns[..n]) && !Laps(After(f, turns[..n]), turns[n])
  }

  /** The bytes that these calls drain: each with the sampled bit it begins with, and with the readings of the
      clock that its own call makes. */
  function Drawn(f: Face, turns: seq<Turn>): seq<Stamp>
    decreases |turns|
  {
    if turns == [] then []
    else
      var n := |turns| - 1;
      Drawn(f, turns[..n]) + DrawnIn(After(f, turns[..n]), turns[n])
  }

  function DrawnIn(f: Face, t: Turn): seq<Stamp> { Stamps(f.prog.epoch + 8 * f.taken, Ready(f, t), t.us) }

  predicate AllHarmless(calls: seq<Made>) { forall m :: m in calls ==> Harmless(m) }
  predicate NoneDoubling(calls: seq<Made>) { forall m :: m in calls ==> !Doubling(m) }

  lemma NoTurns(f: Face)
    ensures After(f, []) == f && Calls(f, []) == [] && Drawn(f, []) == [] && Unlapped(f, []) && AllHarmless([]) && NoneDoubling([])
  {}

  lemma OneTurnMore(f: Face, turns: seq<Turn>, i: nat)
    requires i < |turns|
    ensures var g, t := After(f, turns[..i]), turns[i];
            && After(f, turns[..i + 1]) == Next(g, t)
            && Drawn(f, turns[..i + 1]) == Drawn(f, turns[..i]) + DrawnIn(g, t)
            && (Unlapped(f, turns[..i + 1]) <==> Unlapped(f, turns[..i]) && !Laps(g, t))
            && (AllHarmless(Calls(f, turns[..i + 1])) <==> AllHarmless(Calls(f, turns[..i])) && Harmless(MadeIn(g, t)))
            && (NoneDoubling(Calls(f, turns[..i + 1])) <==>
                  NoneDoubling(Calls(f, turns[..i])) && !Doubling(MadeIn(g, t)))
  {
    hide Next, Laps, Harmless, Doubling, Saw, DrawnIn;
    assert turns[..i + 1][..i] == turns[..i];
    InSnoc(Calls(f, turns[..i]), MadeIn(After(f, turns[..i]), turns[i]));
  }

  lemma DrawnIs(f: Face, t: Turn)
    ensures DrawnIn(f, t) == Stamps(f.prog.epoch + 8 * f.taken, Ready(f, t), t.us)
  {}

  lemma Regroup(a: seq<Stamp>, b: seq<Stamp>, c: seq<Stamp>)
    ensures a + (b + c) == a + b + c
  {}

  lemma InSnoc(calls: seq<Made>, m: Made)
    ensures forall x :: x in calls + [m] <==> x in calls || x == m
  {}

  /** The room for the output of a call. */
  datatype Space = Space(write: nat, src: nat, dst: nat)

  /** Whole runs: any number of calls, the program going on between any two register reads. As long as no
      record finds the staging ring full, what the calls decide is a function of the state before them, the
      clock readings and the samples. If the FIFO never laps, then nothing is lost or doubled exactly if
      every flush among them is harmless; and once all has been shipped the host has the bits of the pin
      if so, and only then unless some flush has sent bits twice. */
  method Session(s: ClockedSniffer, turns: seq<Turn>, usb: nat -> Space)
    requires s.Valid() && s.log.lost == s.log.twice == 0
    modifies s, s.burstBuf, s.blob
    ensures s.Valid() && s.log.base == old(s.log.base)
    ensures var f := old(s.Front());
            !s.log.dropped ==>
              && (s.log.clean <==> old(s.log.clean) && Unlapped(f, turns))
              && (s.log.clean ==>
                    && s.Front() == After(f, turns) && s.clock == old(s.clock) + Drawn(f, turns)
                    && (s.log.lost == s.log.twice == 0 <==> AllHarmless(Calls(f, turns))))
    ensures old(s.Timely() && s.Current()) ==> s.Timely() && s.Current()
    ensures var calls := Calls(old(s.Front()), turns);
            Finished(s) ==>
              && (AllHarmless(calls) ==> HostBits(s) == s.blob.all[s.log.base..])
              && (!AllHarmless(calls) && NoneDoubling(calls) ==> HostBits(s) != s.blob.all[s.log.base..])
  {
    hide ClockedSniffer.Valid, Decided, Harmless, Doubling, HostBits, After, Calls, Unlapped, AllHarmless, NoneDoubling,
         Next, Saw, Laps, Drawn, DrawnIn, ClockedSniffer.Timely, ClockedSniffer.Current, Placing;
    ghost var f := s.Front();
    assert s.clock + [] == s.clock;
    NoTurns(f);
    assert turns[..0] == [];
    for i := 0 to |turns|
      invariant s.Valid() && s.log.base == old(s.log.base)
      invariant old(s.Timely() && s.Current()) ==> s.Timely() && s.Current()
      invariant !s.log.dropped ==> (s.log.clean <==> old(s.log.clean) && Unlapped(f, turns[..i]))
      invariant s.log.clean && !s.log.dropped ==>
                  && s.Front() == After(f, turns[..i]) && s.clock == old(s.clock) + Drawn(f, turns[..i])
                  && (s.log.lost == s.log.twice == 0 <==> AllHarmless(Calls(f, turns[..i])))
                  && (s.log.twice == 0 <==> NoneDoubling(Calls(f, turns[..i])))
    {
      ghost var log, restarts, g := s.log, s.blob.restarts, s.Front();
      var t := turns[i];
      OneTurnMore(f, turns, i);
      var out, c := s.Service(t.nowMs, t.levels, t.us, usb(i).write, usb(i).src, usb(i).dst);
      assert Turn(t.nowMs, t.levels, t.us) == t;
      DrawnIs(g, t);
      Regroup(old(s.clock), Drawn(f, turns[..i]), DrawnIn(g, t));
      if s.log.clean {
        CallCounts(Made(c, t.nowMs, |s.blob.all|), restarts, s.blob.restarts, log, s.log);
      }
    }
    assert turns[..|turns|] == turns;
    if Finished(s) {
      HostCounts(s);
    }
  }

  /** One call, as the books show it. */
  lemma CallCounts(m: Made, restarts: seq<nat>, restarts': seq<nat>, log: Log, log': Log)
    requires Decided(m.c, m.nowMs, restarts, restarts', log, log', m.samples) && log'.clean
    ensures log.lost <= log'.lost && log.twice <= log'.twice
    ensures log'.lost == log.lost && log'.twice == log.twice <==> Harmless(m)
    ensures log'.twice > log.twice <==> Doubling(m)
  {
    hide Flushes;
  }

  /** If the clock has stopped when HEAD is read, a flush is harmless exactly if the program waits for the next
      sample; bits are sent twice exactly if it has published a byte and not yet seeded ACC. */
  lemma StoppedClock(f: Face, t: Turn)
    requires Sound(f.prog) && f.taken <= HeadOf(Ahead(f.prog, t.levels(0)))
    requires forall i :: i > 0 ==> t.levels(i) == []
    ensures var m, phase := MadeIn(f, t), Ahead(f.prog, t.levels(0)).phase;
            && (Harmless(m) <==> !Flushes(m.c, m.nowMs) || phase < FULL)
            && (Doubling(m) <==> Flushes(m.c, m.nowMs) && phase == PUBLISHED)
  {
    var g := Onward(f, t.levels(0));
    AheadSound(f.prog, t.levels(0));
    var n := Waits(g);
    NoSteps(g.prog);
    StillDrain(g, n, t.levels, t.us);
    if g.prog.phase < FULL {
      PendingCount(g.prog);
    }
    hide Ahead, Top, AccOf, Drained;
  }

  lemma HostCounts(s: ClockedSniffer)
    requires Finished(s)
    ensures s.log.base <= |s.blob.all|
    ensures s.log.lost == 0 || s.log.twice == 0 ==>
              (HostBits(s) == s.blob.all[s.log.base..] <==> s.log.lost == s.log.twice)
  {
    hide ClockedSniffer.Valid;
    HostReportsThePin(s);
  }

  /** No flush: the counts stand. A sample too late: one is lost, and nothing doubled. */
  lemma CountsMove(c: Call, nowMs: uint32, restarts: seq<nat>, restarts': seq<nat>, log: Log, log': Log, samples: nat)
    requires Decided(c, nowMs, restarts, restarts', log, log', samples) && log'.clean
    ensures !Flushes(c, nowMs) ==> log'.lost == log.lost && log'.twice == log.twice
    ensures Flushes(c, nowMs) && c.end < c.at < samples ==> log'.lost > log.lost && log'.twice == log.twice
  {
    hide Flushes;
  }

  ghost function HostBits(s: ClockedSniffer): seq<bit>
    reads s
  {
    BitsOf(Bursts(NO_CHAIN, RecordsOf(RecsOf(Demux([], s.log.shipped)))))
  }

  /** Everything that happened has been shipped. */
  ghost predicate Finished(s: ClockedSniffer)
    reads s, s.blob, s.burstBuf
  {
    && s.Valid() && s.log.clean && !s.log.dropped && s.burstN == 0 && !s.burstNeedTerminal && s.ring == []
    && |s.blob.all| == s.blob.epoch + 8 * s.taken
  }

  /** Stage 2 until the staging ring is empty. */
  method ShipAll(s: ClockedSniffer)
    requires s.Valid() && s.log.clean && !s.log.dropped && s.burstN == 0 && !s.burstNeedTerminal
    requires |s.blob.all| == s.blob.epoch + 8 * s.taken
    modifies s
    ensures Finished(s) && s.log.base == old(s.log.base)
    ensures s.log.lost == old(s.log.lost) && s.log.twice == old(s.log.twice)
  {
    hide ClockedSniffer.Valid;
    while s.ring != []
      invariant s.Valid() && s.log.clean && !s.log.dropped && s.burstN == 0 && !s.burstNeedTerminal
      invariant |s.blob.all| == s.blob.epoch + 8 * s.taken
      invariant s.log.lost == old(s.log.lost) && s.log.twice == old(s.log.twice) && s.log.base == old(s.log.base)
      decreases |s.ring|
    {
      var out := s.DrainToUsb(512, 2048, 512);
    }
  }

  // ---- two runs that lose a sample -------------------------------------------------------

  /** A turn of the program is eleven steps: eight samples, store, publish, wrap. */
  lemma {:induction false} OneTurn(p: nat, k: nat)
    requires p <= 3 && k <= 11
    ensures p + k <= 8 ==> Samples(p, k) == k && Stores(p, k) == 0
    ensures 9 <= p + k <= 11 ==> Samples(p, k) == 8 - p && Stores(p, k) == 1
    ensures p + k > 11 ==> Samples(p, k) == k - 3 && Stores(p, k) == 1
    ensures At(p, k) == if p + k < 11 then p + k else p + k - 11
    decreases k
  {
    if k > 0 {
      OneTurn(p, k - 1);
    }
  }

  /** Eight samples are one stored byte. */
  lemma {:induction false} StepsAdd(p: nat, k: nat)
    requires p <= PUBLISHED
    ensures At(p, k) <= PUBLISHED && (At(p, k) >= STORED && p < STORED ==> Stores(p, k) > 0)
    ensures 8 * Stores(p, k) + (if At(p, k) <= FULL then At(p, k) else 0) ==
            (if p <= FULL then p else 0) + Samples(p, k)
    decreases k
  {
    AtNext(p, 0);
    if k > 0 {
      StepsAdd(p, k - 1);
      AtNext(p, k - 1);
      hide At;
    }
  }

  lemma AheadSound(p: Prog, levels: seq<bit>)
    requires Sound(p)
    ensures Sound(Ahead(p, levels))
  {
    StepsAdd(p.phase, |levels|);
    hide At, Samples, Stores;
  }

  lemma ThreeMore()
    ensures At(0, 14) == 3 && Samples(0, 14) == 11 && Stores(0, 14) == 1
  {
    OneTurn(0, 11);
    hide Samples, Stores, At;
    StepMore(0, 11);
    StepMore(0, 12);
    StepMore(0, 13);
    AtNext(0, 11);
    AtNext(0, 12);
    AtNext(0, 13);
  }

  lemma StepMore(p: nat, k: nat)
    ensures Samples(p, k + 1) == Samples(p, k) + if At(p, k) < FULL then 1 else 0
    ensures Stores(p, k + 1) == Stores(p, k) + if At(p, k) == FULL then 1 else 0
  {}

  /** The program is at `phase` with n samples and `stored` bytes behind it, all since its only start. */
  ghost predicate Reached(s: ClockedSniffer, phase: nat, n: nat, stored: nat)
    reads s, s.blob
  {
    s.blob.View() == Prog(s.blob.all, 0, phase, stored) && |s.blob.all| == n
  }

  /** In order, with nothing lost, and the state is f but for the program. */
  ghost predicate Stands(s: ClockedSniffer, f: Face)
    reads s, s.blob, s.burstBuf
  {
    && s.Valid() && s.log.clean && !s.log.dropped && s.log.lost == s.log.twice == 0
    && s.Front() == f.(prog := s.blob.View())
  }

  /** A sniffer that has drained its first byte at 1 ms, with three more samples pending. */
  method FirstByte() returns (s: ClockedSniffer)
    ensures fresh(s) && fresh(s.blob) && fresh(s.burstBuf) && |s.ring| <= 49
    ensures Stands(s, Running(0)) && Reached(s, 3, 11, 1)
  {
    hide ClockedSniffer.Valid, Blob.Valid, Wire, At, Samples, Stores, Decided, Saw, Next, Laps, Collected, Ready,
         RoomUsed;
    var blob := new Blob();
    s := new ClockedSniffer(blob, 0);
    MarkerFits();
    ThreeMore();
    s.RunOn(seq(14, _ => 1));
    ghost var f, log, restarts := s.Front(), s.log, s.blob.restarts;
    var t := Turn(1, _ => [], _ => 1000);
    FirstTurn(f, t);
    var out, c := s.Service(t.nowMs, t.levels, t.us, 512, 2048, 512);
    CountsMove(c, 1, restarts, s.blob.restarts, log, s.log, |s.blob.all|);
  }

  lemma FirstTurn(f: Face, t: Turn)
    requires f == Face(false, false, 0, 0, 0, 0, 0, 0, f.prog) && f.prog == Prog(f.prog.all, 0, 3, 1)
    requires |f.prog.all| == 11 && t.nowMs == 1 && (forall i :: t.levels(i) == []) && forall i :: t.us(i) == 1000
    ensures !Laps(f, t) && Next(f, t) == Running(0).(prog := f.prog) && !Flushes(Saw(f, t), 1)
    ensures RoomUsed(Saw(f, t), Collected(f, t).t0, 1, 1000) == 0
  {
    StillTurn(f, t, 1);
    PendingCount(f.prog);
    hide Laps, Collected, Ready, AccOf, Top;
  }

  /** The ordinary idle branch: no byte for 4 ms, as with any clock slower than a byte in 3 ms, and
      a sample between the reading of ACC and the restart. */
  method IdleFlush() returns (s: ClockedSniffer)
    ensures fresh(s) && Finished(s) && HostBits(s) != s.blob.all[s.log.base..]
  {
    hide ClockedSniffer.Valid, Blob.Valid, Wire, Decided, Saw, Next, Laps, Collected, Ready, RoomUsed, HostBits, At,
         Samples, Stores;
    s := FirstByte();
    ghost var f, log, restarts := s.Front(), s.log, s.blob.restarts;
    var t := Turn(5, (i: nat) => if i == 2 then [1] else [], _ => 5000);
    LateSample(f, t);
    var out, c := s.Service(t.nowMs, t.levels, t.us, 512, 2048, 512);
    CountsMove(c, 5, restarts, s.blob.restarts, log, s.log, |s.blob.all|);
    ShipAll(s);
    LostOne(s);
  }

  /** A flush with one sample between the reading of ACC and the restart. */
  lemma LateSample(f: Face, t: Turn)
    requires f.prog == Prog(f.prog.all, 0, f.prog.phase, f.taken) && f.prog.phase in {3, 4} && !f.need
    requires |f.prog.all| == 8 * f.taken + f.prog.phase && f.n < BURST_MAX && f.lastMs <= t.nowMs && f.seenBits > 0
    requires t.nowMs - (if f.open then f.lastMs else f.seenMs) > 3 && f.seenMs <= t.nowMs
    requires forall i :: t.levels(i) == if i == 2 then [1] else []
    ensures !Laps(f, t) && Flushes(Saw(f, t), t.nowMs) && Saw(f, t).end < Saw(f, t).at
    ensures var g := Next(f, t);
            && !g.open && !g.need && g.n == 0 && g.taken == 0 && g.prog.epoch == |g.prog.all|
            && |g.prog.all| == |f.prog.all| + 1 && Saw(f, t).at == |f.prog.all|
  {
    StillTurn(f, t, 0);
    PendingCount(f.prog);
    OneMore(f.prog);
    var w := Deciding(f, t);
    assert w == f.(seenBits := f.prog.phase);
    hide Laps, Collected, Ready, AccOf, Top, Ahead, Watched, Deciding;
  }

  lemma OneMore(p: Prog)
    requires p.phase < FULL
    ensures |Ahead(p, [1]).all| == |p.all| + 1
  {
    StepMore(p.phase, 0);
    AtNext(p.phase, 0);
  }

  lemma LostOne(s: ClockedSniffer)
    requires Finished(s) && s.log.lost > 0 == s.log.twice
    ensures HostBits(s) != s.blob.all[s.log.base..]
  {
    hide ClockedSniffer.Valid, HostBits;
    HostCounts(s);
  }

  /** The time cap: a byte every 3 ms, each drained by a call of its own with three samples pending
      behind it, until at 52 ms the cap cuts the burst. The next call, half a millisecond later,
      drains nothing: it takes the pending samples for a line idle since 1 ms, and the program takes
      one more sample before it is restarted. */
  method TimeCapFlush() returns (s: ClockedSniffer)
    ensures fresh(s) && Finished(s) && HostBits(s) != s.blob.all[s.log.base..]
  {
    hide ClockedSniffer.Valid, Blob.Valid, Wire, Decided, Saw, Next, Laps, Collected, Ready, RoomUsed, HostBits, At,
         Samples, Stores;
    s := FirstByte();
    var k := 0;
    while k < LAST
      invariant k <= LAST && fresh(s) && fresh(s.blob) && fresh(s.burstBuf)
      invariant Stands(s, Running(k)) && Reached(s, 3, 11 + 8 * k, 1 + k)
      invariant |s.ring| <= if k == LAST then 73 + ENC_MAX else 49
    {
      NextByte(s, k);
      k := k + 1;
    }
    OneTurn(3, 1);
    s.RunOn([1]);
    ghost var f, log, restarts := s.Front(), s.log, s.blob.restarts;
    var t := Turn(52, (i: nat) => if i == 2 then [1] else [], _ => 52500);
    LateSample(f, t);
    var out, c := s.Service(t.nowMs, t.levels, t.us, 512, 2048, 512);
    CountsMove(c, 52, restarts, s.blob.restarts, log, s.log, |s.blob.all|);
    ShipAll(s);
    LostOne(s);
  }

  /** The number of the byte that meets the time cap. */
  const LAST: nat := 17

  /** k bytes after the first; the program aside. */
  function Running(k: nat): Face {
    var prog := Prog([], 0, 0, 0);
    if k < LAST then Face(true, false, 1 + k, 1000, 1 + 3 * k, 3, 1, 1 + k, prog)
    else Face(false, false, 0, 1000, 52, 3, 1, 18, prog)
  }

  /** 3 ms later the next byte is complete, and three samples are pending again. */
  method NextByte(s: ClockedSniffer, k: nat)
    requires k < LAST && |s.ring| <= 49 && Stands(s, Running(k)) && Reached(s, 3, 11 + 8 * k, 1 + k)
    modifies s, s.burstBuf, s.blob
    ensures Stands(s, Running(k + 1)) && Reached(s, 3, 19 + 8 * k, 2 + k)
    ensures |s.ring| <= if k + 1 == LAST then 73 + ENC_MAX else 49
  {
    hide ClockedSniffer.Valid, Blob.Valid, Wire, Decided, Saw, Next, Laps, Collected, Ready, RoomUsed, At, Samples,
         Stores;
    var ms := 4 + 3 * k;
    OneTurn(3, 11);
    s.RunOn(seq(11, _ => 1));
    ghost var f, log, restarts := s.Front(), s.log, s.blob.restarts;
    var t := Turn(ms, _ => [], _ => 1000 * ms);
    NextTurn(k, f, t);
    var out, c := s.Service(t.nowMs, t.levels, t.us, 512, 2048, 512);
    CountsMove(c, ms, restarts, s.blob.restarts, log, s.log, |s.blob.all|);
  }

  lemma NextTurn(k: nat, f: Face, t: Turn)
    requires k < LAST && f == Running(k).(prog := f.prog) && f.prog == Prog(f.prog.all, 0, 3, 2 + k)
    requires |f.prog.all| == 19 + 8 * k && t.nowMs == 4 + 3 * k
    requires (forall i :: t.levels(i) == []) && forall i :: t.us(i) == 1000 * t.nowMs
    ensures !Laps(f, t) && Next(f, t) == Running(k + 1).(prog := f.prog) && !Flushes(Saw(f, t), t.nowMs)
    ensures RoomUsed(Saw(f, t), Collected(f, t).t0, t.nowMs, 1000 * t.nowMs) == if k + 1 == LAST then ENC_MAX else 0
  {
    StillTurn(f, t, 1);
    PendingCount(f.prog);
    hide Laps, Collected, Ready, AccOf, Top;
  }
}
