/** Run lengths on the wire: the capture program's run bytes (pioc/rle_sniffer.ASM), the
    firmware's idle squelch, and the host's two ways of getting runs back
    (scripts/can_rle_decode.py). */
module RunCodec {
  import opened Bytes

  const CAP: nat := 128                     // a continuation byte: +128 ticks, same level
  /** A run byte, or the mark for a hard cut. */
  type item = b: int | -1 <= b < 256
  const IDLE_BOUNDARY: item := -1
  const BOUNDARY_RUN: nat := 0x4000_0000
  const BIN_BOUNDARY: byte := 0xFF
  const BIN_DIAG: byte := 0xFE
  const BIN_LOSS: byte := 0xFD
  const BRACKET: byte := 0x5B

  // ---- the device's encoding ---------------------------------------------------------------

  /** One run: continuation bytes, then the terminal byte. */
  function RunBytes(t: nat): (s: seq<byte>)
  {
    if t >= CAP then [CAP] + RunBytes(t - CAP) else [t]
  }

  function RunsBytes(runs: seq<nat>): seq<byte> {
    if runs == [] then [] else RunBytes(runs[0]) + RunsBytes(runs[1..])
  }

  /** The program's counting loop: it watches one level and has counted cnt ticks of it. The
      sample that shows the change of level is not counted. */
  function BlobBytes(samples: seq<bit>, level: bit, cnt: nat): seq<byte>
    requires cnt < CAP
    decreases |samples|
  {
    if samples == [] then []
    else if samples[0] != level then [cnt] + BlobBytes(samples[1..], 1 - level, 0)
    else if cnt + 1 == CAP then [CAP] + BlobBytes(samples[1..], level, 0)
    else BlobBytes(samples[1..], level, cnt + 1)
  }

  /** The counted lengths of the finished level blocks, n ticks of the open one counted. */
  function Counted(samples: seq<bit>, level: bit, n: nat): seq<nat>
    decreases |samples|
  {
    if samples == [] then []
    else if samples[0] != level then [n] + Counted(samples[1..], 1 - level, 0)
    else Counted(samples[1..], level, n + 1)
  }

  /** HIGH / LOW loops of the program, from MCU_START. */
  method RunBlob(samples: seq<bit>) returns (fifo: seq<byte>)
    ensures fifo == BlobBytes(samples, 1, 0)
  {
    hide BlobBytes;
    fifo := [];
    var level: bit, cnt: nat := 1, 0;
    assert samples[0..] == samples;
    assert fifo + BlobBytes(samples, 1, 0) == BlobBytes(samples, 1, 0);
    for i := 0 to |samples|
      invariant cnt < CAP
      invariant fifo + BlobBytes(samples[i..], level, cnt) == BlobBytes(samples, 1, 0)
    {
      BlobStep(samples, i, level, cnt);
      if samples[i] != level {               // the edge: store the count, flip the level
        AssocBytes(fifo, [cnt], BlobBytes(samples[i + 1..], 1 - level, 0));
        fifo := fifo + [cnt];
        cnt := 0;
        level := 1 - level;
      } else {
        cnt := cnt + 1;
        if cnt == CAP {                      // bit 7 set: a continuation byte
          AssocBytes(fifo, [CAP], BlobBytes(samples[i + 1..], level, 0));
          fifo := fifo + [cnt];
          cnt := 0;
        }
      }
    }
    BlobEnd(samples[|samples|..], level, cnt);
  }

  lemma BlobStep(samples: seq<bit>, i: nat, level: bit, cnt: nat)
    requires i < |samples| && cnt < CAP
    ensures BlobBytes(samples[i..], level, cnt) ==
            if samples[i] != level then [cnt] + BlobBytes(samples[i + 1..], 1 - level, 0)
            else if cnt + 1 == CAP then [CAP] + BlobBytes(samples[i + 1..], level, 0)
            else BlobBytes(samples[i + 1..], level, cnt + 1)
  {
    assert samples[i..][1..] == samples[i + 1..];
  }

  lemma BlobEnd(samples: seq<bit>, level: bit, cnt: nat)
    requires samples == [] && cnt < CAP
    ensures BlobBytes(samples, level, cnt) == []
  {}

  lemma AssocBytes(a: seq<byte>, b: seq<byte>, c: seq<byte>)
    ensures a + (b + c) == (a + b) + c
  {}

  // ---- the host's reconstruction -----------------------------------------------------------

  /** reconstruct_continuation, with acc ticks already summed. */
  function Rebuild(items: seq<item>, acc: nat): seq<nat>
    decreases |items|
  {
    if items == [] then []
    else if items[0] == IDLE_BOUNDARY then (if acc > 0 then [acc] else []) + [BOUNDARY_RUN] + Rebuild(items[1..], 0)
    else if items[0] >= CAP then Rebuild(items[1..], acc + CAP)
    else [acc + items[0]] + Rebuild(items[1..], 0)
  }

  method ReconstructContinuation(items: seq<item>) returns (runs: seq<nat>)
    ensures runs == Rebuild(items, 0)
  {
    hide Rebuild;
    runs := [];
    var acc: nat := 0;
    assert items[0..] == items && runs + Rebuild(items, 0) == Rebuild(items, 0);
    for i := 0 to |items|
      invariant runs + Rebuild(items[i..], acc) == Rebuild(items, 0)
    {
      RebuildStep(items, i, acc);
      var b := items[i];
      ghost var before := runs;
      if b == IDLE_BOUNDARY {
        ghost var mark := if acc > 0 then [acc, BOUNDARY_RUN] else [BOUNDARY_RUN];
        AssocRuns(before, mark, Rebuild(items[i + 1..], 0));
        if acc > 0 {
          runs := runs + [acc];
          acc := 0;
        }
        runs := runs + [BOUNDARY_RUN];
        assert runs == before + mark;
      } else if b >= CAP {
        acc := acc + CAP;
      } else {
        runs := runs + [acc + b];
        AssocRuns(before, [acc + b], Rebuild(items[i + 1..], 0));
        acc := 0;
      }
    }
    RebuildEnd(items[|items|..], acc);
  }

  lemma RebuildStep(items: seq<item>, i: nat, acc: nat)
    requires i < |items|
    ensures var rest := items[i + 1..];
            Rebuild(items[i..], acc) ==
            if items[i] == IDLE_BOUNDARY then
              (if acc > 0 then [acc, BOUNDARY_RUN] else [BOUNDARY_RUN]) + Rebuild(rest, 0)
            else if items[i] >= CAP then Rebuild(rest, acc + CAP)
            else [acc + items[i]] + Rebuild(rest, 0)
  {
    assert items[i..][1..] == items[i + 1..];
    assert [acc] + [BOUNDARY_RUN] == [acc, BOUNDARY_RUN];
  }

  lemma RebuildEnd(items: seq<item>, acc: nat)
    requires items == []
    ensures Rebuild(items, acc) == []
  {}

  lemma AssocRuns(a: seq<nat>, b: seq<nat>, c: seq<nat>)
    ensures a + (b + c) == (a + b) + c
  {}

  /** Reconstruction inverts the device's encoding of any list of run lengths. */
  lemma {:induction false} RebuildRun(t: nat, acc: nat, rest: seq<item>)
    ensures Rebuild(RunBytes(t) + rest, acc) == [acc + t] + Rebuild(rest, 0)
    decreases t
  {
    if t >= CAP {
      RebuildRun(t - CAP, acc + CAP, rest);
      hide Rebuild;
      var items := RunBytes(t) + rest;
      RebuildStep(items, 0, acc);
      assert items[0..] == items && items[1..] == RunBytes(t - CAP) + rest;
    } else {
      var items := [t] + rest;
      hide Rebuild;
      RebuildStep(items, 0, acc);
      assert items[0..] == items && items[1..] == rest;
    }
  }

  lemma {:induction false} RebuildRuns(runs: seq<nat>)
    ensures Rebuild(RunsBytes(runs), 0) == runs
    decreases |runs|
  {
    hide RunBytes, Rebuild;
    if runs == [] {
      RebuildEnd([], 0);
    } else {
      RebuildRuns(runs[1..]);
      RebuildRun(runs[0], 0, RunsBytes(runs[1..]));
    }
  }

  /** What the program stores is the encoding of the counted lengths, and only bytes up to
      0x80, so every value above is free for markers. */
  lemma {:induction false} BlobCounts(samples: seq<bit>, level: bit, acc: nat, cnt: nat)
    requires cnt < CAP
    ensures forall b :: b in BlobBytes(samples, level, cnt) ==> b <= CAP
    ensures Rebuild(BlobBytes(samples, level, cnt), acc) == Counted(samples, level, acc + cnt)
    decreases |samples|
  {
    hide Rebuild;
    var items := BlobBytes(samples, level, cnt);
    if samples == [] {
      RebuildEnd([], acc);
    } else if samples[0] != level {
      BlobCounts(samples[1..], 1 - level, 0, 0);
      RebuildStep(items, 0, acc);
      assert items[0..] == items && items[1..] == BlobBytes(samples[1..], 1 - level, 0);
    } else if cnt + 1 == CAP {
      BlobCounts(samples[1..], level, acc + CAP, 0);
      RebuildStep(items, 0, acc);
      assert items[0..] == items && items[1..] == BlobBytes(samples[1..], level, 0);
    } else {
      BlobCounts(samples[1..], level, acc, cnt + 1);
    }
  }

  /** The ticks counted so far of the block that is still open at the end. */
  function OpenBlock(samples: seq<bit>, level: bit, n: nat): nat
    decreases |samples|
  {
    if samples == [] then n
    else if samples[0] != level then OpenBlock(samples[1..], 1 - level, 0)
    else OpenBlock(samples[1..], level, n + 1)
  }

  function Caps(m: nat): (s: seq<byte>)
    ensures |s| == m
  {
    seq(m, _ => CAP)
  }

  lemma {:induction false} RunOfCaps(j: nat, t: nat)
    ensures RunBytes(CAP * j + t) == Caps(j) + RunBytes(t)
    decreases j
  {
    if j == 0 {
      assert Caps(0) + RunBytes(t) == RunBytes(t);
    } else {
      RunOfCaps(j - 1, t);
      assert CAP * j + t - CAP == CAP * (j - 1) + t;
      assert [CAP] + (Caps(j - 1) + RunBytes(t)) == Caps(j) + RunBytes(t);
    }
  }

  /** The stored bytes are the encoded lengths of the finished blocks, then the continuation
      bytes of the open one; j of the latter are already stored in front. */
  lemma {:induction false} BlobIsRuns(samples: seq<bit>, level: bit, j: nat, cnt: nat)
    requires cnt < CAP
    ensures Caps(j) + BlobBytes(samples, level, cnt) ==
            RunsBytes(Counted(samples, level, CAP * j + cnt)) + Caps(OpenBlock(samples, level, CAP * j + cnt) / CAP)
    decreases |samples|
  {
    hide RunBytes;
    if samples == [] {
      assert (CAP * j + cnt) / CAP == j;
    } else if samples[0] != level {
      BlobIsRuns(samples[1..], 1 - level, 0, 0);
      RunOfCaps(j, cnt);
      RunShort(cnt);
      var later := BlobBytes(samples[1..], 1 - level, 0);
      assert Caps(0) + later == later;
      AssocBytes(Caps(j), [cnt], later);
      var runs := Counted(samples[1..], 1 - level, 0);
      AssocBytes(RunBytes(CAP * j + cnt), RunsBytes(runs), Caps(OpenBlock(samples[1..], 1 - level, 0) / CAP));
      assert ([CAP * j + cnt] + runs)[1..] == runs;
    } else if cnt + 1 == CAP {
      BlobIsRuns(samples[1..], level, j + 1, 0);
      assert CAP * (j + 1) + 0 == CAP * j + cnt + 1;
      assert Caps(j + 1) == Caps(j) + [CAP];
      AssocBytes(Caps(j), [CAP], BlobBytes(samples[1..], level, 0));
    } else {
      BlobIsRuns(samples[1..], level, j, cnt + 1);
      assert CAP * j + (cnt + 1) == CAP * j + cnt + 1;
    }
  }

  lemma RunShort(t: nat)
    requires t < CAP
    ensures RunBytes(t) == [t]
  {}

  /** A line that holds each level for the given number of samples, alternating. */
  function Spread(lens: seq<nat>, level: bit): seq<bit> {
    if lens == [] then [] else Held(level, lens[0]) + Spread(lens[1..], 1 - level)
  }

  function Held(level: bit, n: nat): (bits: seq<bit>)
    ensures |bits| == n && forall i :: 0 <= i < n ==> bits[i] == level
  {
    seq(n, _ => level)
  }

  lemma {:induction false} CountHeld(level: bit, m: nat, n: nat, rest: seq<bit>)
    ensures Counted(Held(level, m) + rest, level, n) == Counted(rest, level, n + m)
    decreases m
  {
    var samples := Held(level, m) + rest;
    if m == 0 {
      assert samples == rest;
    } else {
      CountHeld(level, m - 1, n + 1, rest);
      assert samples[1..] == Held(level, m - 1) + rest;
    }
  }

  /** Every finished block is reported; all but the first one sample short, the sample that
      ended the block before it. */
  function Reported(lens: seq<nat>): seq<nat>
    requires forall i :: 1 <= i < |lens| ==> lens[i] >= 1
    decreases |lens|
  {
    if |lens| <= 1 then [] else [lens[0]] + Reported([lens[1] - 1] + lens[2..])
  }

  lemma {:induction false} CountedBlocks(lens: seq<nat>, level: bit)
    requires forall i :: 1 <= i < |lens| ==> lens[i] >= 1
    ensures Counted(Spread(lens, level), level, 0) == Reported(lens)
    decreases |lens|
  {
    if lens != [] {
      var rest := Spread(lens[1..], 1 - level);
      CountHeld(level, lens[0], 0, rest);
      if |lens| > 1 {
        var shorter := [lens[1] - 1] + lens[2..];
        CountedBlocks(shorter, 1 - level);
        assert lens[1..][1..] == lens[2..] && shorter[1..] == lens[2..];
        assert rest[1..] == Spread(shorter, 1 - level);
      }
    }
  }

  // ---- from a byte stream to items ---------------------------------------------------------

  /** Behind the closing 0xFE of a metadata block, or nothing if it is never closed. */
  function AfterBlock(s: seq<byte>): (r: seq<byte>)
    ensures |r| <= |s|
  {
    if s == [] then [] else if s[0] == BIN_DIAG then s[1..] else AfterBlock(s[1..])
  }

  /** The run bytes and boundaries of a capture. */
  function ItemsOf(data: seq<byte>): (items: seq<item>)
    decreases |data|
  {
    if data == [] then []
    else if data[0] == BIN_BOUNDARY || data[0] == BIN_LOSS then [IDLE_BOUNDARY] + ItemsOf(data[1..])
    else if data[0] == BIN_DIAG && |data| > 1 && data[1] == BRACKET then ItemsOf(AfterBlock(data[2..]))
    else if data[0] <= CAP then [data[0]] + ItemsOf(data[1..])
    else ItemsOf(data[1..])
  }

  /** The segments of a capture with a boundary between any two. */
  function Joined(segs: seq<seq<byte>>): (items: seq<item>)
  {
    if segs == [] then []
    else Joined(segs[..|segs| - 1]) + (if |segs| > 1 then [IDLE_BOUNDARY] else []) + segs[|segs| - 1]
  }

  /** data[i..], also just past the end. */
  function Rest(data: seq<byte>, i: nat): seq<byte> { if i <= |data| then data[i..] else [] }

  /** capture_to_runs. */
  method CaptureToRuns(data: seq<byte>) returns (runs: seq<nat>)
    ensures runs == Rebuild(ItemsOf(data), 0)
  {
    hide ItemsOf, Rebuild, Joined, AfterBlock;
    var segs: seq<seq<byte>> := [];
    var cur: seq<byte> := [];
    var i, n := 0, |data|;
    assert data[0..] == data;
    JoinedFirst();
    assert segs + [cur] == [[]] && [] + ItemsOf(data) == ItemsOf(data);
    while i < n
      invariant i <= n + 1
      invariant Joined(segs + [cur]) + ItemsOf(Rest(data, i)) == ItemsOf(data)
    {
      var b := data[i];
      ItemsStep(data, i);
      if b == BIN_BOUNDARY || b == BIN_LOSS {
        JoinedBoundary(segs, cur);
        AssocItems(Joined(segs + [cur]), [IDLE_BOUNDARY], ItemsOf(Rest(data, i + 1)));
        segs, cur := segs + [cur], [];
      } else if b == BIN_DIAG && i + 1 < n && data[i + 1] == BRACKET {
        i := i + 2;
        ghost var from := i;
        while i < n && data[i] != BIN_DIAG
          invariant from <= i <= n && AfterBlock(data[i..]) == AfterBlock(data[from..])
        {
          AfterStep(data, i);
          i := i + 1;
        }
        AfterStep(data, i);
      } else if b <= CAP {
        JoinedByte(segs, cur, b);
        AssocItems(Joined(segs + [cur]), [b], ItemsOf(Rest(data, i + 1)));
        cur := cur + [b];
      }
      i := i + 1;
    }
    ItemsEnd(Rest(data, i));
    segs := segs + [cur];
    assert Joined(segs) + [] == Joined(segs);
    var items := JoinSegments(segs);
    runs := ReconstructContinuation(items);
  }

  /** The items list: a boundary in front of every segment but the first. */
  method JoinSegments(segs: seq<seq<byte>>) returns (items: seq<item>)
    ensures items == Joined(segs)
  {
    items := [];
    for si := 0 to |segs|
      invariant items == Joined(segs[..si])
    {
      assert segs[..si + 1][..si] == segs[..si];
      if si > 0 {
        items := items + [IDLE_BOUNDARY];
      }
      assert items + [] == items;
      items := items + segs[si];
    }
    assert segs[..|segs|] == segs;
  }

  lemma ItemsStep(data: seq<byte>, i: nat)
    requires i < |data|
    ensures var b, rest := data[i], Rest(data, i + 1);
            ItemsOf(Rest(data, i)) ==
            if b == BIN_BOUNDARY || b == BIN_LOSS then [IDLE_BOUNDARY] + ItemsOf(rest)
            else if b == BIN_DIAG && i + 1 < |data| && data[i + 1] == BRACKET then ItemsOf(AfterBlock(data[i + 2..]))
            else if b <= CAP then [b] + ItemsOf(rest)
            else ItemsOf(rest)
  {
    assert data[i..][1..] == data[i + 1..];
    if i + 1 < |data| {
      assert data[i..][2..] == data[i + 2..];
    }
  }

  lemma ItemsEnd(data: seq<byte>)
    requires data == []
    ensures ItemsOf(data) == []
  {}

  lemma AfterStep(data: seq<byte>, i: nat)
    requires i <= |data|
    ensures AfterBlock(data[i..]) ==
            if i == |data| || data[i] == BIN_DIAG then Rest(data, i + 1) else AfterBlock(data[i + 1..])
  {
    if i < |data| {
      assert data[i..][1..] == data[i + 1..];
    }
  }

  lemma JoinedFirst()
    ensures Joined([[]]) == []
  {
    var segs: seq<seq<byte>> := [[]];
    assert segs[..0] == [];
  }

  lemma JoinedBoundary(segs: seq<seq<byte>>, cur: seq<byte>)
    ensures Joined(segs + [cur] + [[]]) == Joined(segs + [cur]) + [IDLE_BOUNDARY]
  {
    var t := segs + [cur] + [[]];
    assert t[..|t| - 1] == segs + [cur];
  }

  lemma JoinedByte(segs: seq<seq<byte>>, cur: seq<byte>, b: byte)
    ensures Joined(segs + [cur + [b]]) == Joined(segs + [cur]) + [b]
  {
    assert (segs + [cur + [b]])[..|segs|] == segs && (segs + [cur])[..|segs|] == segs;
  }

  lemma AssocItems(a: seq<item>, b: seq<item>, c: seq<item>)
    ensures a + (b + c) == (a + b) + c
  {}

  // ---- the live reader -----------------------------------------------------------------------

  /** The byte loop's state: inside a metadata block; behind an unconfirmed 0xFE; ticks summed. */
  datatype Scan = Scan(inBlock: bool, fe: bool, cont: nat)

  const START := Scan(false, false, 0)

  /** What one byte does outside a block: the next state and the runs it ends. */
  function Plain(cont: nat, b: byte): (Scan, seq<nat>) {
    if b == BIN_DIAG then (Scan(false, true, cont), [])
    else if b == BIN_BOUNDARY || b == BIN_LOSS then
      (START, (if cont > 0 then [cont] else []) + [BOUNDARY_RUN])
    else if b == CAP then (Scan(false, false, cont + CAP), [])
    else if b < CAP then (START, [cont + b])
    else (Scan(false, false, cont), [])
  }

  function ScanByte(s: Scan, b: byte): (Scan, seq<nat>) {
    if s.inBlock then (if b == BIN_DIAG then s.(inBlock := false) else s, [])
    else if s.fe && b == BRACKET then (Scan(true, false, s.cont), [])
    else Plain(s.cont, b)
  }

  /** The runs the reader appends for `data`. */
  function ScanRuns(s: Scan, data: seq<byte>): seq<nat>
    decreases |data|
  {
    if data == [] then []
    else ScanByte(s, data[0]).1 + ScanRuns(ScanByte(s, data[0]).0, data[1..])
  }

  /** The reader of a live device; `runbuf` collects every run, `fed` every byte. */
  class Reader {
    var inBlock: bool
    var fe: bool
    var cont: nat
    var runbuf: seq<nat>
    ghost var fed: seq<byte>

    ghost function State(): Scan
      reads this
    {
      Scan(inBlock, fe, cont)
    }

    ghost predicate Valid()
      reads this
    {
      (inBlock ==> !fe) && Streams(State(), runbuf, fed)
    }

    constructor ()
      ensures Valid() && fed == [] && runbuf == []
    {
      inBlock, fe, cont, runbuf, fed := false, false, 0, [], [];
      new;
      StreamsNothing();
    }

    /** One chunk as os.read delivers it. */
    method Feed(chunk: seq<byte>)
      requires Valid()
      modifies this
      ensures Valid() && fed == old(fed) + chunk
      ensures runbuf == old(runbuf) + ScanRuns(old(State()), chunk)
    {
      hide Streams, ScanRuns, ScanByte;
      assert chunk[0..] == chunk;
      assert fed + chunk[..0] == fed;
      ghost var s0 := State();
      assert runbuf + ScanRuns(s0, chunk) == old(runbuf) + ScanRuns(s0, chunk);
      for i := 0 to |chunk|
        invariant Valid() && fed == old(fed) + chunk[..i]
        invariant runbuf + ScanRuns(State(), chunk[i..]) == old(runbuf) + ScanRuns(s0, chunk)
      {
        ScanStep(State(), runbuf, chunk, i);
        StreamsByte(State(), runbuf, fed, chunk[i]);
        TakeByte(chunk[i]);
        fed := fed + [chunk[i]];
        assert chunk[..i + 1] == chunk[..i] + [chunk[i]];
        assert fed == old(fed) + chunk[..i + 1];
      }
      assert chunk[..|chunk|] == chunk;
      ScanEnd(State(), chunk[|chunk|..]);
    }

    /** The body of the loop over the bytes of a chunk. */
    method TakeByte(b: byte)
      requires inBlock ==> !fe
      modifies this`inBlock, this`fe, this`cont, this`runbuf
      ensures State() == ScanByte(old(State()), b).0
      ensures runbuf == old(runbuf) + ScanByte(old(State()), b).1
      ensures inBlock ==> !fe
    {
      if inBlock {
        if b == BIN_DIAG {
          inBlock := false;
        }
        return;
      }
      if fe {
        fe := false;
        if b == BRACKET {
          inBlock := true;
          return;
        }
      }
      if b == BIN_DIAG {
        fe := true;
        return;
      }
      if b == BIN_BOUNDARY || b == BIN_LOSS {
        if cont > 0 {
          runbuf := runbuf + [cont];
          cont := 0;
        }
        runbuf := runbuf + [BOUNDARY_RUN];
      } else if b == CAP {
        cont := cont + CAP;
      } else if b < CAP {
        runbuf := runbuf + [cont + b];
        cont := 0;
      }
    }
  }

  /** Whatever follows, the reader goes on as the batch decoder would. */
  ghost predicate Streams(s: Scan, runbuf: seq<nat>, fed: seq<byte>) {
    forall more: seq<byte> :: runbuf + ScanRuns(s, more) == ScanRuns(START, fed + more)
  }

  lemma StreamsNothing()
    ensures Streams(START, [], [])
  {
    forall more: seq<byte>
      ensures [] + ScanRuns(START, more) == ScanRuns(START, [] + more)
    {
      assert [] + more == more && [] + ScanRuns(START, more) == ScanRuns(START, more);
    }
  }

  lemma ScanCons(s: Scan, b: byte, more: seq<byte>)
    ensures ScanRuns(s, [b] + more) == ScanByte(s, b).1 + ScanRuns(ScanByte(s, b).0, more)
  {
    hide ScanByte;
    assert ([b] + more)[1..] == more;
  }

  lemma ScanEnd(s: Scan, data: seq<byte>)
    requires data == []
    ensures ScanRuns(s, data) == []
  {}

  lemma ScanStep(s: Scan, runbuf: seq<nat>, chunk: seq<byte>, i: nat)
    requires i < |chunk|
    ensures runbuf + ScanRuns(s, chunk[i..]) ==
            (runbuf + ScanByte(s, chunk[i]).1) + ScanRuns(ScanByte(s, chunk[i]).0, chunk[i + 1..])
  {
    ScanCons(s, chunk[i], chunk[i + 1..]);
    hide ScanRuns, ScanByte;
    assert chunk[i..] == [chunk[i]] + chunk[i + 1..];
    AssocRuns(runbuf, ScanByte(s, chunk[i]).1, ScanRuns(ScanByte(s, chunk[i]).0, chunk[i + 1..]));
  }

  lemma StreamsByte(s: Scan, runbuf: seq<nat>, fed: seq<byte>, b: byte)
    requires Streams(s, runbuf, fed)
    ensures Streams(ScanByte(s, b).0, runbuf + ScanByte(s, b).1, fed + [b])
  {
    hide ScanRuns, ScanByte;
    forall more: seq<byte>
      ensures runbuf + ScanByte(s, b).1 + ScanRuns(ScanByte(s, b).0, more) == ScanRuns(START, fed + [b] + more)
    {
      ScanCons(s, b, more);
      AssocRuns(runbuf, ScanByte(s, b).1, ScanRuns(ScanByte(s, b).0, more));
      assert fed + [b] + more == fed + ([b] + more);
      assert runbuf + ScanRuns(s, [b] + more) == ScanRuns(START, fed + ([b] + more));
    }
  }

  /** The byte-at-a-time reader and the batch decoder agree on every byte stream: metadata
      blocks (closed or not), boundaries, losses and stray 0xFE included. */
  lemma {:induction false} ScanIsBatch(data: seq<byte>, cont: nat)
    ensures ScanRuns(Scan(false, false, cont), data) == Rebuild(ItemsOf(data), cont)
    ensures ScanRuns(Scan(false, true, cont), data) == Rebuild(ItemsOf([BIN_DIAG] + data), cont)
    ensures ScanRuns(Scan(true, false, cont), data) == Rebuild(ItemsOf(AfterBlock(data)), cont)
    decreases |data|
  {
    hide ScanRuns, ItemsOf, Rebuild, AfterBlock;
    if data == [] {
      ScanEnd(Scan(false, false, cont), data);
      ScanEnd(Scan(false, true, cont), data);
      ScanEnd(Scan(true, false, cont), data);
      EmptyItems(cont);
    } else {
      var b, rest := data[0], data[1..];
      assert data == [b] + rest;
      ScanCons(Scan(false, false, cont), b, rest);
      ScanCons(Scan(false, true, cont), b, rest);
      ScanCons(Scan(true, false, cont), b, rest);
      ScanIsBatch(rest, cont);
      ScanIsBatch(rest, cont + CAP);
      ScanIsBatch(rest, 0);
      BlockCons(b, rest);
      if b != BIN_DIAG {
        BatchCons(b, rest, cont);
      }
      StrayCons(b, rest, cont);
      assert forall runs: seq<nat> :: [] + runs == runs;
    }
  }

  lemma EmptyItems(cont: nat)
    ensures Rebuild(ItemsOf([]), cont) == [] && AfterBlock([]) == []
    ensures Rebuild(ItemsOf([BIN_DIAG] + []), cont) == []
  {
    assert ([BIN_DIAG] + [])[1..] == [];
  }

  lemma BlockCons(b: byte, rest: seq<byte>)
    ensures AfterBlock([b] + rest) == if b == BIN_DIAG then rest else AfterBlock(rest)
  {
    assert ([b] + rest)[1..] == rest;
  }

  /** What one byte contributes outside of blocks. */
  function ItemOf(b: byte): seq<item> {
    if b == BIN_BOUNDARY || b == BIN_LOSS then [IDLE_BOUNDARY] else if b <= CAP then [b] else []
  }

  /** One plain byte in front, as the batch decoder sees it. */
  lemma BatchCons(b: byte, rest: seq<byte>, cont: nat)
    requires b != BIN_DIAG
    ensures Rebuild(ItemsOf([b] + rest), cont) ==
            Plain(cont, b).1 + Rebuild(ItemsOf(rest), Plain(cont, b).0.cont)
  {
    ItemsCons(b, rest);
    var later := ItemsOf(rest);
    hide Rebuild, ItemsOf;
    if ItemOf(b) == [] {
      assert [] + later == later && [] + Rebuild(later, cont) == Rebuild(later, cont);
    } else {
      RebuildCons(ItemOf(b)[0], later, cont);
      assert [] + Rebuild(later, cont + CAP) == Rebuild(later, cont + CAP);
    }
  }

  lemma ItemsCons(b: byte, rest: seq<byte>)
    requires b != BIN_DIAG
    ensures ItemsOf([b] + rest) == ItemOf(b) + ItemsOf(rest)
  {
    assert ([b] + rest)[1..] == rest;
  }

  lemma RebuildCons(x: item, later: seq<item>, acc: nat)
    ensures Rebuild([x] + later, acc) ==
            if x == IDLE_BOUNDARY then (if acc > 0 then [acc] else []) + [BOUNDARY_RUN] + Rebuild(later, 0)
            else if x >= CAP then Rebuild(later, acc + CAP)
            else [acc + x] + Rebuild(later, 0)
  {
    assert ([x] + later)[1..] == later;
  }

  lemma BatchDiag(rest: seq<byte>)
    ensures ItemsOf([BIN_DIAG] + rest) ==
            if rest != [] && rest[0] == BRACKET then ItemsOf(AfterBlock(rest[1..])) else ItemsOf(rest)
  {
    assert ([BIN_DIAG] + rest)[1..] == rest;
    if rest != [] {
      assert ([BIN_DIAG] + rest)[2..] == rest[1..];
    }
  }

  /** A byte behind an unconfirmed 0xFE: it opens a block, or the 0xFE was a stray one. */
  lemma StrayCons(b: byte, rest: seq<byte>, cont: nat)
    ensures Rebuild(ItemsOf([BIN_DIAG] + ([b] + rest)), cont) ==
            if b == BRACKET then Rebuild(ItemsOf(AfterBlock(rest)), cont) else Rebuild(ItemsOf([b] + rest), cont)
  {
    BatchDiag([b] + rest);
    assert ([b] + rest)[1..] == rest;
    hide ItemsOf, Rebuild;
  }

  /** For any chunking, the reader has collected the runs of the whole capture. */
  lemma ReaderIsBatch(r: Reader)
    requires r.Valid()
    ensures r.runbuf == Rebuild(ItemsOf(r.fed), 0)
  {
    hide ScanRuns, ItemsOf, Rebuild;
    var more: seq<byte> := [];
    assert r.fed + more == r.fed;
    assert r.runbuf + ScanRuns(r.State(), more) == ScanRuns(START, r.fed + more);
    ScanEnd(r.State(), more);
    ScanIsBatch(r.fed, 0);
  }
}
