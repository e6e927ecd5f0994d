/** The run-length datapath (src/sniffer/rle_sniffer.cpp): the capture program publishes run
    bytes into a 30-slot FIFO, a timer interrupt copies them into a RAM ring, and the main
    loop squelches the ring into the USB buffer while the interrupt goes on firing. */
module RleSniffer {
  import opened Bytes
  import opened RunCodec
  import opened Squelch
  import opened RleWire

  const SLOTS: nat := 30
  const RING_SZ: nat := 2048
  const RING_MASK: nat := 2047
  const CAP_IDLE_K: nat := 150              // 750 / RLE_MIN_KBPS, for 5 kbit/s
  const DRAIN_MAX: nat := 192

  // ---- the FIFO ------------------------------------------------------------------------------

  /** The slots hold the last SLOTS stored bytes, each where its count says. */
  ghost predicate Retains(slots: seq<byte>, history: seq<byte>) {
    && |slots| == SLOTS
    && forall j :: 0 <= j < |history| <= j + SLOTS ==> slots[j % SLOTS] == history[j]
  }

  /** The store / publish / wrap steps of pioc/rle_sniffer.ASM; what is stored is any byte. */
  class Fifo {
    var slots: seq<byte>
    var ptr: nat
    var head: byte
    var phase: nat                          // 0 counting, 1 stored, 2 published
    ghost var history: seq<byte>            // every byte stored since begin()

    ghost function Published(): nat
      reads this
    {
      if phase == 1 && history != [] then |history| - 1 else |history|
    }

    ghost predicate Valid()
      reads this
    {
      && phase <= 2 && (phase > 0 ==> history != []) && |slots| == SLOTS
      && head == Low8(Published()) && ptr == PtrAt(|history|, phase > 0, SLOTS)
      && Retains(slots, history)
    }

    constructor ()
      ensures Valid() && history == [] && phase == 0 && head == 0
    {
      slots, ptr, head, phase, history := seq(SLOTS, _ => 0), 0, 0, 0, [];
    }

    method Step(b: byte)
      requires Valid()
      modifies this
      ensures Valid() && old(history) <= history && old(Published()) <= Published()
      ensures history == old(history) + (if old(phase) == 0 then [b] else []) && phase == (old(phase) + 1) % 3
    {
      hide Retains, Low8, PtrAt;
      PtrSteps(|history|, SLOTS);
      Low8Steps(if history == [] then 0 else |history| - 1);
      if phase == 0 {
        StoreRetains(slots, history, b);
        slots := slots[ptr := b];
        ptr := ptr + 1;
        history := history + [b];
        phase := 1;
      } else if phase == 1 {
        head := (head + 1) % 256;
        phase := 2;
      } else {
        if ptr == SLOTS {
          ptr := 0;
        }
        phase := 0;
      }
    }

    /** Any number of steps between two reads of the CPU. */
    method Run(bs: seq<byte>)
      requires Valid()
      modifies this
      ensures Valid() && old(history) <= history && old(Published()) <= Published()
    {
      hide Retains;
      for i := 0 to |bs|
        invariant Valid() && old(history) <= history && old(Published()) <= Published()
      {
        Step(bs[i]);
      }
    }
  }

  // unsigned arithmetic at the widths of the source
  function Sub8(a: byte, b: byte): byte { (a - b) % 256 }
  function Add8(a: byte, n: nat): byte { (a + n) % 256 }
  function Add16(a: uint16, n: nat): uint16 { (a + n) % WORD16 }
  function Add32(a: uint32, n: nat): uint32 { (a + n) % WORD32 }

  /** ringCount(). */
  function Count16(head: uint16, tail: uint16): nat { (head - tail) % WORD16 % RING_SZ }

  lemma StoreRetains(slots: seq<byte>, history: seq<byte>, b: byte)
    requires Retains(slots, history)
    ensures Retains(slots[|history| % SLOTS := b], history + [b])
  {
    forall j | 0 <= j < |history| && |history| + 1 <= j + SLOTS
      ensures j % SLOTS != |history| % SLOTS
    {
      DistinctSlots(j, |history|, SLOTS);
    }
  }

  // ---- cursors and books -----------------------------------------------------------------------

  /** sniffTail_ counts modulo 256, sniffSlot_ modulo 30. */
  predicate Cursors(taken: nat, tail: byte, slot: nat) { tail == taken % 256 && slot == taken % SLOTS }

  /** Copied bytes are FIFO bytes, in the order they were stored. */
  ghost predicate InOrder(copied: seq<byte>, origin: seq<nat>, history: seq<byte>, taken: nat) {
    && |origin| == |copied| && taken <= |history|
    && (forall i :: 0 <= i < |origin| ==> origin[i] < taken && copied[i] == history[origin[i]])
    && (forall i, j :: 0 <= i < j < |origin| ==> origin[i] < origin[j])
  }

  /** The RAM ring holds the copied bytes from `read` on; one cell always stays free. */
  ghost predicate Buffered(buf: seq<byte>, copied: seq<byte>, read: nat) {
    && |buf| == RING_SZ && read <= |copied| <= read + RING_MASK
    && forall k :: read <= k < |copied| ==> buf[k % RING_SZ] == copied[k]
  }

  lemma BufferedPush(buf: seq<byte>, copied: seq<byte>, read: nat, b: byte)
    requires Buffered(buf, copied, read) && |copied| < read + RING_MASK
    ensures Buffered(buf[|copied| % RING_SZ := b], copied + [b], read)
  {
    forall k | read <= k < |copied|
      ensures k % RING_SZ != |copied| % RING_SZ
    {
      DistinctCells(k, |copied|);
    }
  }

  lemma DistinctCells(a: nat, b: nat)
    requires a < b < a + RING_SZ
    ensures a % RING_SZ != b % RING_SZ
  {
    assert b - a == RING_SZ * (b / RING_SZ - a / RING_SZ) + (b % RING_SZ - a % RING_SZ);
  }

  /** Ring arithmetic on 16-bit counters: 2048 divides 65536. */
  lemma RingArithmetic(h: nat, t: nat, i: nat)
    requires t <= h <= t + RING_MASK
    ensures (h % WORD16 - t % WORD16) % WORD16 % RING_SZ == h - t
    ensures (t % WORD16 + i) % WORD16 % RING_SZ == (t + i) % RING_SZ
  {
    assert WORD16 == 32 * RING_SZ;
    ModOfMod(t + i);
    assert (t % WORD16 + i) % WORD16 == (t + i) % WORD16;
    assert (h % WORD16 - t % WORD16) % WORD16 == (h - t) % WORD16;
  }

  lemma ModOfMod(x: nat)
    ensures x % WORD16 % RING_SZ == x % RING_SZ
  {
    var q, r := x / WORD16, x % WORD16;
    CellUnique(x, 32 * q + r / RING_SZ, r % RING_SZ);
  }

  lemma CellUnique(x: nat, q: nat, r: nat)
    requires x == RING_SZ * q + r && r < RING_SZ
    ensures x % RING_SZ == r
  {}

  /** The drain's cursor arithmetic: with a true lag below 256, the gap is the lag. */
  lemma GapIsLag(taken: nat, seen: nat)
    requires taken <= seen < taken + 256
    ensures (seen % 256 - taken % 256) % 256 == seen - taken
  {}

  lemma TailFollows(taken: nat, gap: nat)
    ensures (taken % 256 + gap) % 256 == (taken + gap) % 256
  {}

  /** The physical cursor moves with the count although 30 does not divide 256. */
  lemma SlotFollows(taken: nat, advance: nat)
    ensures Folded(taken % SLOTS, advance) == (taken + advance) % SLOTS
    ensures taken + advance >= SLOTS ==> (taken + advance) % SLOTS == (taken + advance - SLOTS) % SLOTS
  {}

  lemma TailAfterOverrun(h: byte)
    ensures ((h - SLOTS) % 256 + SLOTS) % 256 == h
  {}

  /** slot + advance, folded back below 30. */
  function Folded(slot: nat, advance: nat): nat { (slot + advance) % SLOTS }

  lemma FoldStep(slot: nat, advance: nat)
    requires advance >= SLOTS
    ensures Folded(slot, advance) == Folded(slot, advance - SLOTS)
  {}

  lemma SameSlice(h: seq<byte>, h': seq<byte>, a: nat, b: nat)
    requires h <= h' && a <= b <= |h|
    ensures h[a..b] == h'[a..b]
  {}

  lemma SliceGrows(h: seq<byte>, a: nat, b: nat)
    requires a <= b < |h|
    ensures h[a..b] + [h[b]] == h[a..b + 1]
  {}

  // ---- what the sniffer has done so far ----------------------------------------------------------

  /** Ledger of the published bytes: each is copied to RAM, dropped for want of RAM, or lost to
      the FIFO before the interrupt came. */
  datatype Tally = Tally(
    copied: seq<byte>,      // every byte put in the RAM ring
    origin: seq<nat>,       // the count each was stored under
    read: nat,              // copied bytes the main loop has consumed
    taken: nat,             // published bytes the interrupt has accounted for
    dropped: nat,
    lost: nat,
    marked: nat,            // dropped bytes announced by a loss marker
    evs: seq<Ev>,           // what the main loop has done, in order
    wire: seq<byte>,        // the bytes it has given to USB
    since: nat,             // bytes consumed when sniffLastMs_ was last set
    aligned: bool,          // no drain came 256 or more bytes late
    intact: bool)           // no slot was overwritten before it was read

  function Span(start: nat, n: nat): (s: seq<nat>)
    ensures |s| == n
  {
    seq(n, (i: nat) => start + i)
  }

  /** One drain that saw the head at `seen`, took `gap` bytes and found room for the grabbed. */
  ghost function AfterDrain(t: Tally, seen: nat, gap: nat, grabbed: seq<byte>, whole: bool): Tally
    requires t.taken <= seen && |grabbed| <= gap
  {
    var lag := seen - t.taken;
    var aligned := t.aligned && lag < 256;
    t.(copied := t.copied + grabbed,
       origin := t.origin + Span(if gap <= seen then seen - gap else 0, |grabbed|),
       taken := seen,
       dropped := t.dropped + gap - |grabbed|,
       lost := if aligned && gap <= lag then t.lost + lag - gap else t.lost,
       aligned := aligned,
       intact := t.intact && whole)
  }

  ghost predicate RamBooks(t: Tally, buf: seq<byte>, head: uint16, tail: uint16) {
    Buffered(buf, t.copied, t.read) && head == |t.copied| % WORD16 && tail == t.read % WORD16
  }

  ghost predicate DrainBooks(t: Tally, history: seq<byte>, published: nat, sniffTail: byte, sniffSlot: nat,
                             ramDrop: uint32)
  {
    && sniffSlot < SLOTS && ramDrop == t.dropped % WORD32 && t.taken <= published <= |history|
    && (t.aligned ==> Cursors(t.taken, sniffTail, sniffSlot) && t.taken == |t.copied| + t.dropped + t.lost)
    && (t.aligned && t.intact ==> InOrder(t.copied, t.origin, history, t.taken))
  }

  ghost predicate UsbBooks(t: Tally, hold: Hold, lossSeen: uint32) {
    && t.read <= |t.copied|
    && Eaten(t.evs) == t.copied[..t.read] && t.wire == Out(CAP_IDLE_K, OPEN, t.evs)
    && hold == HoldAfter(CAP_IDLE_K, OPEN, t.copied[..t.read])
    && lossSeen == t.marked % WORD32 && t.marked <= t.dropped && (t.marked == 0 ==> Lost !in t.evs)
  }

  /** The main loop's side of the ledger. */
  function MainOf(t: Tally): (nat, seq<Ev>, seq<byte>, nat, nat) { (t.read, t.evs, t.wire, t.marked, t.since) }

  /** The tally with the main loop's side of an earlier one. */
  function Rewound(t: Tally, t0: Tally): Tally {
    t.(read := t0.read, evs := t0.evs, wire := t0.wire, marked := t0.marked, since := t0.since)
  }

  lemma DrainBooksGrow(t: Tally, history: seq<byte>, published: nat, history': seq<byte>, published': nat,
                       sniffTail: byte, sniffSlot: nat, ramDrop: uint32)
    requires DrainBooks(t, history, published, sniffTail, sniffSlot, ramDrop)
    requires history <= history' && published <= published' <= |history'|
    ensures DrainBooks(t, history', published', sniffTail, sniffSlot, ramDrop)
  {}

  /** The copied slice extends the ordered copy. */
  lemma InOrderExtends(copied: seq<byte>, origin: seq<nat>, history: seq<byte>, taken: nat, start: nat, n: nat,
                       seen: nat)
    requires InOrder(copied, origin, history, taken) && taken <= start && start + n <= seen <= |history|
    ensures InOrder(copied + history[start..start + n], origin + Span(start, n), history, seen)
  {
    var copied', origin' := copied + history[start..start + n], origin + Span(start, n);
    forall i | 0 <= i < |origin'|
      ensures origin'[i] < seen && copied'[i] == history[origin'[i]]
      ensures i >= |origin| ==> origin'[i] == start + (i - |origin|)
      ensures i < |origin| ==> origin'[i] == origin[i]
    {}
  }

  lemma SameCopy(copied: seq<byte>, origin: seq<nat>, history: seq<byte>, taken: nat, grabbed: seq<byte>, start: nat,
                 seen: nat)
    requires InOrder(copied, origin, history, taken) && taken <= start && start + |grabbed| <= seen <= |history|
    requires grabbed == history[start..start + |grabbed|]
    ensures InOrder(copied + grabbed, origin + Span(start, |grabbed|), history, seen)
  {
    InOrderExtends(copied, origin, history, taken, start, |grabbed|, seen);
  }

  /** A drain keeps the books. */
  lemma DrainKeeps(t: Tally, history: seq<byte>, published: nat, sniffTail: byte, sniffSlot: nat, ramDrop: uint32,
                   seen: nat, gap: nat, grabbed: seq<byte>, whole: bool, sniffTail': byte, sniffSlot': nat,
                   ramDrop': uint32)
    requires DrainBooks(t, history, published, sniffTail, sniffSlot, ramDrop)
    requires t.taken <= seen <= published && |grabbed| <= gap && sniffSlot' < SLOTS
    requires var lag := seen - t.taken;
             t.aligned && lag < 256 ==>
               && gap == (if lag > SLOTS then SLOTS else lag)
               && Cursors(seen, sniffTail', sniffSlot')
               && (whole ==> grabbed == history[seen - gap..seen - gap + |grabbed|])
    requires ramDrop' == Add32(ramDrop, gap - |grabbed|)
    ensures DrainBooks(AfterDrain(t, seen, gap, grabbed, whole), history, published, sniffTail', sniffSlot', ramDrop')
  {
    hide InOrder, Cursors, Span;
    Wrap32(t.dropped, gap - |grabbed|);
    var t' := AfterDrain(t, seen, gap, grabbed, whole);
    if t'.aligned && t'.intact {
      SameCopy(t.copied, t.origin, history, t.taken, grabbed, seen - gap, seen);
    }
  }

  /** All books after a drain. */
  lemma DrainDone(t: Tally, history: seq<byte>, published: nat, sniffTail: byte, sniffSlot: nat, ramDrop: uint32,
                  seen: nat, gap: nat, grabbed: seq<byte>, whole: bool, sniffTail': byte, sniffSlot': nat,
                  ramDrop': uint32, buf: seq<byte>, head: uint16, tail: uint16, hold: Hold, lossSeen: uint32)
    requires DrainBooks(t, history, published, sniffTail, sniffSlot, ramDrop) && UsbBooks(t, hold, lossSeen)
    requires t.taken <= seen <= published && |grabbed| <= gap && sniffSlot' < SLOTS
    requires var lag := seen - t.taken;
             t.aligned && lag < 256 ==>
               && gap == (if lag > SLOTS then SLOTS else lag)
               && Cursors(seen, sniffTail', sniffSlot')
               && (whole ==> grabbed == history[seen - gap..seen - gap + |grabbed|])
    requires ramDrop' == Add32(ramDrop, gap - |grabbed|) && Buffered(buf, t.copied + grabbed, t.read)
    requires head == |t.copied| % WORD16 && tail == t.read % WORD16
    ensures var next := AfterDrain(t, seen, gap, grabbed, whole);
            && RamBooks(next, buf, Add16(head, |grabbed|), tail) && UsbBooks(next, hold, lossSeen)
            && DrainBooks(next, history, published, sniffTail', sniffSlot', ramDrop')
            && Later(t, next) && (next.aligned ==> seen - t.taken < 256)
  {
    hide *;
    RamKeeps(t, grabbed, gap, seen, whole, buf, head, tail);
    DrainKeeps(t, history, published, sniffTail, sniffSlot, ramDrop, seen, gap, grabbed, whole, sniffTail', sniffSlot',
               ramDrop');
    AfterDrainKeeps(t, seen, gap, grabbed, whole);
    UsbBooksGrow(t, AfterDrain(t, seen, gap, grabbed, whole), hold, lossSeen);
  }

  lemma Wrap32(x: nat, y: nat)
    ensures (x % WORD32 + y) % WORD32 == (x + y) % WORD32
  {}

  lemma Wrap16(x: nat, y: nat)
    ensures (x % WORD16 + y) % WORD16 == (x + y) % WORD16
  {}

  lemma BufferedAt(buf: seq<byte>, copied: seq<byte>, grabbed: seq<byte>, read: nat, b: byte)
    requires Buffered(buf, copied + grabbed, read) && |copied| + |grabbed| < read + RING_MASK
    ensures Buffered(buf[(|copied| + |grabbed|) % RING_SZ := b], copied + (grabbed + [b]), read)
  {
    BufferedPush(buf, copied + grabbed, read, b);
    hide Buffered;
    assert copied + grabbed + [b] == copied + (grabbed + [b]);
  }

  /** The second loop starts where the first ran into the end of the file. */
  lemma SlotWalk(j: nat, i: nat, slot: nat)
    requires slot == j % SLOTS && i <= SLOTS
    ensures (j + i) % SLOTS == if slot + i < SLOTS then slot + i else slot + i - SLOTS
  {}

  class RleSniffer {
    const fifo: Fifo
    const ring: array<byte>
    var head: uint16
    var tail: uint16
    var ovfPioc: uint16
    var sniffTail: byte                 // logical cursor into the FIFO
    var sniffSlot: nat                  // physical slot, independent of the 8-bit head
    var sniffLastMs: uint32
    var sniffActive: bool
    var ramDrop: uint32
    var lossSeen: uint32
    var capRun: nat
    var capPiped: bool
    ghost const began: uint32           // the time of begin()
    ghost var steps: seq<Step>          // the calls of service() since
    ghost var t: Tally

    ghost predicate Valid()
      reads this, ring, fifo
    {
      && fifo.Valid() && ring.Length == RING_SZ
      && RamBooks(t, ring[..], head, tail)
      && DrainBooks(t, fifo.history, fifo.Published(), sniffTail, sniffSlot, ramDrop)
      && UsbBooks(t, Hold(capRun, capPiped), lossSeen)
    }

    /** Between two calls of service(): unless the open run has got its idle mark, no byte has been
        consumed since sniffLastMs_ was set; and if the main loop was fed at every call so far, each idle
        boundary has followed a mark. */
    ghost predicate Ready()
      reads this, ring, fifo
    {
      && Valid() && (capPiped || t.read == t.since)
      && sniffLastMs == LastMs(began, steps) && t.read == ReadOf(steps) && t.since == SinceOf(steps)
      && (AllFed(began, steps) ==> AllMarked(t.evs))
    }

    /** begin(): the program has just been started. */
    constructor (nowMs: uint32)
      ensures Ready() && fresh(fifo) && fresh(ring)
      ensures t == Tally([], [], 0, 0, 0, 0, 0, [], [], 0, true, true) && began == nowMs && steps == []
    {
      began, steps := nowMs, [];
      fifo := new Fifo();
      ring := new byte[RING_SZ](_ => 0);
      head, tail, ovfPioc, sniffTail, sniffSlot := 0, 0, 0, 0, 0;
      sniffLastMs, sniffActive, ramDrop, lossSeen, capRun, capPiped := nowMs, false, 0, 0, 0, false;
      t := Tally([], [], 0, 0, 0, 0, 0, [], [], 0, true, true);
    }

    /** One slot read and one RAM write; the program runs `bs` further before the read. */
    method Grab(slot: nat, cell: nat, bs: seq<byte>, ghost grabbed: seq<byte>, ghost j: nat) returns (ghost b: byte)
      requires fifo.Valid() && ring.Length == RING_SZ && slot < SLOTS
      requires Buffered(ring[..], t.copied + grabbed, t.read) && |t.copied| + |grabbed| < t.read + RING_MASK
      requires cell == (|t.copied| + |grabbed|) % RING_SZ
      modifies fifo, ring
      ensures fifo.Valid() && old(fifo.history) <= fifo.history && old(fifo.Published()) <= fifo.Published()
      ensures Buffered(ring[..], t.copied + (grabbed + [b]), t.read)
      ensures slot == j % SLOTS && j < old(fifo.Published()) && |fifo.history| <= j + SLOTS ==> b == fifo.history[j]
    {
      hide Buffered;
      fifo.Run(bs);
      BufferedAt(ring[..], t.copied, grabbed, t.read, fifo.slots[slot]);
      b := fifo.slots[slot];
      ring[cell] := fifo.slots[slot];
    }

    /** Two contiguous loops over the slots, from `slot` to the end of the file and on from its
        start. The ghost j is the count stored under `slot`; `whole` says no slot was lapped. */
    method CopySlots(slot: nat, toCopy: nat, rh: uint16, bs: nat -> seq<byte>, ghost j: nat)
      returns (ghost grabbed: seq<byte>, ghost whole: bool)
      requires fifo.Valid() && ring.Length == RING_SZ && slot < SLOTS && toCopy <= SLOTS
      requires Buffered(ring[..], t.copied, t.read) && rh == |t.copied| % WORD16
      requires |t.copied| + toCopy <= t.read + RING_MASK
      modifies fifo, ring
      ensures fifo.Valid() && old(fifo.history) <= fifo.history && old(fifo.Published()) <= fifo.Published()
      ensures |grabbed| == toCopy && Buffered(ring[..], t.copied + grabbed, t.read)
      ensures whole && slot == j % SLOTS && j + toCopy <= old(fifo.Published()) ==>
                grabbed == fifo.history[j..j + toCopy]
    {
      hide Buffered, Fifo.Valid;
      var first := SLOTS - slot;
      if first > toCopy {
        first := toCopy;
      }
      grabbed, whole := [], true;
      ghost var published := fifo.Published();
      assert t.copied + grabbed == t.copied;
      var i := 0;
      while i < first
        invariant i <= first && |grabbed| == i && fifo.Valid()
        invariant old(fifo.history) <= fifo.history && published <= fifo.Published()
        invariant Buffered(ring[..], t.copied + grabbed, t.read)
        invariant Copied(fifo, whole, slot, j, toCopy, published, grabbed)
      {
        i, grabbed, whole := CopyOne(slot + i, i, slot, toCopy, rh, bs(i), j, published, grabbed, whole);
      }
      while i < toCopy
        invariant first <= i <= toCopy && |grabbed| == i && fifo.Valid()
        invariant old(fifo.history) <= fifo.history && published <= fifo.Published()
        invariant Buffered(ring[..], t.copied + grabbed, t.read)
        invariant Copied(fifo, whole, slot, j, toCopy, published, grabbed)
      {
        i, grabbed, whole := CopyOne(i - first, i, slot, toCopy, rh, bs(i), j, published, grabbed, whole);
      }
    }

    method CopyOne(phys: nat, i: nat, ghost slot: nat, ghost toCopy: nat, rh: uint16, bs: seq<byte>,
                   ghost j: nat, ghost published: nat, ghost grabbed: seq<byte>, ghost whole: bool)
      returns (i': nat, ghost grabbed': seq<byte>, ghost whole': bool)
      requires fifo.Valid() && ring.Length == RING_SZ && slot < SLOTS && i < toCopy <= SLOTS && |grabbed| == i
      requires phys == if slot + i < SLOTS then slot + i else slot + i - SLOTS
      requires Buffered(ring[..], t.copied + grabbed, t.read) && rh == |t.copied| % WORD16
      requires |t.copied| + toCopy <= t.read + RING_MASK
      requires published <= fifo.Published() && Copied(fifo, whole, slot, j, toCopy, published, grabbed)
      modifies fifo, ring
      ensures fifo.Valid() && old(fifo.history) <= fifo.history && old(fifo.Published()) <= fifo.Published()
      ensures i' == i + 1 && |grabbed'| == i' && Buffered(ring[..], t.copied + grabbed', t.read)
      ensures Copied(fifo, whole', slot, j, toCopy, published, grabbed')
    {
      hide Buffered, Fifo.Valid;
      SlotWalk(j, i, j % SLOTS);
      CellIs(|t.copied|, i);
      PublishedBound(fifo);
      ghost var b := Grab(phys, (rh + i) % RING_SZ, bs, grabbed, j + i);
      whole' := whole && |fifo.history| <= j + i + SLOTS;
      grabbed' := grabbed + [b];
      i' := i + 1;
      if whole' && slot == j % SLOTS && j + toCopy <= published {
        SameSlice(old(fifo.history), fifo.history, j, j + i);
        PublishedBound(fifo);
        SliceGrows(fifo.history, j, j + i);
      }
    }

    /** The bytes grabbed so far are the stored ones, unless a slot was lapped. */
    static ghost predicate Copied(fifo: Fifo, whole: bool, slot: nat, j: nat, toCopy: nat, published: nat,
                                  grabbed: seq<byte>)
      reads fifo
    {
      whole && slot == j % SLOTS && j + toCopy <= published ==>
        j + |grabbed| <= |fifo.history| && grabbed == fifo.history[j..j + |grabbed|]
    }

    /** Where this drain starts reading: a lapped FIFO is entered at its oldest slot. */
    method Enter(rawGap: byte) returns (gap: nat, slot: nat)
      requires sniffSlot < SLOTS
      modifies this`ovfPioc
      ensures gap == (if rawGap > SLOTS then SLOTS else rawGap) && slot < SLOTS
      ensures slot == (if rawGap > SLOTS then Folded(sniffSlot, rawGap) else sniffSlot)
      ensures ovfPioc == if rawGap > SLOTS then (old(ovfPioc) + 1) % WORD16 else old(ovfPioc)
    {
      hide Folded;
      gap := rawGap;
      slot := sniffSlot;
      if rawGap > SLOTS {
        ovfPioc := (ovfPioc + 1) % WORD16;
        gap := SLOTS;
        var advance: nat := rawGap;
        while advance >= SLOTS
          invariant Folded(sniffSlot, advance) == Folded(sniffSlot, rawGap)
          invariant ovfPioc == (old(ovfPioc) + 1) % WORD16
        {
          FoldStep(sniffSlot, advance);
          advance := advance - SLOTS;
        }
        FoldOnce(slot, advance);
        slot := slot + advance;
        if slot >= SLOTS {
          slot := slot - SLOTS;
        }
      }
    }

    /** Read HEAD and find the first slot to copy. */
    method Look(bs: seq<byte>) returns (rawGap: byte, gap: nat, slot: nat, ghost seen: nat)
      requires fifo.Valid() && DrainBooks(t, fifo.history, fifo.Published(), sniffTail, sniffSlot, ramDrop)
      modifies fifo, this`ovfPioc, this`sniffTail
      ensures fifo.Valid() && old(fifo.history) <= fifo.history
      ensures seen == fifo.Published() && t.taken <= seen && old(fifo.Published()) <= seen
      ensures sniffSlot < SLOTS && slot < SLOTS && gap == if rawGap > SLOTS then SLOTS else rawGap
      ensures DrainBooks(t, fifo.history, seen, old(sniffTail), sniffSlot, ramDrop)
      ensures t.aligned && seen - t.taken < 256 ==>
                && rawGap == seen - t.taken && slot == (seen - gap) % SLOTS
                && Cursors(seen, Add8(sniffTail, gap), AfterSlot(slot, rawGap))
      ensures ovfPioc == if rawGap > SLOTS then (old(ovfPioc) + 1) % WORD16 else old(ovfPioc)
    {
      hide DrainBooks, Fifo.Valid, Low8, Folded, Sub8, Add8, Cursors, AfterSlot;
      fifo.Run(bs);
      PublishedBound(fifo);
      HeadIs(fifo);
      var h := fifo.head;
      seen := fifo.Published();
      DrainBooksGrow(t, old(fifo.history), old(fifo.Published()), fifo.history, seen, sniffTail, sniffSlot, ramDrop);
      DrainFacts(t, fifo.history, seen, sniffTail, sniffSlot, ramDrop);
      rawGap := Sub8(h, sniffTail);
      gap, slot := Enter(rawGap);
      if rawGap > SLOTS {
        sniffTail := Sub8(h, SLOTS);
      }
      DrainCursors(t, seen, h, old(sniffTail), sniffSlot, rawGap, gap, slot);
    }

    /** The TIM3 interrupt: copy what the FIFO published to the RAM ring. The program runs on
        before every register read. */
    method DrainPioc(bs: nat -> seq<byte>) returns (ghost seen: nat, ghost grabbed: seq<byte>, ghost whole: bool)
      requires Valid()
      modifies fifo, ring, this`head, this`ovfPioc, this`sniffTail, this`sniffSlot, this`ramDrop, this`t
      ensures Valid() && old(t.taken) <= seen && old(fifo.Published()) <= seen <= fifo.Published()
      ensures old(fifo.history) <= fifo.history
      ensures var late := old(t.aligned) && seen - old(t.taken) < 256;
              var gap := if late && seen - old(t.taken) <= SLOTS then seen - old(t.taken) else SLOTS;
              var space := RING_MASK - (|old(t.copied)| - old(t.read));
              late ==>
                && |grabbed| == (if gap > space then space else gap)
                && t == AfterDrain(old(t), seen, gap, grabbed, whole)
                && ovfPioc == if seen - old(t.taken) > SLOTS then (old(ovfPioc) + 1) % WORD16 else old(ovfPioc)
      ensures Later(old(t), t) && (t.aligned ==> seen - old(t.taken) < 256)
    {
      hide DrainBooks, UsbBooks, RamBooks, Buffered, Fifo.Valid, Low8, Folded, Count16, Sub8, Add8, Add16, Add32,
           Cursors, Span, AfterSlot, AfterDrain, Later;
      var rawGap, gap, slot;
      rawGap, gap, slot, seen := Look(bs(0));
      var rh, rt := head, tail;
      RamHolds(t, ring[..], head, tail);
      var space := RING_MASK - Count16(rh, rt);
      var toCopy := if gap > space then space else gap;
      label Copy:
      grabbed, whole := CopySlots(slot, toCopy, rh, i => bs(i + 1), if gap <= seen then seen - gap else 0);
      PublishedBound(fifo);
      DrainBooksGrow(t, old@Copy(fifo.history), old@Copy(fifo.Published()), fifo.history, fifo.Published(),
                     old(sniffTail), sniffSlot, ramDrop);
      var slot', tail', head' := AfterSlot(slot, rawGap), Add8(sniffTail, gap), Add16(rh, toCopy);
      var drop := if toCopy < gap then Add32(ramDrop, gap - toCopy) else ramDrop;
      ghost var next := AfterDrain(t, seen, gap, grabbed, whole);
      AddNothing(ramDrop);
      DrainDone(t, fifo.history, fifo.Published(), old(sniffTail), sniffSlot, ramDrop, seen, gap, grabbed, whole,
                tail', slot', drop, ring[..], rh, rt, Hold(capRun, capPiped), lossSeen);
      sniffSlot, sniffTail, head, ramDrop := slot', tail', head', drop;
      t := next;
    }

    /** The interrupt fires any number of times before the next step of the main loop. */
    method Interrupts(fires: seq<nat -> seq<byte>>)
      requires Valid()
      modifies fifo, ring, this`head, this`ovfPioc, this`sniffTail, this`sniffSlot, this`ramDrop, this`t
      ensures Valid() && Later(old(t), t)
    {
      hide DrainBooks, UsbBooks, RamBooks, Fifo.Valid, AfterDrain;
      for i := 0 to |fires|
        invariant Valid() && Later(old(t), t)
      {
        ghost var seen, grabbed, whole := DrainPioc(fires[i]);
      }
    }

    /** One byte out of the RAM ring: the squelch of the drain loop. */
    method SquelchOne(b: byte, run: nat, piped: bool, saw: bool)
      returns (run': nat, piped': bool, saw': bool, emitted: seq<byte>)
      requires Valid() && (piped ==> !saw)
      modifies this`sniffActive
      ensures Valid() && (Hold(run', piped'), emitted) == SquelchByte(CAP_IDLE_K, Hold(run, piped), b)
      ensures |emitted| <= 1 && saw' == !piped'
    {
      hide DrainBooks, UsbBooks, RamBooks, Fifo.Valid;
      run', piped', saw', emitted := run, piped, saw, [];
      if b >= 128 {
        if piped {
          return;                               // past idle
        }
        run' := run + 1;
        if run' >= CAP_IDLE_K {
          piped', saw' := true, false;
          sniffActive := false;
          return run', piped', saw', [0xFF];
        }
        saw' := true;
      } else {
        run', piped', saw' := 0, false, true;
        if piped {
          return;                               // the idle tail
        }
      }
      emitted := [b];
    }

    /** The drain loop: squelch up to n bytes of the RAM ring into `cap` bytes of TX space. The
        interrupt may fire at every turn; the cursor moves once, at the end. */
    method DrainRing(n: nat, cap: nat, fires: nat -> seq<nat -> seq<byte>>) returns (dst: seq<byte>, saw: bool)
      requires Valid() && n <= |t.copied| - t.read && n <= DRAIN_MAX && cap > 0
      modifies this, fifo, ring
      ensures Valid() && Later(old(t), Rewound(t, old(t))) && Consumed(old(t), t, dst) && |dst| <= cap
      ensures t.read <= old(t.read) + n && (n > 0 ==> t.read > old(t.read))
      ensures lossSeen == old(lossSeen) && sniffLastMs == old(sniffLastMs) && steps == old(steps)
      ensures if t.read == old(t.read) then !saw && capPiped == old(capPiped) else saw == !capPiped
    {
      hide RleSniffer.Valid, SquelchByte, Squelched, HoldAfter, Later;
      LaterSame(t);
      ghost var h0 := Hold(capRun, capPiped);
      ghost var eaten: seq<byte> := [];
      var i := 0;
      var run, piped := capRun, capPiped;
      dst, saw := [], false;
      SquelchEnd(CAP_IDLE_K, h0);
      while i < n
        invariant i <= n && |dst| <= cap && Valid() && Later(old(t), t)
        invariant MainOf(t) == MainOf(old(t)) && t.read + n <= |t.copied|
        invariant capRun == old(capRun) && capPiped == old(capPiped)
        invariant lossSeen == old(lossSeen) && sniffLastMs == old(sniffLastMs) && steps == old(steps)
        invariant eaten == t.copied[t.read..t.read + i]
        invariant dst == Squelched(CAP_IDLE_K, h0, eaten) && Hold(run, piped) == HoldAfter(CAP_IDLE_K, h0, eaten)
        invariant i == 0 ==> dst == []
        invariant if i == 0 then !saw && piped == capPiped else saw == !piped
      {
        if |dst| >= cap {
          break;
        }
        ghost var before := t;
        var b := NextByte(i, fires(i), n);
        LaterTrans(old(t), before, t);
        SquelchSnoc(CAP_IDLE_K, h0, eaten, b);
        var emitted;
        run, piped, saw, emitted := SquelchOne(b, run, piped, saw);
        eaten := eaten + [b];
        dst := dst + emitted;
        i := i + 1;
      }
      ghost var unread := t;
      Advance(run, piped, i, dst);
      assert Rewound(t, old(t)) == unread;
    }

    /** tail_ moves by what was consumed; the squelch state goes back to its fields. */
    method Advance(run: nat, piped: bool, i: nat, dst: seq<byte>)
      requires Valid() && t.read + i <= |t.copied|
      requires dst == Squelched(CAP_IDLE_K, Hold(capRun, capPiped), t.copied[t.read..t.read + i])
      requires Hold(run, piped) == HoldAfter(CAP_IDLE_K, Hold(capRun, capPiped), t.copied[t.read..t.read + i])
      modifies this`capRun, this`capPiped, this`tail, this`t
      ensures Valid() && t == old(Eating(t, i, dst)) && capPiped == piped
    {
      hide DrainBooks, UsbBooks, RamBooks, Fifo.Valid, Squelched, HoldAfter, Add16;
      Consume(t, ring[..], head, tail, Hold(capRun, capPiped), lossSeen, i, dst);
      ConsumeFree(t, fifo.history, fifo.Published(), sniffTail, sniffSlot, ramDrop, i, dst);
      capRun, capPiped := run, piped;
      tail := Add16(tail, i);
      t := Eating(t, i, dst);
    }

    /** Read the i-th unread byte of the RAM ring, after any number of interrupts. */
    method NextByte(i: nat, fires: seq<nat -> seq<byte>>, ghost n: nat) returns (b: byte)
      requires Valid() && i < n <= |t.copied| - t.read
      modifies fifo, ring, this`head, this`ovfPioc, this`sniffTail, this`sniffSlot, this`ramDrop, this`t
      ensures Valid() && Later(old(t), t) && t.read + n <= |t.copied|
      ensures t.copied[t.read..t.read + i] == old(t.copied[t.read..t.read + i])
      ensures t.copied[t.read..t.read + i + 1] == t.copied[t.read..t.read + i] + [b]
    {
      hide DrainBooks, UsbBooks, RamBooks, Fifo.Valid;
      Interrupts(fires);
      UnreadAt(t, ring[..], head, tail, i);
      SameSlice(old(t.copied), t.copied, t.read, t.read + i);
      b := ring[(tail + i) % WORD16 % RING_SZ];
    }

    /** ringCount() in the main loop: one word read, no interrupt lock. */
    method RingCount() returns (n: nat)
      requires Valid()
      ensures n == |t.copied| - t.read <= RING_MASK
    {
      hide DrainBooks, UsbBooks, Fifo.Valid, Buffered;
      RamHolds(t, ring[..], head, tail);
      n := Count16(head, tail);
    }

    /** Stage 2 of service(): at most 192 bytes, if USB has room. */
    method Ship(writeSpace: nat, cap: nat, fires: nat -> seq<nat -> seq<byte>>) returns (dst: seq<byte>, saw: bool)
      requires Valid()
      modifies this, fifo, ring
      ensures Valid() && Later(old(t), Rewound(t, old(t))) && Consumed(old(t), t, dst) && |dst| <= cap
      ensures t.read <= old(t.read) + DRAIN_MAX
      ensures writeSpace > 0 && cap > 0 && old(t.read) < |old(t.copied)| ==> t.read > old(t.read)
      ensures lossSeen == old(lossSeen) && sniffLastMs == old(sniffLastMs) && steps == old(steps)
      ensures if t.read == old(t.read) then !saw && capPiped == old(capPiped) else saw == !capPiped
    {
      hide DrainBooks, UsbBooks, RamBooks, Fifo.Valid, Later, Consumed;
      LaterSame(t);
      dst, saw := [], false;
      ReadWhat(t, Hold(capRun, capPiped), lossSeen);
      assert Rewound(t, t) == t;
      ConsumedNothing(t);
      var budget := if writeSpace > DRAIN_MAX then DRAIN_MAX else writeSpace;
      if budget > 0 {
        var n := RingCount();
        if n > budget {
          n := budget;
        }
        if n > 0 && cap > 0 {
          dst, saw := DrainRing(n, cap, fires);
        }
      }
    }

    /** The loss marker: the watermark moves only when the marker is really on its way. */
    method AnnounceLoss(room: bool) returns (mark: seq<byte>)
      requires Valid()
      modifies this`lossSeen, this`t
      ensures Valid() && mark == (if ramDrop != old(lossSeen) && room then [BIN_LOSS] else [])
      ensures lossSeen == (if mark == [] then old(lossSeen) else ramDrop)
      ensures t == if mark == [] then old(t) else old(Marking(t, Lost)).(marked := old(t.dropped))
      ensures mark != [] ==> old(t.marked < t.dropped)
      ensures room && old(t.dropped < t.marked + WORD32) ==> (mark == [] <==> old(t.marked == t.dropped))
    {
      hide Fifo.Valid, Buffered, InOrder, Out, Eaten, HoldAfter, Cursors;
      mark := [];
      SameLow32(t.marked, t.dropped);
      var rd := ramDrop;
      if rd != lossSeen && room {
        lossSeen := rd;
        MarkingKeeps(t, Lost);
        t := Marking(t, Lost).(marked := t.dropped);
        mark := [BIN_LOSS];
      }
    }

    /** Note the activity; close an idle line once the RAM ring is empty. */
    method CloseIdle(nowMs: uint32, sawActivity: bool, room: bool) returns (idle: seq<byte>)
      requires Valid() && (sawActivity || capPiped || t.read == t.since)
      modifies this`sniffLastMs, this`sniffActive, this`t
      ensures Valid() && (capPiped || t.read == t.since)
      ensures var live := sawActivity || old(t).read < |old(t).copied|;
              && t == Silenced(old(t), live, idle != [])
              && sniffLastMs == (if live then nowMs else old(sniffLastMs))
              && idle == (if (live || old(sniffActive)) && t.read == |t.copied| && room
                             && (nowMs - sniffLastMs) % WORD32 > 3 then [BIN_BOUNDARY] else [])
              && sniffActive == ((live || old(sniffActive)) && idle == [])
    {
      hide Fifo.Valid, Buffered, InOrder, Out, Eaten, HoldAfter, Cursors;
      idle := [];
      var ramCount := RingCount();
      if sawActivity || ramCount > 0 {
        sniffLastMs := nowMs;
        sniffActive := true;
        t := t.(since := t.read);
      }
      if sniffActive && ramCount == 0 && (nowMs - sniffLastMs) % WORD32 > 3 && room {
        idle := [BIN_BOUNDARY];
        sniffActive := false;
        MarkingKeeps(t, Idle);
        t := Marking(t, Idle);
      }
    }

    /** One call of service(). The interrupt may fire between any two of its steps; wire is
        what goes to USB: squelched bytes, a loss marker, an idle boundary. */
    method Service(nowMs: uint32, writeSpace: nat, cap: nat, roomLoss: bool, roomIdle: bool,
                   fires: nat -> seq<nat -> seq<byte>>)
      returns (wire: seq<byte>, ghost body: seq<byte>, ghost mark: seq<byte>, idle: seq<byte>)
      requires Ready()
      modifies this, fifo, ring
      ensures Ready() && wire == body + mark + idle && |body| <= cap && t.wire == old(t.wire) + wire
      ensures t.evs == old(t.evs)
                       + (if old(t.read) <= t.read <= |t.copied| then Eats(t.copied[old(t.read)..t.read]) else [])
                       + (if mark == [] then [] else [Lost]) + (if idle == [] then [] else [Idle])
      ensures old(t.copied) <= t.copied && old(t.read) <= t.read <= old(t.read) + DRAIN_MAX
      ensures writeSpace > 0 && cap > 0 && old(t.read) < |old(t.copied)| ==> t.read > old(t.read)
      ensures mark == [] || (mark == [BIN_LOSS] && t.marked > old(t.marked) && old(t.marked) < t.dropped)
      ensures roomLoss && old(t.dropped) > old(t.marked) && t.dropped < old(t.marked) + WORD32 ==> mark == [BIN_LOSS]
      ensures idle == [] || (idle == [BIN_BOUNDARY] && t.read == |t.copied| && (nowMs - sniffLastMs) % WORD32 > 3)
      ensures idle != [] ==> capPiped || t.read == old(t.read) == old(t.since)
      ensures sniffLastMs == nowMs || sniffLastMs == old(sniffLastMs)
      ensures t.aligned ==> old(t.aligned)
      ensures t.intact ==> old(t.intact)
      ensures steps == old(steps) + [Step(nowMs, t.read, |t.copied|, capPiped)]
    {
      hide RleSniffer.Valid, AllMarked, LastMs, SinceOf, ReadOf, AllFed, Eats, Silenced;
      ghost var t0 := t;
      var dst, lossMark, sawActivity := ShipAndMark(writeSpace, cap, roomLoss, fires);
      ghost var t5 := t;
      body, mark := dst, lossMark;
      idle := CloseIdle(nowMs, sawActivity, roomIdle);
      SilencedIs(t5, sawActivity || t5.read < |t5.copied|, idle != []);
      wire := dst + lossMark + idle;
      assert t0.wire + (dst + lossMark) + idle == t0.wire + wire;
      Note(nowMs, t0, mark, idle);
    }

    /** Stage 2 and the loss marker. */
    method ShipAndMark(writeSpace: nat, cap: nat, roomLoss: bool, fires: nat -> seq<nat -> seq<byte>>)
      returns (dst: seq<byte>, mark: seq<byte>, saw: bool)
      requires Valid()
      modifies this, fifo, ring
      ensures Valid() && |dst| <= cap && t.wire == old(t.wire) + (dst + mark)
      ensures old(t.copied) <= t.copied && old(t.read) <= t.read <= |t.copied| && t.read <= old(t.read) + DRAIN_MAX
      ensures t.evs == old(t.evs) + Eats(t.copied[old(t.read)..t.read]) + (if mark == [] then [] else [Lost])
      ensures writeSpace > 0 && cap > 0 && old(t.read) < |old(t.copied)| ==> t.read > old(t.read)
      ensures mark == [] || (mark == [BIN_LOSS] && t.marked > old(t.marked) && old(t.marked) < t.dropped)
      ensures roomLoss && old(t.dropped) > old(t.marked) && t.dropped < old(t.marked) + WORD32 ==> mark == [BIN_LOSS]
      ensures if t.read == old(t.read) then !saw && capPiped == old(capPiped) else saw == !capPiped
      ensures t.since == old(t.since) && sniffLastMs == old(sniffLastMs) && steps == old(steps)
      ensures t.aligned ==> old(t.aligned)
      ensures t.intact ==> old(t.intact)
    {
      hide RleSniffer.Valid, Later, Consumed, Rewound, Marking;
      Interrupts(fires(0));
      ghost var t1 := t;
      dst, saw := Ship(writeSpace, cap, i => fires(i + 2));
      ghost var t2 := t;
      Interrupts(fires(1));
      ghost var t3 := t;
      mark := AnnounceLoss(roomLoss);
      ghost var t4 := t;
      Interrupts(fires(2 + DRAIN_MAX));
      ServiceSteps(old(t), t1, t2, t3, t4, t, dst, mark);
      LaterFacts(old(t), t1);
    }

    /** The call joins the history. */
    ghost method Note(nowMs: uint32, t0: Tally, mark: seq<byte>, idle: seq<byte>)
      requires Valid() && (capPiped || t.read == t.since) && ReadOf(steps) == t0.read <= t.read <= |t.copied|
      requires var live := (t.read > ReadOf(steps) && !capPiped) || t.read < |t.copied|;
               && sniffLastMs == (if live then nowMs else LastMs(began, steps))
               && t.since == (if live then t.read else SinceOf(steps))
      requires t.evs == t0.evs + (if t0.read <= t.read <= |t.copied| then Eats(t.copied[t0.read..t.read]) else [])
                        + (if mark == [] then [] else [Lost]) + (if idle == [] then [] else [Idle])
      requires AllFed(began, steps) ==> AllMarked(t0.evs)
      requires idle != [] ==> capPiped || (t.read == SinceOf(steps) && (nowMs - LastMs(began, steps)) % WORD32 > 3)
      modifies this`steps
      ensures Ready() && steps == old(steps) + [Step(nowMs, t.read, |t.copied|, capPiped)]
    {
      hide Fifo.Valid, RamBooks, DrainBooks, UsbBooks, AllMarked, AllFed, LastMs, SinceOf, ReadOf;
      var c := Step(nowMs, t.read, |t.copied|, capPiped);
      MarksAfter(this, t0, mark, idle);
      StepTaken(began, steps, c);
      steps := steps + [c];
    }
  }

  // ---- many calls ----------------------------------------------------------------------------------

  /** One call of service() and what happens around it. */
  datatype Turn = Turn(nowMs: uint32, writeSpace: nat, cap: nat, roomLoss: bool, roomIdle: bool,
                       fires: nat -> seq<nat -> seq<byte>>)

  /** One call of service(), as it ends: its time, the bytes consumed so far, the bytes copied to RAM so far,
      and whether the open run has got its idle mark. */
  datatype Step = Step(nowMs: uint32, read: nat, copied: nat, piped: bool)

  function ReadOf(steps: seq<Step>): nat { if steps == [] then 0 else steps[|steps| - 1].read }

  /** The call saw activity, or bytes still wait in RAM. */
  predicate Live(before: nat, c: Step) { (c.read > before && !c.piped) || c.read < c.copied }

  /** The time of the last activity, and the bytes consumed by then. */
  function LastMs(began: uint32, steps: seq<Step>): uint32
    decreases |steps|
  {
    if steps == [] then began
    else
      var init, c := steps[..|steps| - 1], steps[|steps| - 1];
      if Live(ReadOf(init), c) then c.nowMs else LastMs(began, init)
  }

  function SinceOf(steps: seq<Step>): nat
    decreases |steps|
  {
    if steps == [] then 0
    else
      var init, c := steps[..|steps| - 1], steps[|steps| - 1];
      if Live(ReadOf(init), c) then c.read else SinceOf(init)
  }

  /** At every call the main loop consumed a byte, or had done so within the 3 ms before it. */
  predicate AllFed(began: uint32, steps: seq<Step>)
    decreases |steps|
  {
    steps == [] ||
    var init, c := steps[..|steps| - 1], steps[|steps| - 1];
    AllFed(began, init) && (c.read > SinceOf(init) || (c.nowMs - LastMs(began, init)) % WORD32 <= 3)
  }

  lemma StepTaken(began: uint32, init: seq<Step>, c: Step)
    ensures var steps, live := init + [c], Live(ReadOf(init), c);
            && ReadOf(steps) == c.read
            && LastMs(began, steps) == (if live then c.nowMs else LastMs(began, init))
            && SinceOf(steps) == (if live then c.read else SinceOf(init))
            && (AllFed(began, steps) <==>
                  AllFed(began, init) &&
                  (c.read > SinceOf(init) || (c.nowMs - LastMs(began, init)) % WORD32 <= 3))
  {
    assert (init + [c])[..|init|] == init;
  }

  /** Every idle boundary so far followed a mark of the squelch. */
  ghost predicate AllMarked(evs: seq<Ev>) {
    forall h :: h in AtIdles(CAP_IDLE_K, OPEN, evs) ==> h.piped
  }

  /** Any number of calls, with interrupts anywhere: they are all in the history, and if the main loop was fed at
      each, every idle boundary on the wire followed a mark of the squelch. While USB has room each call
      takes a byte out of RAM, if there is one. */
  method Session(s: RleSniffer, turns: seq<Turn>)
    requires s.Ready()
    modifies s, s.fifo, s.ring
    ensures s.Ready() && |s.steps| == |old(s.steps)| + |turns| && old(s.steps) <= s.steps
    ensures forall i :: 0 <= i < |turns| ==> s.steps[|old(s.steps)| + i].nowMs == turns[i].nowMs
    ensures AllFed(s.began, s.steps) ==> AllMarked(s.t.evs)
    ensures old(s.t.copied) <= s.t.copied && old(s.t.wire) <= s.t.wire
    ensures (forall i :: 0 <= i < |turns| ==> turns[i].writeSpace > 0 && turns[i].cap > 0) ==>
              s.t.read >= Min(|old(s.t.copied)|, old(s.t.read) + |turns|)
  {
    hide RleSniffer.Valid, AllMarked, AllFed, LastMs, SinceOf, ReadOf;
    for i := 0 to |turns|
      invariant s.Ready() && |s.steps| == |old(s.steps)| + i && old(s.steps) <= s.steps
      invariant forall j :: 0 <= j < i ==> s.steps[|old(s.steps)| + j].nowMs == turns[j].nowMs
      invariant old(s.t.copied) <= s.t.copied && old(s.t.wire) <= s.t.wire
      invariant (forall j :: 0 <= j < |turns| ==> turns[j].writeSpace > 0 && turns[j].cap > 0) ==>
                  s.t.read >= Min(|old(s.t.copied)|, old(s.t.read) + i)
    {
      var wire, body, mark, idle := s.Service(turns[i].nowMs, turns[i].writeSpace, turns[i].cap, turns[i].roomLoss,
                                              turns[i].roomIdle, turns[i].fires);
    }
  }

  /** The idle boundary of one call stands where the squelch stands after it. */
  lemma MarksAfter(s: RleSniffer, t: Tally, mark: seq<byte>, idle: seq<byte>)
    requires s.Valid()
    requires s.t.evs == t.evs + (if t.read <= s.t.read <= |s.t.copied| then Eats(s.t.copied[t.read..s.t.read]) else [])
                        + (if mark == [] then [] else [Lost]) + (if idle == [] then [] else [Idle])
    ensures AllMarked(t.evs) && (idle != [] ==> s.capPiped) ==> AllMarked(s.t.evs)
  {
    hide RleSniffer.Valid, Out, Eaten, AtIdles, HoldAfter;
    HoldIs(s);
    var bytes := if t.read <= s.t.read <= |s.t.copied| then s.t.copied[t.read..s.t.read] else [];
    assert Eats([]) == [];
    var lost, end := if mark == [] then [] else [Lost], if idle == [] then [] else [Idle];
    IdlesOfCall(t.evs, bytes, lost, end, Hold(s.capRun, s.capPiped));
  }

  lemma HoldIs(s: RleSniffer)
    requires s.Valid()
    ensures HoldAfter(CAP_IDLE_K, OPEN, Eaten(s.t.evs)) == Hold(s.capRun, s.capPiped)
  {
    hide Fifo.Valid, RamBooks, DrainBooks, HoldAfter, Out, Eaten;
  }

  lemma IdlesOfCall(evs: seq<Ev>, bytes: seq<byte>, lost: seq<Ev>, end: seq<Ev>, h: Hold)
    requires (lost == [] || lost == [Lost]) && (end == [] || end == [Idle])
    requires HoldAfter(CAP_IDLE_K, OPEN, Eaten(evs + Eats(bytes) + lost + end)) == h
    ensures AtIdles(CAP_IDLE_K, OPEN, evs + Eats(bytes) + lost + end) ==
            AtIdles(CAP_IDLE_K, OPEN, evs) + (if end == [] then [] else [h])
  {
    hide Out, Eaten, AtIdles, HoldAfter, Eats;
    var k, eats := CAP_IDLE_K, Eats(bytes);
    var with, all := evs + eats, evs + eats + lost;
    OutSplits(k, OPEN, all, end);
    OutSplits(k, OPEN, with, lost);
    OutSplits(k, OPEN, evs, eats);
    OutOfEats(k, HoldAfter(k, OPEN, Eaten(evs)), bytes);
    NoEvents(k, HoldAfter(k, OPEN, Eaten(with)));
    OutOfMark(k, HoldAfter(k, OPEN, Eaten(with)));
    NoEvents(k, HoldAfter(k, OPEN, Eaten(all)));
    OutOfMark(k, HoldAfter(k, OPEN, Eaten(all)));
    var holds := AtIdles(k, OPEN, evs);
    assert holds + [] == holds && Eaten(all) + [] == Eaten(all);
  }

  lemma SameLow32(a: nat, b: nat)
    requires a <= b
    ensures a % WORD32 == b % WORD32 && b < a + WORD32 ==> a == b
  {
    assert b - a == WORD32 * (b / WORD32 - a / WORD32) + (b % WORD32 - a % WORD32);
  }

  /** What any number of interrupts leave alone. */
  ghost predicate Later(t: Tally, t': Tally) {
    && t.copied <= t'.copied && MainOf(t') == MainOf(t)
    && t.dropped <= t'.dropped && (t'.aligned ==> t.aligned) && (t'.intact ==> t.intact)
  }

  lemma LaterSame(t: Tally)
    ensures Later(t, t)
  {}

  lemma LaterFacts(t: Tally, t': Tally)
    requires Later(t, t')
    ensures t.copied <= t'.copied && t'.read == t.read && t'.since == t.since && t.dropped <= t'.dropped
  {}

  lemma LaterTrans(t: Tally, t': Tally, t'': Tally)
    requires Later(t, t') && Later(t', t'')
    ensures Later(t, t'') && |t'.copied| <= |t''.copied| && MainOf(t'') == MainOf(t') == MainOf(t)
  {}

  /** i bytes of the RAM ring are consumed and dst is shipped for them. */
  function Eating(t: Tally, i: nat, dst: seq<byte>): Tally
    requires t.read + i <= |t.copied|
  {
    t.(read := t.read + i, evs := t.evs + Eats(t.copied[t.read..t.read + i]), wire := t.wire + dst)
  }

  function Marking(t: Tally, e: Ev): Tally
    requires !e.Eat?
  {
    t.(evs := t.evs + [e], wire := t.wire + [if e.Idle? then BIN_BOUNDARY else BIN_LOSS])
  }

  /** The main loop has consumed some bytes and shipped dst. */
  ghost predicate Consumed(t: Tally, t': Tally, dst: seq<byte>) {
    && t.read <= t'.read <= |t'.copied| && t'.wire == t.wire + dst && t'.marked == t.marked && t'.since == t.since
    && t'.evs == t.evs + Eats(t'.copied[t.read..t'.read])
  }

  /** The end of service(): the time of the last activity, and an idle boundary. */
  function Silenced(t: Tally, live: bool, idle: bool): Tally {
    var u := if live then t.(since := t.read) else t;
    if idle then Marking(u, Idle) else u
  }

  lemma SilencedIs(t: Tally, live: bool, idle: bool)
    ensures var u := Silenced(t, live, idle);
            && u.copied == t.copied && u.read == t.read && u.since == (if live then t.read else t.since)
            && u.evs == t.evs + (if idle then [Idle] else [])
            && u.wire == t.wire + (if idle then [BIN_BOUNDARY] else [])
            && u.marked == t.marked && u.dropped == t.dropped && u.aligned == t.aligned && u.intact == t.intact
  {
    assert t.evs + [] == t.evs && t.wire + [] == t.wire;
  }

  /** The steps of stage 2 add up. */
  lemma ServiceSteps(t0: Tally, t1: Tally, t2: Tally, t3: Tally, t4: Tally, t5: Tally, dst: seq<byte>, mark: seq<byte>)
    requires Later(t0, t1) && Later(t1, Rewound(t2, t1)) && Consumed(t1, t2, dst) && Later(t2, t3)
    requires t4 == if mark == [] then t3 else Marking(t3, Lost).(marked := t3.dropped)
    requires Later(t4, t5) && (mark == [] || mark == [BIN_LOSS])
    ensures t0.copied <= t2.copied <= t5.copied && t0.read <= t2.read == t5.read <= |t5.copied|
    ensures t5.wire == t0.wire + (dst + mark)
    ensures t5.evs == t0.evs + Eats(t5.copied[t0.read..t5.read]) + (if mark == [] then [] else [Lost])
    ensures (t5.aligned ==> t0.aligned) && (t5.intact ==> t0.intact) && t0.dropped <= t3.dropped <= t5.dropped
    ensures t1.marked == t0.marked == t3.marked && t5.marked == t4.marked && t1.since == t5.since == t0.since
    ensures t1.read == t0.read
  {
    assert t2.copied[t0.read..t2.read] == t5.copied[t0.read..t2.read];
    hide Eats;
    assert t0.wire + (dst + mark) == t0.wire + dst + mark;
    if mark == [] {
      assert t3.wire + [] == t3.wire && t3.evs + [] == t3.evs;
    }
  }

  lemma ReadWhat(t: Tally, hold: Hold, lossSeen: uint32)
    requires UsbBooks(t, hold, lossSeen)
    ensures t.read <= |t.copied|
  {}

  lemma ConsumedNothing(t: Tally)
    requires t.read <= |t.copied|
    ensures Consumed(t, t, [])
  {
    assert t.copied[t.read..t.read] == [] && Eats([]) == [] && t.evs + [] == t.evs && t.wire + [] == t.wire;
  }

  /** A mark adds its byte and consumes nothing. */
  lemma MarkingKeeps(t: Tally, e: Ev)
    requires !e.Eat? && t.wire == Out(CAP_IDLE_K, OPEN, t.evs)
    ensures var t' := Marking(t, e); t'.wire == Out(CAP_IDLE_K, OPEN, t'.evs) && Eaten(t'.evs) == Eaten(t.evs)
    ensures Lost in t.evs + [e] <==> e == Lost || Lost in t.evs
  {
    hide Out, Eaten, HoldAfter;
    OutSplits(CAP_IDLE_K, OPEN, t.evs, [e]);
    OutOfMark(CAP_IDLE_K, HoldAfter(CAP_IDLE_K, OPEN, Eaten(t.evs)));
    assert Eaten(t.evs) + [] == Eaten(t.evs);
  }

  lemma UnreadAt(t: Tally, buf: seq<byte>, head: uint16, tail: uint16, i: nat)
    requires RamBooks(t, buf, head, tail) && t.read + i < |t.copied|
    ensures |buf| == RING_SZ && buf[(tail + i) % WORD16 % RING_SZ] == t.copied[t.read + i]
    ensures t.copied[t.read..t.read + i + 1] == t.copied[t.read..t.read + i] + [buf[(tail + i) % WORD16 % RING_SZ]]
  {
    RingArithmetic(|t.copied|, t.read, i);
  }

  lemma SquelchSnoc(k: nat, h: Hold, s: seq<byte>, b: byte)
    ensures Squelched(k, h, s + [b]) == Squelched(k, h, s) + SquelchByte(k, HoldAfter(k, h, s), b).1
    ensures HoldAfter(k, h, s + [b]) == SquelchByte(k, HoldAfter(k, h, s), b).0
  {
    SquelchSplits(k, h, s, [b]);
    var h' := HoldAfter(k, h, s);
    SquelchCons(k, h', b, []);
    SquelchEnd(k, SquelchByte(k, h', b).0);
    hide SquelchByte, Squelched, HoldAfter;
    assert [b] + [] == [b];
    assert SquelchByte(k, h', b).1 + [] == SquelchByte(k, h', b).1;
  }

  /** The main loop consumes i bytes: the outputs of successive calls add up. */
  lemma Consume(t: Tally, buf: seq<byte>, head: uint16, tail: uint16, hold: Hold, lossSeen: uint32, i: nat,
                dst: seq<byte>)
    requires RamBooks(t, buf, head, tail) && UsbBooks(t, hold, lossSeen) && t.read + i <= |t.copied|
    requires dst == Squelched(CAP_IDLE_K, hold, t.copied[t.read..t.read + i])
    ensures var t' := Eating(t, i, dst);
            && RamBooks(t', buf, head, Add16(tail, i))
            && UsbBooks(t', HoldAfter(CAP_IDLE_K, hold, t.copied[t.read..t.read + i]), lossSeen)
  {
    hide Squelched, HoldAfter, Out, Eaten, Eats;
    var first, more := t.copied[..t.read], t.copied[t.read..t.read + i];
    SquelchSplits(CAP_IDLE_K, OPEN, first, more);
    OutSplits(CAP_IDLE_K, OPEN, t.evs, Eats(more));
    OutOfEats(CAP_IDLE_K, hold, more);
    assert first + more == t.copied[..t.read + i];
    Wrap16(t.read, i);
  }

  lemma ConsumeFree(t: Tally, history: seq<byte>, published: nat, sniffTail: byte, sniffSlot: nat, ramDrop: uint32,
                    i: nat, dst: seq<byte>)
    requires DrainBooks(t, history, published, sniffTail, sniffSlot, ramDrop)
    requires t.read + i <= |t.copied|
    ensures DrainBooks(Eating(t, i, dst), history, published, sniffTail, sniffSlot, ramDrop)
  {}

  /** The physical cursor after the copy; an overrun has already moved it. */
  function AfterSlot(slot: nat, rawGap: byte): (next: nat)
    ensures slot < SLOTS ==> next < SLOTS
  {
    if rawGap > SLOTS then slot
    else if slot + rawGap >= SLOTS then slot + rawGap - SLOTS else slot + rawGap
  }

  lemma AddNothing(n: uint32)
    ensures Add32(n, 0) == n
  {}

  lemma FoldOnce(slot: nat, advance: nat)
    requires slot < SLOTS && advance < SLOTS
    ensures Folded(slot, advance) == if slot + advance >= SLOTS then slot + advance - SLOTS else slot + advance
  {}

  lemma HeadIs(fifo: Fifo)
    requires fifo.Valid()
    ensures fifo.head == fifo.Published() % 256
  {}

  lemma DrainFacts(t: Tally, history: seq<byte>, published: nat, sniffTail: byte, sniffSlot: nat, ramDrop: uint32)
    requires DrainBooks(t, history, published, sniffTail, sniffSlot, ramDrop)
    ensures sniffSlot < SLOTS && t.taken <= published && ramDrop < WORD32
    ensures t.aligned ==> Cursors(t.taken, sniffTail, sniffSlot)
  {}

  /** Where the cursors point when the copy starts, and where they will be after it. */
  lemma DrainCursors(t: Tally, seen: nat, h: byte, tail: byte, slot: nat, rawGap: byte, gap: nat, entry: nat)
    requires slot < SLOTS && t.taken <= seen && h == seen % 256 && rawGap == Sub8(h, tail)
    requires gap == (if rawGap > SLOTS then SLOTS else rawGap)
    requires entry == (if rawGap > SLOTS then Folded(slot, rawGap) else slot)
    requires t.aligned ==> Cursors(t.taken, tail, slot)
    ensures t.aligned && seen - t.taken < 256 ==>
              && rawGap == seen - t.taken && gap <= rawGap && entry == (seen - gap) % SLOTS
              && Cursors(seen, Add8(if rawGap > SLOTS then Sub8(h, SLOTS) else tail, gap),
                         AfterSlot(entry, rawGap))
  {
    if t.aligned && seen - t.taken < 256 {
      GapIsLag(t.taken, seen);
      SlotFollows(t.taken, rawGap);
      TailFollows(t.taken, rawGap);
      TailAfterOverrun(h);
      if rawGap < SLOTS {
        FoldOnce(slot, rawGap);
      } else if rawGap == SLOTS {
        FoldStep(slot, SLOTS);
        FoldOnce(slot, 0);
      }
      hide Folded;
    }
  }

  lemma AfterDrainKeeps(t: Tally, seen: nat, gap: nat, grabbed: seq<byte>, whole: bool)
    requires t.taken <= seen && |grabbed| <= gap
    ensures var t' := AfterDrain(t, seen, gap, grabbed, whole);
            Later(t, t') && t'.aligned == (t.aligned && seen - t.taken < 256)
  {}

  lemma RamHolds(t: Tally, buf: seq<byte>, head: uint16, tail: uint16)
    requires RamBooks(t, buf, head, tail)
    ensures Buffered(buf, t.copied, t.read) && head == |t.copied| % WORD16 && tail == t.read % WORD16
    ensures t.read <= |t.copied| && Count16(head, tail) == |t.copied| - t.read <= RING_MASK
  {
    RingArithmetic(|t.copied|, t.read, 0);
  }

  lemma RamKeeps(t: Tally, grabbed: seq<byte>, gap: nat, seen: nat, whole: bool, buf: seq<byte>, head: uint16,
                 tail: uint16)
    requires t.taken <= seen && |grabbed| <= gap && Buffered(buf, t.copied + grabbed, t.read)
    requires head == |t.copied| % WORD16 && tail == t.read % WORD16
    ensures RamBooks(AfterDrain(t, seen, gap, grabbed, whole), buf, Add16(head, |grabbed|), tail)
  {
    hide Buffered;
    Wrap16(|t.copied|, |grabbed|);
  }

  /** The interrupt adds behind what the main loop has read. */
  lemma UsbBooksGrow(t: Tally, t': Tally, hold: Hold, lossSeen: uint32)
    requires UsbBooks(t, hold, lossSeen)
    requires Later(t, t')
    ensures UsbBooks(t', hold, lossSeen)
  {
    assert t.copied[..t.read] == t'.copied[..t.read];
  }

  lemma CellIs(x: nat, i: nat)
    ensures (x % WORD16 + i) % RING_SZ == (x + i) % RING_SZ
  {
    var q := x / WORD16;
    assert x + i == RING_SZ * (32 * q) + (x % WORD16 + i);
  }

  lemma PublishedBound(fifo: Fifo)
    requires fifo.Valid()
    ensures fifo.Published() <= |fifo.history|
  {}

  // ---- main results --------------------------------------------------------------------------------

  /** With nothing dropped or lost, the copied bytes are the stored bytes. */
  lemma {:induction false} OriginIsIndex(origin: seq<nat>, i: nat)
    requires forall a, b :: 0 <= a < b < |origin| ==> origin[a] < origin[b]
    requires i < |origin|
    ensures origin[i] >= i
  {
    if i > 0 {
      OriginIsIndex(origin, i - 1);
      assert origin[i - 1] < origin[i];
    }
  }

  lemma {:induction false} OriginFull(origin: seq<nat>, n: nat, i: nat)
    requires forall a, b :: 0 <= a < b < |origin| ==> origin[a] < origin[b]
    requires forall a :: 0 <= a < |origin| ==> origin[a] < n
    requires |origin| == n && i < n
    ensures origin[i] == i
    decreases n - i
  {
    OriginIsIndex(origin, i);
    if i + 1 < n {
      OriginFull(origin, n, i + 1);
      assert origin[i] < origin[i + 1];
    }
  }

  lemma AllCopied(copied: seq<byte>, origin: seq<nat>, history: seq<byte>, taken: nat)
    requires InOrder(copied, origin, history, taken) && |copied| == taken
    ensures copied == history[..taken]
  {
    forall i | 0 <= i < taken
      ensures origin[i] == i
    {
      OriginFull(origin, taken, i);
    }
  }

  /** Conservation: a published byte is copied, counted as dropped, counted as lost to an
      overrun, or still in the FIFO; and what is copied is in storage order, without repeats. */
  lemma Conservation(s: RleSniffer)
    requires s.Valid() && s.t.aligned
    ensures s.fifo.Published() == |s.t.copied| + s.t.dropped + s.t.lost + (s.fifo.Published() - s.t.taken)
    ensures s.t.taken <= s.fifo.Published() && s.ramDrop == s.t.dropped % WORD32
    ensures |s.t.copied| - s.t.read <= RING_MASK
    ensures s.t.intact ==> InOrder(s.t.copied, s.t.origin, s.fifo.history, s.t.taken)
    ensures s.t.wire == Out(CAP_IDLE_K, OPEN, s.t.evs) && Eaten(s.t.evs) == s.t.copied[..s.t.read]
  {
    hide InOrder, Fifo.Valid, Out, Eaten, HoldAfter;
  }

  /** What the host is to read of a pin: the counted length of every finished level block, each of
      150 continuation bytes or more cut short at an idle mark, and the idle mark of the open
      block if it has lasted that long. */
  function PinRuns(samples: seq<bit>): seq<nat> {
    SquelchedRuns(CAP_IDLE_K, Counted(samples, 1, 0)) + OpenRun(CAP_IDLE_K, OpenBlock(samples, 1, 0))
  }

  /** Everything stored has been drained, and nothing was lost. */
  ghost predicate Drained(s: RleSniffer, samples: seq<bit>)
    reads s, s.fifo, s.ring
  {
    && s.Ready() && s.t.aligned && s.t.intact && s.t.dropped == 0 && s.t.lost == 0
    && s.t.taken == |s.fifo.history| && s.t.read == |s.t.copied| && s.fifo.history == BlobBytes(samples, 1, 0)
  }

  /** Every idle boundary followed a mark; it is enough that the main loop was never without a byte for more
      than 3 ms. */
  ghost predicate Unbroken(s: RleSniffer)
    reads s
  {
    AllMarked(s.t.evs) || AllFed(s.began, s.steps)
  }

  lemma DrainedWire(s: RleSniffer, samples: seq<bit>)
    requires Drained(s, samples)
    ensures Eaten(s.t.evs) == BlobBytes(samples, 1, 0) && s.t.wire == Out(CAP_IDLE_K, OPEN, s.t.evs)
    ensures Lost !in s.t.evs && forall b :: b in Eaten(s.t.evs) ==> b <= CAP
    ensures Rebuild(ItemsOf(Squelched(CAP_IDLE_K, OPEN, Eaten(s.t.evs))), 0) == PinRuns(samples)
    ensures Reachable(CAP_IDLE_K, OPEN) && Summed(OPEN) == 0 && CAP_IDLE_K > 0 && !OPEN.piped
  {
    hide Fifo.Valid, Squelched, HoldAfter, RunsBytes, BlobBytes, ItemsOf, Rebuild, SquelchedRuns, InOrder, Buffered,
         Counted, OpenBlock, OpenRun, Caps, Out, Eaten;
    AllCopied(s.t.copied, s.t.origin, s.fifo.history, s.t.taken);
    assert s.t.copied[..s.t.read] == s.fifo.history;
    var open := OpenBlock(samples, 1, 0);
    BlobCounts(samples, 1, 0, 0);
    BlobIsRuns(samples, 1, 0, 0);
    assert Caps(0) + BlobBytes(samples, 1, 0) == BlobBytes(samples, 1, 0);
    SquelchMeaning(CAP_IDLE_K, Counted(samples, 1, 0), open / CAP);
    OpenRunIs(CAP_IDLE_K, open);
  }

  /** Run-length datapath end to end: when everything stored has been drained and nothing was
      lost, the host reads off the wire, whatever the budgets and the interleaving, what the pin
      did, and one boundary run more at each idle boundary, provided these stand between runs. */
  lemma HostReadsThePin(s: RleSniffer, samples: seq<bit>)
    requires Drained(s, samples)
    requires forall h :: h in AtIdles(CAP_IDLE_K, OPEN, s.t.evs) ==> Between(h)
    ensures var gs := Groups(CAP_IDLE_K, OPEN, s.t.evs);
            && |gs| == 1 + |AtIdles(CAP_IDLE_K, OPEN, s.t.evs)|
            && Flat(gs) == PinRuns(samples) && Rebuild(ItemsOf(s.t.wire), 0) == Marked(gs)
  {
    hide *;
    DrainedWire(s, samples);
    WireReads(CAP_IDLE_K, OPEN, s.t.evs);
  }

  /** When each follows the squelch's own mark, as in any run whose main loop was fed, only boundary runs
      are repeated. */
  lemma HostReadsRepeats(s: RleSniffer, samples: seq<bit>)
    requires Drained(s, samples) && Unbroken(s)
    ensures Thick(PinRuns(samples), Rebuild(ItemsOf(s.t.wire), 0), false)
  {
    DrainedWire(s, samples);
    hide Out, Eaten, AtIdles, Drained, PinRuns, Squelched, ItemsOf, Rebuild, Thick;
    WireRepeats(CAP_IDLE_K, OPEN, s.t.evs);
  }

  lemma OpenRunIs(k: nat, open: nat)
    ensures OpenRun(k, CAP * (open / CAP)) == OpenRun(k, open)
  {}
}
