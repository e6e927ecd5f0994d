/** The clocked capture program (pioc/clocked_sniffer.ASM), one micro-step at a time: it
    rotates samples into a sentinel-seeded accumulator, stores each full byte into a 16-slot
    ring, publishes the byte count, and wraps its pointer. The CPU may read between any two
    steps. */
module ClockedBlob {
  import opened Bytes

  const SLOTS: nat := 16

  /** Bit positions of the program: n < 8 samples are in the accumulator, or the byte is
      full, stored, or published. */
  const FULL: nat := 8
  const STORED: nat := 9
  const PUBLISHED: nat := 10

  /** The program's place after k more steps, and how many of these steps sample or store. */
  function At(phase: nat, k: nat): nat { (phase + k) % (PUBLISHED + 1) }

  function Samples(phase: nat, k: nat): nat {
    if k == 0 then 0 else Samples(phase, k - 1) + if At(phase, k - 1) < FULL then 1 else 0
  }

  function Stores(phase: nat, k: nat): nat {
    if k == 0 then 0 else Stores(phase, k - 1) + if At(phase, k - 1) == FULL then 1 else 0
  }

  /** The program as a value. */
  datatype Prog = Prog(all: seq<bit>, epoch: nat, phase: nat, stored: nat)

  /** The levels that are sampled, of those found at successive steps. */
  function Sampled(phase: nat, levels: seq<bit>): (bits: seq<bit>)
    ensures |bits| == Samples(phase, |levels|)
  {
    if levels == [] then []
    else
      var n := |levels| - 1;
      Sampled(phase, levels[..n]) + if At(phase, n) < FULL then [levels[n]] else []
  }

  /** The program some steps later. */
  function Ahead(p: Prog, levels: seq<bit>): Prog {
    Prog(p.all + Sampled(p.phase, levels), p.epoch, At(p.phase, |levels|), p.stored + Stores(p.phase, |levels|))
  }

  /** ... and after MCU_START. */
  function Anew(p: Prog): Prog { Prog(p.all, |p.all|, 0, 0) }

  /** HEAD, before it wraps. */
  function HeadOf(p: Prog): nat {
    if p.phase == STORED && p.stored > 0 then p.stored - 1 else p.stored
  }

  /** The accumulator: the samples below their seed, or the byte until the next seed. */
  function AccOf(p: Prog): nat {
    if p.phase < FULL then Seeded(if p.phase <= |p.all| then p.all[|p.all| - p.phase..] else [])
    else Val(if 8 <= |p.all| then p.all[|p.all| - 8..] else [])
  }

  predicate Sound(p: Prog) {
    && p.phase <= PUBLISHED && (p.phase >= STORED ==> p.stored > 0)
    && |p.all| == p.epoch + 8 * p.stored + (if p.phase <= FULL then p.phase else 0)
  }

  lemma NoSteps(p: Prog)
    requires p.phase <= PUBLISHED
    ensures Ahead(p, []) == p
  {}

  lemma AtNext(phase: nat, k: nat)
    ensures At(phase, k + 1) == if At(phase, k) == PUBLISHED then 0 else At(phase, k) + 1
    ensures phase <= PUBLISHED ==> At(phase, 0) == phase
  {}

  /** The byte the j-th group of eight bits makes. */
  function ByteAt(bits: seq<bit>, j: nat): byte
    requires 8 * j + 8 <= |bits|
  {
    assert Pow2(8) == 256;
    Val(bits[8 * j..8 * j + 8])
  }

  /** RCL: rotate left through carry; the old top bit leaves through the carry. */
  function Rcl(acc: byte, sample: bit): byte {
    (2 * acc + sample) % 256
  }

  /** The accumulator after the samples of an unfinished byte. */
  function Seeded(samples: seq<bit>): (acc: nat)
  {
    Pow2(|samples|) + Val(samples)
  }

  /** Seven rotations keep the seed above the samples; the eighth pushes it out. */
  lemma RclStep(samples: seq<bit>, sample: bit)
    requires |samples| < 8
    ensures Seeded(samples) < 256
    ensures Rcl(Seeded(samples), sample) ==
            if |samples| == 7 then Val(samples + [sample]) else Seeded(samples + [sample])
  {
    hide Val, Pow2, Rcl;
    SmallPow2(|samples|);
    ValSnoc(samples, sample);
    RclNumber(Pow2(|samples|), Val(samples), sample);
  }

  lemma RclNumber(p: nat, v: nat, sample: bit)
    requires v < p && (p <= 64 || p == 128)
    ensures p + v < 256
    ensures Rcl(p + v, sample) == if p == 128 then 2 * v + sample else 2 * p + 2 * v + sample
  {}

  lemma ValSnoc(samples: seq<bit>, sample: bit)
    ensures Val(samples + [sample]) == 2 * Val(samples) + sample
    ensures Pow2(|samples| + 1) == 2 * Pow2(|samples|)
  {
    assert (samples + [sample])[..|samples|] == samples;
  }

  lemma SmallPow2(n: nat)
    requires n < 8
    ensures Pow2(n) <= 128 && (n < 7 ==> Pow2(n) <= 64) && (n == 7 ==> Pow2(n) == 128)
  {
    assert Pow2(0) == 1 && Pow2(1) == 2 && Pow2(2) == 4 && Pow2(3) == 8;
    assert Pow2(4) == 16 && Pow2(5) == 32 && Pow2(6) == 64 && Pow2(7) == 128;
  }

  class Blob {
    var slots: seq<byte>
    var ptr: nat
    var head: byte
    var acc: byte
    var phase: nat
    ghost var all: seq<bit>          // every bit sampled, over all restarts
    ghost var epoch: nat             // |all| at the last MCU_START
    ghost var stored: nat            // bytes stored since then
    ghost var restarts: seq<nat>     // |all| at each restart

    /** The bits sampled since the last start. */
    ghost function Bits(): seq<bit>
      requires epoch <= |all|
      reads this
    {
      all[epoch..]
    }

    ghost function View(): Prog
      reads this
    {
      Prog(all, epoch, phase, stored)
    }

    ghost function Published(): nat
      requires phase == STORED ==> stored > 0
      reads this
    {
      if phase == STORED then stored - 1 else stored
    }

    ghost predicate Valid()
      reads this
    {
      && epoch <= |all| && phase <= PUBLISHED && |slots| == SLOTS
      && (phase >= STORED ==> stored > 0)
      && |Bits()| == 8 * stored + (if phase <= FULL then phase else 0)
      && head == Low8(Published()) && ptr == PtrAt(stored, phase >= STORED, SLOTS)
      && (phase < FULL ==> acc == Seeded(all[|all| - phase..]))
      && (phase == FULL ==> acc == ByteAt(Bits(), stored))
      && (phase > FULL ==> acc == ByteAt(Bits(), stored - 1))
      && Retains(slots, Bits(), stored)
    }

    constructor ()
      ensures Valid() && all == [] && epoch == 0 && stored == 0 && head == 0 && phase == 0 && restarts == []
    {
      slots, ptr, head, acc, phase := seq(SLOTS, _ => 0), 0, 0, 1, 0;
      all, epoch, stored, restarts := [], 0, 0, [];
    }

    /** One step of the program; a sampling step takes the level found on the data pin. */
    method Step(level: bit)
      requires Valid()
      modifies this
      ensures Valid() && epoch == old(epoch) && restarts == old(restarts)
      ensures phase == if old(phase) == PUBLISHED then 0 else old(phase) + 1
      ensures all == old(all) + (if old(phase) < FULL then [level] else [])
      ensures stored == old(stored) + (if old(phase) == FULL then 1 else 0)
      ensures old(all) <= all && old(stored) <= stored && old(Published()) <= Published()
    {
      hide Retains, Seeded, ByteAt, Rcl, Val, Low8, PtrAt;
      PtrSteps(stored, SLOTS);
      Low8Steps(if stored == 0 then 0 else stored - 1);
      if phase < FULL {
        RclStep(all[|all| - phase..], level);
        SampleKeeps(slots, all, epoch, stored, phase, level);
        acc := Rcl(acc, level);
        all := all + [level];
        phase := phase + 1;
      } else if phase == FULL {
        StoreRetains(slots, Bits(), stored);
        slots := slots[ptr := acc];
        ptr := ptr + 1;
        stored := stored + 1;
        phase := STORED;
      } else if phase == STORED {
        head := (head + 1) % 256;
        phase := PUBLISHED;
      } else {
        if ptr == SLOTS {
          ptr := 0;
        }
        acc := 1;
        phase := 0;
        SeededEmpty(all[|all|..]);
      }
    }

    /** Any number of steps between two reads of the CPU. */
    method Run(levels: seq<bit>)
      requires Valid()
      modifies this
      ensures Valid() && epoch == old(epoch) && restarts == old(restarts)
      ensures old(all) <= all && old(stored) <= stored && old(Published()) <= Published()
      ensures View() == Ahead(old(View()), levels)
    {
      hide At, Retains, Seeded, ByteAt, Low8, PtrAt, Samples;
      AtNext(phase, 0);
      assert all + [] == all && levels[..0] == [];
      for i := 0 to |levels|
        invariant Valid() && epoch == old(epoch) && restarts == old(restarts)
        invariant old(all) <= all && old(stored) <= stored && old(Published()) <= Published()
        invariant phase == At(old(phase), i) && all == old(all) + Sampled(old(phase), levels[..i])
        invariant stored == old(stored) + Stores(old(phase), i)
      {
        AtNext(old(phase), i);
        Step(levels[i]);
        assert levels[..i + 1][..i] == levels[..i];
      }
      assert levels[..|levels|] == levels;
    }

    /** restartPioc: the program starts over at MCU_START; the slots keep their bytes. */
    method Restart()
      requires Valid()
      modifies this
      ensures Valid() && all == old(all) && epoch == |all| && stored == 0 && phase == 0 && head == 0
      ensures restarts == old(restarts) + [|all|] && View() == Anew(old(View()))
    {
      hide Seeded, ByteAt;
      SeededEmpty(all[|all|..]);
      head, ptr, acc, phase := 0, 0, 1, 0;
      epoch, stored, restarts := |all|, 0, restarts + [|all|];
    }
  }

  /** The ring holds the last SLOTS stored bytes, each where its count says. */
  ghost predicate Retains(slots: seq<byte>, bits: seq<bit>, stored: nat) {
    && |slots| == SLOTS && 8 * stored <= |bits|
    && forall j :: 0 <= j < stored <= j + SLOTS ==> slots[j % SLOTS] == ByteAt(bits, j)
  }

  lemma AccIs(b: Blob)
    requires b.Valid()
    ensures b.acc == AccOf(b.View()) && b.Published() == HeadOf(b.View()) && Sound(b.View())
  {
    hide Retains, Low8, PtrAt, Val, Seeded;
    if b.phase >= FULL {
      var j := if b.phase == FULL then b.stored else b.stored - 1;
      assert b.Bits()[8 * j..8 * j + 8] == b.all[|b.all| - 8..];
    }
  }

  lemma SeededEmpty(samples: seq<bit>)
    requires samples == []
    ensures Seeded(samples) == 1
  {}

  /** A sample changes nothing that is already stored. */
  lemma SampleKeeps(slots: seq<byte>, all: seq<bit>, epoch: nat, stored: nat, phase: nat, level: bit)
    requires epoch <= |all| && phase < FULL && |all| - epoch == 8 * stored + phase
    requires Retains(slots, all[epoch..], stored)
    ensures var next := all + [level];
            && Retains(slots, next[epoch..], stored)
            && next[|next| - (phase + 1)..] == all[|all| - phase..] + [level]
            && (phase == 7 ==> ByteAt(next[epoch..], stored) == Val(all[|all| - phase..] + [level]))
  {
    var next := all + [level];
    var bits, more := all[epoch..], next[epoch..];
    assert more == bits + [level];
    assert next[|next| - (phase + 1)..] == all[|all| - phase..] + [level];
    forall j | 0 <= j < stored
      ensures ByteAt(more, j) == ByteAt(bits, j)
    {
      assert more[8 * j..8 * j + 8] == bits[8 * j..8 * j + 8];
    }
    if phase == 7 {
      assert more[8 * stored..8 * stored + 8] == all[|all| - phase..] + [level];
    }
  }

  lemma StoreRetains(slots: seq<byte>, bits: seq<bit>, stored: nat)
    requires Retains(slots, bits, stored) && 8 * stored + 8 <= |bits|
    ensures Retains(slots[stored % SLOTS := ByteAt(bits, stored)], bits, stored + 1)
  {
    hide ByteAt;
    forall j | 0 <= j < stored && stored + 1 <= j + SLOTS
      ensures j % SLOTS != stored % SLOTS
    {
      DistinctSlots(j, stored, SLOTS);
    }
  }

  /** Torn-read-free: a published byte read before it is lapped is the byte that was stored
      under its count, whatever the program is doing meanwhile. */
  lemma ReadIsStored(slots: seq<byte>, bits: seq<bit>, stored: nat, j: nat, tail: byte)
    requires Retains(slots, bits, stored)
    requires j < stored <= j + SLOTS && tail == j % 256
    ensures slots[tail % SLOTS] == ByteAt(bits, j)
  {
    assert j % 256 % 16 == j % 16;
  }

  /** The seed's position gives the number of samples below it, and clearing it leaves them. */
  lemma SeedPosition(samples: seq<bit>)
    requires |samples| < 8
    ensures Pow2(|samples|) <= Seeded(samples) < 2 * Pow2(|samples|)
    ensures Seeded(samples) % Pow2(|samples|) == Val(samples)
  {
    var p, v := Pow2(|samples|), Val(samples);
    hide Val, Pow2;
    assert (p + v) / p == 1 && (p + v) % p == v by {
      ModOnce(p, v);
    }
  }

  lemma ModOnce(p: nat, v: nat)
    requires v < p
    ensures (p + v) / p == 1 && (p + v) % p == v
  {}
}
