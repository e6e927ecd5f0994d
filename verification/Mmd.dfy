/** The host's folding of register 13/14 accesses into MMD accesses (scripts/mdio_lib.py,
    MmdFolder; MMD indirect access: IEEE 802.3 Annex 22D). */
module Mmd {
  import opened Bytes
  import opened Cobs
  import opened Clause22

  const REG_MMD_CTRL: nat := 13
  const REG_MMD_DATA: nat := 14

  /** An access reported to the user; devad is None for a plain Clause-22 access, addr is None
      for an MMD access whose address was never seen. */
  datatype Event = Event(phy: nat, devad: Option<nat>, addr: Option<nat>, op: nat, data: Option<nat>,
                         noResponse: bool)

  /** What is known of each PHY's access control register and MMD addresses. */
  datatype Regs = Regs(func: map<nat, nat>, devad: map<nat, nat>, addr: map<(nat, nat), nat>)

  const UNKNOWN := Regs(map[], map[], map[])

  function PlainEvent(f: Frame): Event {
    Event(f.phyad, None, Some(f.regad), f.op, if f.noResponse then None else Some(f.data), f.noResponse)
  }

  function AddrOf(r: Regs, phy: nat, dev: nat): Option<nat> {
    if (phy, dev) in r.addr then Some(r.addr[(phy, dev)]) else None
  }

  /** One frame: the registers after it and the event it gives, if any. */
  function FoldOne(r: Regs, f: Frame): (Regs, Option<Event>) {
    var phy := f.phyad;
    if f.regad == REG_MMD_CTRL && f.op == OP_WRITE then
      (r.(func := r.func[phy := f.data / 0x4000 % 4], devad := r.devad[phy := f.data % 32]), None)
    else if f.regad == REG_MMD_DATA then
      if phy !in r.devad || phy !in r.func then (r, if f.noResponse then Some(PlainEvent(f)) else None)
      else
        var dev, func := r.devad[phy], r.func[phy];
        if func == 0 then
          if f.op == OP_WRITE then (r.(addr := r.addr[(phy, dev) := f.data]), None)
          else (r, if f.noResponse then Some(PlainEvent(f)) else None)
        else
          var at := AddrOf(r, phy, dev);
          if f.noResponse then (r, Some(Event(phy, Some(dev), at, f.op, None, true)))
          else
            var inc := func == 2 || (func == 3 && f.op == OP_WRITE);
            (if inc && at.Some? then r.(addr := r.addr[(phy, dev) := (at.value + 1) % WORD16]) else r,
             Some(Event(phy, Some(dev), at, f.op, Some(f.data), false)))
    else (r, Some(PlainEvent(f)))
  }

  function Folded(r: Regs, frames: seq<Frame>): seq<Event>
    decreases |frames|
  {
    if frames == [] then []
    else
      var (r', e) := FoldOne(r, frames[0]);
      (if e.Some? then [e.value] else []) + Folded(r', frames[1..])
  }

  function RegsAfter(r: Regs, frames: seq<Frame>): Regs
    decreases |frames|
  {
    if frames == [] then r else RegsAfter(FoldOne(r, frames[0]).0, frames[1..])
  }

  lemma FoldCons(r: Regs, f: Frame, rest: seq<Frame>)
    ensures Folded(r, [f] + rest) ==
            (if FoldOne(r, f).1.Some? then [FoldOne(r, f).1.value] else []) + Folded(FoldOne(r, f).0, rest)
    ensures RegsAfter(r, [f] + rest) == RegsAfter(FoldOne(r, f).0, rest)
  {
    hide FoldOne;
    assert ([f] + rest)[1..] == rest;
  }

  class MmdFolder {
    var func: map<nat, nat>
    var devad: map<nat, nat>
    var addr: map<(nat, nat), nat>

    function State(): Regs
      reads this
    {
      Regs(func, devad, addr)
    }

    constructor ()
      ensures State() == UNKNOWN
    {
      func, devad, addr := map[], map[], map[];
    }

    method Reset()
      modifies this
      ensures State() == UNKNOWN
    {
      func, devad, addr := map[], map[], map[];
    }

    method Feed(f: Frame) returns (e: Option<Event>)
      modifies this
      ensures (State(), e) == FoldOne(old(State()), f)
    {
      var op, phy, reg, data := f.op, f.phyad, f.regad, f.data;
      if reg == REG_MMD_CTRL && op == OP_WRITE {
        func := func[phy := data / 0x4000 % 4];
        devad := devad[phy := data % 32];
        return None;
      }
      if reg == REG_MMD_DATA {
        if phy !in devad || phy !in func {
          return if f.noResponse then Some(PlainEvent(f)) else None;
        }
        var dev := devad[phy];
        if func[phy] == 0 {
          if op == OP_WRITE {
            addr := addr[(phy, dev) := data];
            return None;
          }
          return if f.noResponse then Some(PlainEvent(f)) else None;
        }
        var at := if (phy, dev) in addr then Some(addr[(phy, dev)]) else None;
        if f.noResponse {
          return Some(Event(phy, Some(dev), at, op, None, true));
        }
        var inc := func[phy] == 2 || (func[phy] == 3 && op == OP_WRITE);
        if inc && at.Some? {
          addr := addr[(phy, dev) := (at.value + 1) % WORD16];
        }
        return Some(Event(phy, Some(dev), at, op, Some(data), false));
      }
      return Some(PlainEvent(f));
    }

    method FeedAll(frames: seq<Frame>) returns (events: seq<Event>)
      modifies this
      ensures events == Folded(old(State()), frames) && State() == RegsAfter(old(State()), frames)
    {
      hide FoldOne, Folded, RegsAfter;
      events := [];
      ghost var r0 := State();
      assert frames[0..] == frames;
      FoldEnd(State());
      for i := 0 to |frames|
        invariant events + Folded(State(), frames[i..]) == Folded(r0, frames)
        invariant RegsAfter(State(), frames[i..]) == RegsAfter(r0, frames)
      {
        assert frames[i..] == [frames[i]] + frames[i + 1..];
        FoldCons(State(), frames[i], frames[i + 1..]);
        var e := Feed(frames[i]);
        if e.Some? {
          events := events + [e.value];
        }
      }
      assert frames[|frames|..] == [];
      FoldEnd(State());
    }
  }

  lemma FoldEnd(r: Regs)
    ensures Folded(r, []) == [] && RegsAfter(r, []) == r
  {}

  lemma {:induction false} FoldSplits(r: Regs, a: seq<Frame>, b: seq<Frame>)
    ensures Folded(r, a + b) == Folded(r, a) + Folded(RegsAfter(r, a), b)
    ensures RegsAfter(r, a + b) == RegsAfter(RegsAfter(r, a), b)
    decreases |a|
  {
    hide FoldOne, Folded, RegsAfter;
    if a == [] {
      FoldEnd(r);
      assert a + b == b;
    } else {
      var (r', e) := FoldOne(r, a[0]);
      FoldSplits(r', a[1..], b);
      assert a == [a[0]] + a[1..] && a + b == [a[0]] + (a[1..] + b);
      FoldCons(r, a[0], a[1..]);
      FoldCons(r, a[0], a[1..] + b);
    }
  }

  /** Folding does not look at the length of a preamble. */
  lemma {:induction false} FoldSame(r: Regs, fs: seq<Frame>, gs: seq<Frame>)
    requires SameFrames(fs, gs)
    ensures Folded(r, fs) == Folded(r, gs)
    decreases |fs|
  {
    if fs != [] {
      assert SameFrame(fs[0], gs[0]);
      assert SameFrames(fs[1..], gs[1..]) by {
        forall i | 0 <= i < |fs| - 1
          ensures SameFrame(fs[1..][i], gs[1..][i])
        {
          assert SameFrame(fs[i + 1], gs[i + 1]);
        }
      }
      FoldSame(FoldOne(r, fs[0]).0, fs[1..], gs[1..]);
    }
  }

  /** How often the PHY's own address counter has moved on: with function 2 at every answered access,
      with function 3 at every write. */
  function Moves(func: nat, frames: seq<Frame>): nat
    decreases |frames|
  {
    if frames == [] then 0
    else
      var f := frames[|frames| - 1];
      Moves(func, frames[..|frames| - 1]) +
      if !f.noResponse && (func == 2 || (func == 3 && f.op == OP_WRITE)) then 1 else 0
  }

  lemma {:induction false} MovesCons(func: nat, f: Frame, rest: seq<Frame>)
    ensures Moves(func, [f] + rest) == Moves(func, [f]) + Moves(func, rest)
    decreases |rest|
  {
    var all, n := [f] + rest, |rest|;
    if n == 0 {
      assert all == [f];
    } else {
      assert all[..n] == [f] + rest[..n - 1] && all[n] == rest[n - 1];
      MovesCons(func, f, rest[..n - 1]);
    }
  }

  /** What is reported of a data access: an unanswered read has no value. */
  function DataEvent(f: Frame, dev: nat, at: Option<nat>): Event {
    Event(f.phyad, Some(dev), at, f.op, if f.noResponse then None else Some(f.data), f.noResponse)
  }

  /** A run of data accesses to one register window, answered or not, reads and writes in any order: each is
      reported, with the address that the PHY's own counter has reached, past its 16-bit wrap. An address
      that was never seen stays unknown. */
  lemma {:induction false} DataRun(r: Regs, phy: nat, dev: nat, func: nat, a: nat, known: bool, frames: seq<Frame>)
    requires phy in r.func && r.func[phy] == func && func in {1, 2, 3} && phy in r.devad && r.devad[phy] == dev
    requires AddrOf(r, phy, dev) == if known then Some(a % WORD16) else None
    requires forall f :: f in frames ==> f.phyad == phy && f.regad == REG_MMD_DATA
    ensures |Folded(r, frames)| == |frames|
    ensures forall i :: 0 <= i < |frames| ==>
              Folded(r, frames)[i] ==
              DataEvent(frames[i], dev, if known then Some((a + Moves(func, frames[..i])) % WORD16) else None)
    decreases |frames|
  {
    hide FoldOne, Folded, RegsAfter, Moves, DataEvent, AddrOf;
    FoldEnd(r);
    if frames != [] {
      var f, rest := Split(frames);
      DataStep(r, phy, dev, func, a, known, f);
      var r', m := FoldOne(r, f).0, Moves(func, [f]);
      DataRun(r', phy, dev, func, a + m, known, rest);
      FoldCons(r, f, rest);
      RunLater(frames, f, rest, Folded(r', rest), func, dev, a, known);
    }
  }

  lemma Split(frames: seq<Frame>) returns (f: Frame, rest: seq<Frame>)
    requires frames != []
    ensures frames == [f] + rest && f in frames && |rest| < |frames| && forall g :: g in rest ==> g in frames
  {
    f, rest := frames[0], frames[1..];
  }

  lemma RunLater(frames: seq<Frame>, f: Frame, rest: seq<Frame>, events: seq<Event>, func: nat, dev: nat, a: nat,
                 known: bool)
    requires frames == [f] + rest && |events| == |rest|
    requires forall i :: 0 <= i < |rest| ==>
               events[i] == DataEvent(rest[i], dev, if known then Some((a + Moves(func, [f]) + Moves(func, rest[..i])) % WORD16)
                                                    else None)
    ensures var all := [DataEvent(f, dev, if known then Some(a % WORD16) else None)] + events;
            forall i :: 0 <= i < |frames| ==>
              all[i] == DataEvent(frames[i], dev, if known then Some((a + Moves(func, frames[..i])) % WORD16) else None)
  {
    NoMoves(func);
    hide Moves, DataEvent;
    forall i | 0 <= i < |frames|
      ensures Moves(func, frames[..i]) == if i == 0 then 0 else Moves(func, [f]) + Moves(func, rest[..i - 1])
    {
      if i == 0 {
        assert frames[..0] == [];
      } else {
        assert frames[..i] == [f] + rest[..i - 1];
        MovesCons(func, f, rest[..i - 1]);
      }
    }
  }

  lemma NoMoves(func: nat)
    ensures Moves(func, []) == 0
  {}

  lemma DataStep(r: Regs, phy: nat, dev: nat, func: nat, a: nat, known: bool, f: Frame)
    requires phy in r.func && r.func[phy] == func && func in {1, 2, 3} && phy in r.devad && r.devad[phy] == dev
    requires AddrOf(r, phy, dev) == if known then Some(a % WORD16) else None
    requires f.phyad == phy && f.regad == REG_MMD_DATA
    ensures var (r', e) := FoldOne(r, f);
            && e == Some(DataEvent(f, dev, if known then Some(a % WORD16) else None))
            && phy in r'.func && r'.func[phy] == func && phy in r'.devad && r'.devad[phy] == dev
            && AddrOf(r', phy, dev) == if known then Some((a + Moves(func, [f])) % WORD16) else None
  {
    assert [f][..0] == [];
    assert (a % WORD16 + 1) % WORD16 == (a + 1) % WORD16;
  }

  /** The address that register 14 was last given, or the one before. */
  function LastGiven(at: Option<nat>, frames: seq<Frame>): Option<nat>
    decreases |frames|
  {
    if frames == [] then at
    else
      var f := frames[|frames| - 1];
      if f.op == OP_WRITE then Some(f.data) else LastGiven(at, frames[..|frames| - 1])
  }

  /** The unanswered reads, as they stand. */
  function Unanswered(frames: seq<Frame>): seq<Event>
    decreases |frames|
  {
    if frames == [] then []
    else
      var f := frames[|frames| - 1];
      Unanswered(frames[..|frames| - 1]) +
      if f.op != OP_WRITE && f.noResponse then [Event(f.phyad, None, Some(f.regad), f.op, None, true)] else []
  }

  /** While the window is at function 0, register 14 takes addresses: the last one written stands, and only
      unanswered reads are reported. */
  lemma {:induction false} AddressRun(r: Regs, phy: nat, dev: nat, frames: seq<Frame>)
    requires phy in r.func && r.func[phy] == 0 && phy in r.devad && r.devad[phy] == dev
    requires forall f :: f in frames ==> f.phyad == phy && f.regad == REG_MMD_DATA
    ensures Folded(r, frames) == Unanswered(frames)
    ensures var r' := RegsAfter(r, frames);
            && phy in r'.func && r'.func[phy] == 0 && phy in r'.devad && r'.devad[phy] == dev
            && AddrOf(r', phy, dev) == LastGiven(AddrOf(r, phy, dev), frames)
    decreases |frames|
  {
    if frames != [] {
      var init, f := frames[..|frames| - 1], frames[|frames| - 1];
      assert f in frames && forall g :: g in init ==> g in frames;
      AddressRun(r, phy, dev, init);
      FoldSplits(r, init, [f]);
      assert frames == init + [f];
      FoldCons(RegsAfter(r, init), f, []);
      assert [f] + [] == [f];
    }
  }

  /** One PHY's accesses are folded as if the others' were not there. */
  lemma {:induction false} PhysApart(r: Regs, q: Regs, phy: nat, frames: seq<Frame>)
    requires Alike(r, q, phy)
    ensures EventsFor(phy, Folded(r, frames)) == Folded(q, FramesFor(phy, frames))
    decreases |frames|
  {
    hide *;
    FoldEnd(r);
    FoldEnd(q);
    NoneFor(phy);
    if frames != [] {
      var f, rest := frames[0], frames[1..];
      var (r', e) := FoldOne(r, f);
      var own := if e.Some? then [e.value] else [];
      assert frames == [f] + rest;
      FoldCons(r, f, rest);
      FramesCons(phy, f, rest);
      EventsCons(phy, e, Folded(r', rest));
      ApartStep(r, q, phy, f);
      if f.phyad == phy {
        var q' := FoldOne(q, f).0;
        PhysApart(r', q', phy, rest);
        FoldCons(q, f, FramesFor(phy, rest));
      } else {
        PhysApart(r', q, phy, rest);
      }
    }
  }

  /** The registers of this PHY are the same. */
  ghost predicate Alike(r: Regs, q: Regs, phy: nat) {
    && (phy in r.func <==> phy in q.func) && (phy in r.func ==> r.func[phy] == q.func[phy])
    && (phy in r.devad <==> phy in q.devad) && (phy in r.devad ==> r.devad[phy] == q.devad[phy])
    && forall dev: nat :: AddrOf(r, phy, dev) == AddrOf(q, phy, dev)
  }

  function FramesFor(phy: nat, frames: seq<Frame>): seq<Frame>
    decreases |frames|
  {
    if frames == [] then [] else (if frames[0].phyad == phy then [frames[0]] else []) + FramesFor(phy, frames[1..])
  }

  function EventsFor(phy: nat, events: seq<Event>): seq<Event>
    decreases |events|
  {
    if events == [] then [] else (if events[0].phy == phy then [events[0]] else []) + EventsFor(phy, events[1..])
  }

  lemma NoneFor(phy: nat)
    ensures FramesFor(phy, []) == [] && EventsFor(phy, []) == []
  {}

  lemma FramesCons(phy: nat, f: Frame, rest: seq<Frame>)
    ensures FramesFor(phy, [f] + rest) == if f.phyad == phy then [f] + FramesFor(phy, rest) else FramesFor(phy, rest)
  {
    assert ([f] + rest)[1..] == rest;
  }

  lemma EventsCons(phy: nat, e: Option<Event>, rest: seq<Event>)
    ensures EventsFor(phy, (if e.Some? then [e.value] else []) + rest) ==
            (if e.Some? && e.value.phy == phy then [e.value] else []) + EventsFor(phy, rest)
  {
    if e.Some? {
      assert ([e.value] + rest)[1..] == rest;
    } else {
      assert [] + rest == rest;
    }
  }

  lemma ApartStep(r: Regs, q: Regs, phy: nat, f: Frame)
    requires Alike(r, q, phy)
    ensures var ((r', e), (q', d)) := (FoldOne(r, f), FoldOne(q, f));
            && (e.Some? ==> e.value.phy == f.phyad)
            && if f.phyad == phy then e == d && Alike(r', q', phy) else Alike(r', q, phy)
  {
    if f.phyad == phy {
      OwnStep(r, q, phy, f);
    } else {
      OtherStep(r, phy, f);
      AlikeTrans(FoldOne(r, f).0, r, q, phy);
    }
    hide *;
  }

  lemma OwnStep(r: Regs, q: Regs, phy: nat, f: Frame)
    requires Alike(r, q, phy) && f.phyad == phy
    ensures var ((r', e), (q', d)) := (FoldOne(r, f), FoldOne(q, f));
            e == d && (e.Some? ==> e.value.phy == phy) && Alike(r', q', phy)
  {
    var r', q' := FoldOne(r, f).0, FoldOne(q, f).0;
    if phy in r.devad {
      assert AddrOf(r, phy, r.devad[phy]) == AddrOf(q, phy, r.devad[phy]);
    }
    forall dev: nat
      ensures AddrOf(r', phy, dev) == AddrOf(q', phy, dev)
    {
      assert AddrOf(r, phy, dev) == AddrOf(q, phy, dev);
    }
  }

  lemma OtherStep(r: Regs, phy: nat, f: Frame)
    requires f.phyad != phy
    ensures var (r', e) := FoldOne(r, f); (e.Some? ==> e.value.phy == f.phyad) && Alike(r', r, phy)
  {}

  lemma AlikeTrans(r: Regs, q: Regs, s: Regs, phy: nat)
    requires Alike(r, q, phy) && Alike(q, s, phy)
    ensures Alike(r, s, phy)
  {}

  /** Every access of a read or write run in post-increment mode is reported with the address
      the PHY's own counter has reached, past its 16-bit wrap. */
  lemma IncrementingRun(r: Regs, phy: nat, dev: nat, a: nat, frames: seq<Frame>)
    requires phy in r.func && r.func[phy] == 2 && phy in r.devad && r.devad[phy] == dev
    requires AddrOf(r, phy, dev) == Some(a % WORD16)
    requires forall f :: f in frames ==> f.phyad == phy && f.regad == REG_MMD_DATA && !f.noResponse
    ensures |Folded(r, frames)| == |frames|
    ensures forall i :: 0 <= i < |frames| ==>
              Folded(r, frames)[i] ==
              Event(phy, Some(dev), Some((a + i) % WORD16), frames[i].op, Some(frames[i].data), false)
  {
    DataRun(r, phy, dev, 2, a, true, frames);
    hide Folded;
    forall i | 0 <= i < |frames|
      ensures Moves(2, frames[..i]) == i
    {
      EachMoves(frames, i);
    }
    forall i | 0 <= i < |frames|
      ensures frames[i].phyad == phy && !frames[i].noResponse
    {
      assert frames[i] in frames;
    }
  }

  lemma {:induction false} EachMoves(frames: seq<Frame>, i: nat)
    requires i <= |frames| && forall f :: f in frames ==> !f.noResponse
    ensures Moves(2, frames[..i]) == i
    decreases i
  {
    if i > 0 {
      EachMoves(frames, i - 1);
      assert frames[..i][..i - 1] == frames[..i - 1];
    }
  }
}
