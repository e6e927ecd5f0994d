/** What RleSniffer::service puts on the wire over many calls: squelched run bytes, and among
    them idle boundaries and loss marks; and what the host makes of it. */
module RleWire {
  import opened Bytes
  import opened RunCodec
  import opened Squelch

  /** A byte of the RAM ring is consumed, an idle boundary is written, a loss mark is written. */
  datatype Ev = Eat(b: byte) | Idle | Lost

  /** The bytes these put on the wire. */
  function Out(k: nat, h: Hold, evs: seq<Ev>): seq<byte>
    decreases |evs|
  {
    if evs == [] then []
    else
      match evs[0]
      case Eat(b) => SquelchByte(k, h, b).1 + Out(k, SquelchByte(k, h, b).0, evs[1..])
      case Idle => [BIN_BOUNDARY] + Out(k, h, evs[1..])
      case Lost => [BIN_LOSS] + Out(k, h, evs[1..])
  }

  /** The run bytes consumed. */
  function Eaten(evs: seq<Ev>): seq<byte> {
    if evs == [] then [] else (if evs[0].Eat? then [evs[0].b] else []) + Eaten(evs[1..])
  }

  function Eats(s: seq<byte>): (evs: seq<Ev>)
    ensures |evs| == |s|
  {
    seq(|s|, i requires 0 <= i < |s| => Eat(s[i]))
  }

  /** How the squelch stands at each idle boundary. */
  function AtIdles(k: nat, h: Hold, evs: seq<Ev>): seq<Hold>
    decreases |evs|
  {
    if evs == [] then []
    else
      match evs[0]
      case Eat(b) => AtIdles(k, SquelchByte(k, h, b).0, evs[1..])
      case Idle => [h] + AtIdles(k, h, evs[1..])
      case Lost => AtIdles(k, h, evs[1..])
  }

  /** No run is open, or the open one has got its idle mark already. */
  predicate Between(h: Hold) { h.piped || h.run == 0 }

  lemma EvCons(k: nat, h: Hold, e: Ev, rest: seq<Ev>)
    ensures Out(k, h, [e] + rest) ==
            match e
            case Eat(b) => SquelchByte(k, h, b).1 + Out(k, SquelchByte(k, h, b).0, rest)
            case Idle => [BIN_BOUNDARY] + Out(k, h, rest)
            case Lost => [BIN_LOSS] + Out(k, h, rest)
    ensures AtIdles(k, h, [e] + rest) ==
            match e
            case Eat(b) => AtIdles(k, SquelchByte(k, h, b).0, rest)
            case Idle => [h] + AtIdles(k, h, rest)
            case Lost => AtIdles(k, h, rest)
    ensures Eaten([e] + rest) == (if e.Eat? then [e.b] else []) + Eaten(rest)
  {
    hide SquelchByte;
    assert ([e] + rest)[1..] == rest;
  }

  lemma NoEvents(k: nat, h: Hold)
    ensures Out(k, h, []) == [] && Eaten([]) == [] && AtIdles(k, h, []) == []
  {}

  /** The outputs of successive calls add up. */
  lemma {:induction false} OutSplits(k: nat, h: Hold, a: seq<Ev>, b: seq<Ev>)
    ensures Out(k, h, a + b) == Out(k, h, a) + Out(k, HoldAfter(k, h, Eaten(a)), b)
    ensures Eaten(a + b) == Eaten(a) + Eaten(b)
    ensures AtIdles(k, h, a + b) == AtIdles(k, h, a) + AtIdles(k, HoldAfter(k, h, Eaten(a)), b)
    decreases |a|
  {
    hide *;
    NoEvents(k, h);
    SquelchEnd(k, h);
    if a == [] {
      assert a + b == b && [] + Out(k, h, b) == Out(k, h, b) && [] + Eaten(b) == Eaten(b);
      assert [] + AtIdles(k, h, b) == AtIdles(k, h, b);
    } else {
      var e, rest := a[0], a[1..];
      assert a == [e] + rest && a + b == [e] + (rest + b);
      EvCons(k, h, e, rest);
      EvCons(k, h, e, rest + b);
      AssocBytes(if e.Eat? then [e.b] else [], Eaten(rest), Eaten(b));
      match e {
        case Eat(x) =>
          var h' := SquelchByte(k, h, x).0;
          OutSplits(k, h', rest, b);
          SquelchCons(k, h, x, Eaten(rest));
          AssocBytes(SquelchByte(k, h, x).1, Out(k, h', rest), Out(k, HoldAfter(k, h', Eaten(rest)), b));
        case Idle =>
          OutSplits(k, h, rest, b);
          assert [] + Eaten(rest) == Eaten(rest);
          AssocBytes([BIN_BOUNDARY], Out(k, h, rest), Out(k, HoldAfter(k, h, Eaten(rest)), b));
          AssocHolds([h], AtIdles(k, h, rest), AtIdles(k, HoldAfter(k, h, Eaten(rest)), b));
        case Lost =>
          OutSplits(k, h, rest, b);
          assert [] + Eaten(rest) == Eaten(rest);
          AssocBytes([BIN_LOSS], Out(k, h, rest), Out(k, HoldAfter(k, h, Eaten(rest)), b));
      }
    }
  }

  lemma AssocHolds(a: seq<Hold>, b: seq<Hold>, c: seq<Hold>)
    ensures a + (b + c) == (a + b) + c
  {}

  /** Consuming only: the squelch itself. */
  lemma {:induction false} OutOfEats(k: nat, h: Hold, s: seq<byte>)
    ensures Out(k, h, Eats(s)) == Squelched(k, h, s) && Eaten(Eats(s)) == s && Lost !in Eats(s)
    ensures AtIdles(k, h, Eats(s)) == []
    decreases |s|
  {
    hide SquelchByte, Out, Eaten, Squelched, AtIdles;
    if s == [] {
      NoEvents(k, h);
      SquelchEnd(k, h);
      assert Eats(s) == [];
    } else {
      OutOfEats(k, SquelchByte(k, h, s[0]).0, s[1..]);
      assert Eats(s) == [Eat(s[0])] + Eats(s[1..]) && s == [s[0]] + s[1..];
      EvCons(k, h, Eat(s[0]), Eats(s[1..]));
      SquelchCons(k, h, s[0], s[1..]);
    }
  }

  lemma OutOfMark(k: nat, h: Hold)
    ensures Out(k, h, [Idle]) == [BIN_BOUNDARY] && Out(k, h, [Lost]) == [BIN_LOSS]
    ensures Eaten([Idle]) == [] && Eaten([Lost]) == [] && AtIdles(k, h, [Idle]) == [h] && AtIdles(k, h, [Lost]) == []
  {
    assert [Idle][1..] == [] && [Lost][1..] == [];
  }

  // ---- what the host reads -----------------------------------------------------------------------------

  /** The ticks the host has summed for the open run. */
  function Summed(h: Hold): nat { if h.piped then 0 else CAP * h.run }

  predicate Reachable(k: nat, h: Hold) { h.piped || h.run < k }

  /** The runs the host gets out of one consumed byte. */
  function StepRuns(k: nat, h: Hold, b: byte): seq<nat> {
    if h.piped then []
    else if b < CAP then [CAP * h.run + b]
    else if h.run + 1 < k then []
    else (if h.run > 0 then [CAP * h.run] else []) + [BOUNDARY_RUN]
  }

  lemma HostStep(k: nat, h: Hold, b: byte, later: seq<byte>)
    requires k > 0 && b <= CAP && Reachable(k, h)
    ensures var (h', out) := SquelchByte(k, h, b);
            && Reachable(k, h')
            && Rebuild(ItemsOf(out + later), Summed(h)) == StepRuns(k, h, b) + Rebuild(ItemsOf(later), Summed(h'))
  {
    hide ItemsOf, Rebuild;
    var (h', out) := SquelchByte(k, h, b);
    if out == [] {
      assert out + later == later && [] + Rebuild(ItemsOf(later), Summed(h')) == Rebuild(ItemsOf(later), Summed(h'));
    } else {
      HostCons(out[0], later, Summed(h));
      assert out == [out[0]];
      assert [] + Rebuild(ItemsOf(later), Summed(h')) == Rebuild(ItemsOf(later), Summed(h'));
    }
  }

  /** An idle boundary adds a boundary run and nothing else exactly when it stands between runs;
      inside an open run it cuts the run. */
  lemma IdleHarmless(k: nat, h: Hold, later: seq<byte>)
    requires 0 < CAP * k < BOUNDARY_RUN && Reachable(k, h)
    ensures Between(h) <==>
            Rebuild(ItemsOf([BIN_BOUNDARY] + later), Summed(h)) == [BOUNDARY_RUN] + Rebuild(ItemsOf(later), Summed(h))
    ensures !Between(h) ==>
              Rebuild(ItemsOf([BIN_BOUNDARY] + later), Summed(h)) ==
              [CAP * h.run, BOUNDARY_RUN] + Rebuild(ItemsOf(later), 0)
  {
    hide ItemsOf, Rebuild;
    HostCons(BIN_BOUNDARY, later, Summed(h));
    assert [] + [BOUNDARY_RUN] == [BOUNDARY_RUN] && [CAP * h.run] + [BOUNDARY_RUN] == [CAP * h.run, BOUNDARY_RUN];
    if !Between(h) {
      assert CAP * h.run < CAP * k;
      assert ([CAP * h.run, BOUNDARY_RUN] + Rebuild(ItemsOf(later), 0))[0] == CAP * h.run;
    }
  }

  /** The runs of what is consumed between two idle boundaries. */
  function Groups(k: nat, h: Hold, evs: seq<Ev>): (gs: seq<seq<nat>>)
    ensures |gs| >= 1
    decreases |evs|
  {
    if evs == [] then [[]]
    else
      match evs[0]
      case Eat(b) =>
        var gs := Groups(k, SquelchByte(k, h, b).0, evs[1..]);
        [StepRuns(k, h, b) + gs[0]] + gs[1..]
      case Idle => [[]] + Groups(k, h, evs[1..])
      case Lost => Groups(k, h, evs[1..])
  }

  function Marked(gs: seq<seq<nat>>): seq<nat> {
    if |gs| == 0 then [] else if |gs| == 1 then gs[0] else gs[0] + ([BOUNDARY_RUN] + Marked(gs[1..]))
  }

  function Flat(gs: seq<seq<nat>>): seq<nat> {
    if gs == [] then [] else gs[0] + Flat(gs[1..])
  }

  lemma InFront(r: seq<nat>, gs: seq<seq<nat>>)
    requires gs != []
    ensures Marked([r + gs[0]] + gs[1..]) == r + Marked(gs) && Flat([r + gs[0]] + gs[1..]) == r + Flat(gs)
    ensures Marked([[]] + gs) == [BOUNDARY_RUN] + Marked(gs) && Flat([[]] + gs) == Flat(gs)
  {
    var a, b := [r + gs[0]] + gs[1..], [[]] + gs;
    assert a[1..] == gs[1..] && b[1..] == gs;
    AssocRuns(r, gs[0], Flat(gs[1..]));
    if |gs| > 1 {
      AssocRuns(r, gs[0], [BOUNDARY_RUN] + Marked(gs[1..]));
    }
    assert [] + Flat(gs) == Flat(gs);
    assert [] + ([BOUNDARY_RUN] + Marked(gs)) == [BOUNDARY_RUN] + Marked(gs);
  }

  /** The host reads off the wire what it would read of the squelched bytes alone, with one more
      boundary run at each idle boundary, when all of these stand between runs. */
  lemma {:induction false} WireReads(k: nat, h: Hold, evs: seq<Ev>)
    requires k > 0 && Reachable(k, h) && Lost !in evs && (forall b :: b in Eaten(evs) ==> b <= CAP)
    requires forall x :: x in AtIdles(k, h, evs) ==> Between(x)
    ensures var gs := Groups(k, h, evs);
            && |gs| == 1 + |AtIdles(k, h, evs)|
            && Rebuild(ItemsOf(Squelched(k, h, Eaten(evs))), Summed(h)) == Flat(gs)
            && Rebuild(ItemsOf(Out(k, h, evs)), Summed(h)) == Marked(gs)
    decreases |evs|
  {
    hide *;
    if evs == [] {
      NoEvents(k, h);
      SquelchEnd(k, h);
      NoGroups(k, h);
    } else {
      var e, rest := evs[0], evs[1..];
      assert evs == [e] + rest && e in evs && forall x :: x in rest ==> x in evs;
      EvCons(k, h, e, rest);
      GroupsCons(k, h, e, rest);
      match e {
        case Eat(b) =>
          var h' := SquelchByte(k, h, b).0;
          assert b in [b] + Eaten(rest) && forall x :: x in Eaten(rest) ==> x in [b] + Eaten(rest);
          HostStep(k, h, b, Out(k, h', rest));
          HostStep(k, h, b, Squelched(k, h', Eaten(rest)));
          SquelchCons(k, h, b, Eaten(rest));
          WireReads(k, h', rest);
          InFront(StepRuns(k, h, b), Groups(k, h', rest));
        case Idle =>
          assert [] + Eaten(rest) == Eaten(rest);
          var later := AtIdles(k, h, rest);
          assert h in [h] + later && forall x :: x in later ==> x in [h] + later;
          WireReads(k, h, rest);
          QuietMark(k, h, Out(k, h, rest));
          InFront([], Groups(k, h, rest));
      }
    }
  }

  lemma QuietMark(k: nat, h: Hold, later: seq<byte>)
    requires Between(h)
    ensures Rebuild(ItemsOf([BIN_BOUNDARY] + later), Summed(h)) == [BOUNDARY_RUN] + Rebuild(ItemsOf(later), Summed(h))
  {
    hide ItemsOf, Rebuild;
    HostCons(BIN_BOUNDARY, later, Summed(h));
    assert [] + [BOUNDARY_RUN] == [BOUNDARY_RUN];
  }

  lemma NoGroups(k: nat, h: Hold)
    ensures Groups(k, h, []) == [[]] && Flat([[]]) == [] && Marked([[]]) == []
    ensures Rebuild(ItemsOf([]), Summed(h)) == []
  {
    ItemsEnd([]);
    RebuildEnd([], Summed(h));
    var none: seq<seq<nat>> := [[]];
    assert none[1..] == [];
  }

  lemma GroupsCons(k: nat, h: Hold, e: Ev, rest: seq<Ev>)
    ensures Groups(k, h, [e] + rest) ==
            match e
            case Eat(b) =>
              var gs := Groups(k, SquelchByte(k, h, b).0, rest);
              [StepRuns(k, h, b) + gs[0]] + gs[1..]
            case Idle => [[]] + Groups(k, h, rest)
            case Lost => Groups(k, h, rest)
  {
    hide SquelchByte, StepRuns;
    assert ([e] + rest)[1..] == rest;
  }

  // ---- boundaries repeated ---------------------------------------------------------------------------------

  /** b is a with boundary runs repeated in place; `open` says one stands directly in front. */
  predicate Thick(a: seq<nat>, b: seq<nat>, open: bool)
    decreases |b|
  {
    if b == [] then a == []
    else
      || (a != [] && a[0] == b[0] && Thick(a[1..], b[1..], b[0] == BOUNDARY_RUN))
      || (open && b[0] == BOUNDARY_RUN && Thick(a, b[1..], true))
  }

  lemma {:induction false} ThickOpen(a: seq<nat>, b: seq<nat>, open: bool)
    requires Thick(a, b, open)
    ensures Thick(a, b, true)
    decreases |b|
  {}

  lemma ThickCons(r: nat, a: seq<nat>, b: seq<nat>, open: bool)
    ensures Thick(a, b, r == BOUNDARY_RUN) ==> Thick([r] + a, [r] + b, open)
    ensures Thick(a, b, true) ==> Thick(a, [BOUNDARY_RUN] + b, true)
  {
    assert ([r] + a)[1..] == a && ([r] + b)[1..] == b && ([BOUNDARY_RUN] + b)[1..] == b;
  }

  lemma ThickStep(k: nat, h: Hold, b: byte, x: seq<nat>, y: seq<nat>)
    requires Thick(x, y, SquelchByte(k, h, b).0.piped) && k > 0 && Reachable(k, h)
    ensures Thick(StepRuns(k, h, b) + x, StepRuns(k, h, b) + y, h.piped)
  {
    hide Thick;
    var r := StepRuns(k, h, b);
    if r == [] {
      assert r + x == x && r + y == y;
      if h.piped {
        ThickOpen(x, y, SquelchByte(k, h, b).0.piped);
      }
    } else {
      ThickOpen(x, y, SquelchByte(k, h, b).0.piped);
      var z := r[|r| - 1];
      if b < CAP && z != BOUNDARY_RUN {
        ThickCons(z, x, y, h.piped);
      } else {
        ThickCons(z, x, y, h.piped);
        ThickCons(z, x, y, false);
      }
      if |r| == 1 {
        assert r == [z];
      } else {
        ThickCons(r[0], [z] + x, [z] + y, h.piped);
        assert r + x == [r[0]] + ([z] + x) && r + y == [r[0]] + ([z] + y);
        if r[0] == BOUNDARY_RUN {
          ThickOpen([z] + x, [z] + y, false);
        }
      }
    }
  }

  /** When every idle boundary follows an idle mark of the squelch, the host reads what it would
      read of the squelched bytes alone, with boundary runs repeated. */
  lemma {:induction false} WireRepeats(k: nat, h: Hold, evs: seq<Ev>)
    requires k > 0 && Reachable(k, h) && Lost !in evs && (forall b :: b in Eaten(evs) ==> b <= CAP)
    requires forall x :: x in AtIdles(k, h, evs) ==> x.piped
    ensures Thick(Rebuild(ItemsOf(Squelched(k, h, Eaten(evs))), Summed(h)),
                  Rebuild(ItemsOf(Out(k, h, evs)), Summed(h)), h.piped)
    decreases |evs|
  {
    hide *;
    if evs == [] {
      NoEvents(k, h);
      SquelchEnd(k, h);
      NoGroups(k, h);
      ThickNothing(h.piped);
    } else {
      var e, rest := evs[0], evs[1..];
      assert evs == [e] + rest && e in evs && forall x :: x in rest ==> x in evs;
      EvCons(k, h, e, rest);
      match e {
        case Eat(b) =>
          var h' := SquelchByte(k, h, b).0;
          assert b in [b] + Eaten(rest) && forall x :: x in Eaten(rest) ==> x in [b] + Eaten(rest);
          HostStep(k, h, b, Out(k, h', rest));
          HostStep(k, h, b, Squelched(k, h', Eaten(rest)));
          SquelchCons(k, h, b, Eaten(rest));
          WireRepeats(k, h', rest);
          ThickStep(k, h, b, Rebuild(ItemsOf(Squelched(k, h', Eaten(rest))), Summed(h')),
                    Rebuild(ItemsOf(Out(k, h', rest)), Summed(h')));
        case Idle =>
          assert [] + Eaten(rest) == Eaten(rest);
          var later := AtIdles(k, h, rest);
          assert h in [h] + later && forall x :: x in later ==> x in [h] + later;
          WireRepeats(k, h, rest);
          PipedMark(h);
          QuietMark(k, h, Out(k, h, rest));
          ThickCons(0, Rebuild(ItemsOf(Squelched(k, h, Eaten(rest))), Summed(h)),
                    Rebuild(ItemsOf(Out(k, h, rest)), Summed(h)), true);
      }
    }
  }

  lemma PipedMark(h: Hold)
    ensures h.piped ==> Between(h)
  {}

  lemma ThickNothing(open: bool)
    ensures Thick([], [], open)
  {}
}
