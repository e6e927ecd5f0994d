/** CAN standard frames (Bosch CAN 2.0 Part A, sections 3.1.1 and 5) as
    scripts/can_rle_decode.py builds, stuffs, measures and parses them. */
module CanBits {
  import opened Bytes
  import opened Cobs
  import opened Crc15
  import opened RunCodec

  const RECESSIVE: bit := 1
  const DOMINANT: bit := 0

  // ---- stuffing ------------------------------------------------------------------------------

  /** The level of the last bit and how long it has been there. */
  datatype Tail = Tail(run: nat, last: Option<bit>)

  const FRESH := Tail(0, None)

  function Next(t: Tail, b: bit): Tail { Tail(if t.last == Some(b) then t.run + 1 else 1, Some(b)) }

  /** What one data bit puts on the bus, and where that leaves the run. */
  function StuffBit(t: Tail, b: bit): (Tail, seq<bit>) {
    if Next(t, b).run == 5 then (Tail(1, Some(1 - b)), [b, 1 - b]) else (Next(t, b), [b])
  }

  function Stuffed(t: Tail, bits: seq<bit>): seq<bit>
    decreases |bits|
  {
    if bits == [] then [] else StuffBit(t, bits[0]).1 + Stuffed(StuffBit(t, bits[0]).0, bits[1..])
  }

  /** What one received bit contributes: nothing after five alike. */
  function UnstuffBit(t: Tail, b: bit): (Tail, seq<bit>) {
    if t.run == 5 then (Tail(1, Some(b)), []) else (Next(t, b), [b])
  }

  function Unstuffed(t: Tail, bits: seq<bit>): seq<bit>
    decreases |bits|
  {
    if bits == [] then [] else UnstuffBit(t, bits[0]).1 + Unstuffed(UnstuffBit(t, bits[0]).0, bits[1..])
  }

  function TailAfter(t: Tail, bits: seq<bit>): Tail
    decreases |bits|
  {
    if bits == [] then t else TailAfter(UnstuffBit(t, bits[0]).0, bits[1..])
  }

  /** stuff. */
  method Stuff(bits: seq<bit>) returns (out: seq<bit>)
    ensures out == Stuffed(FRESH, bits)
  {
    hide Stuffed;
    out := [];
    var run: nat, last: Option<bit> := 0, None;
    assert bits[0..] == bits && out + Stuffed(FRESH, bits) == Stuffed(FRESH, bits);
    for i := 0 to |bits|
      invariant out + Stuffed(Tail(run, last), bits[i..]) == Stuffed(FRESH, bits)
    {
      var b := bits[i];
      StuffStep(out, Tail(run, last), bits, i);
      out := out + [b];
      run := if last == Some(b) then run + 1 else 1;
      last := Some(b);
      if run == 5 {
        var s := 1 - b;
        assert out + [s] == out[..|out| - 1] + [b, s];
        out := out + [s];
        run, last := 1, Some(s);
      }
    }
    StuffEnd(Tail(run, last), bits[|bits|..]);
  }

  lemma StuffStep(out: seq<bit>, t: Tail, bits: seq<bit>, i: nat)
    requires i < |bits|
    ensures out + Stuffed(t, bits[i..]) ==
            (out + StuffBit(t, bits[i]).1) + Stuffed(StuffBit(t, bits[i]).0, bits[i + 1..])
  {
    hide StuffBit;
    assert bits[i..][1..] == bits[i + 1..];
  }

  lemma StuffEnd(t: Tail, bits: seq<bit>)
    requires bits == []
    ensures Stuffed(t, bits) == [] && Unstuffed(t, bits) == [] && TailAfter(t, bits) == t
  {}

  /** unstuff. */
  method Unstuff(bits: seq<bit>) returns (out: seq<bit>)
    ensures out == Unstuffed(FRESH, bits)
  {
    hide Unstuffed;
    if bits == [] {
      StuffEnd(FRESH, bits);
      return [];
    }
    out := [bits[0]];
    var run: nat, last := 1, bits[0];
    assert bits[0..] == bits && [] + Unstuffed(FRESH, bits) == Unstuffed(FRESH, bits);
    UnstuffStep([], FRESH, bits, 0);
    assert [] + [bits[0]] == out;
    var i := 1;
    while i < |bits|
      invariant 1 <= i <= |bits|
      invariant out + Unstuffed(Tail(run, Some(last)), bits[i..]) == Unstuffed(FRESH, bits)
    {
      UnstuffStep(out, Tail(run, Some(last)), bits, i);
      var b := bits[i];
      i := i + 1;
      if run == 5 {                          // a stuff bit: remove it, it resets the run
        assert out + [] == out;
        run, last := 1, b;
        continue;
      }
      out := out + [b];
      run := if b == last then run + 1 else 1;
      last := b;
    }
    StuffEnd(Tail(run, Some(last)), bits[i..]);
  }

  lemma UnstuffStep(out: seq<bit>, t: Tail, bits: seq<bit>, i: nat)
    requires i < |bits|
    ensures out + Unstuffed(t, bits[i..]) ==
            (out + UnstuffBit(t, bits[i]).1) + Unstuffed(UnstuffBit(t, bits[i]).0, bits[i + 1..])
  {
    hide UnstuffBit;
    assert bits[i..][1..] == bits[i + 1..];
  }

  lemma Cons(t: Tail, b: bit, rest: seq<bit>)
    ensures Unstuffed(t, [b] + rest) == UnstuffBit(t, b).1 + Unstuffed(UnstuffBit(t, b).0, rest)
    ensures TailAfter(t, [b] + rest) == TailAfter(UnstuffBit(t, b).0, rest)
    ensures Stuffed(t, [b] + rest) == StuffBit(t, b).1 + Stuffed(StuffBit(t, b).0, rest)
  {
    hide UnstuffBit, StuffBit;
    assert ([b] + rest)[1..] == rest;
  }

  /** Removing stuff bits inverts inserting them, for every bit string and every run the
      string is entered with. */
  lemma {:induction false} UnstuffStuff(t: Tail, bits: seq<bit>)
    requires t.run < 5
    ensures Unstuffed(t, Stuffed(t, bits)) == bits
    decreases |bits|
  {
    hide Stuffed, Unstuffed, TailAfter;
    if bits == [] {
      StuffEnd(t, bits);
      StuffEnd(t, []);
    } else {
      var b, rest := bits[0], bits[1..];
      var u := StuffBit(t, b).0;
      var later := Stuffed(u, rest);
      assert bits == [b] + rest;
      Cons(t, b, rest);
      UnstuffStuff(u, rest);
      if Next(t, b).run == 5 {
        assert [b, 1 - b] + later == [b] + ([1 - b] + later);
        Cons(t, b, [1 - b] + later);
        Cons(Next(t, b), 1 - b, later);
        assert [] + rest == rest;
      } else {
        Cons(t, b, later);
      }
    }
  }

  lemma {:induction false} UnstuffConcat(t: Tail, a: seq<bit>, b: seq<bit>)
    ensures Unstuffed(t, a + b) == Unstuffed(t, a) + Unstuffed(TailAfter(t, a), b)
    decreases |a|
  {
    hide Unstuffed, TailAfter, UnstuffBit;
    if a == [] {
      StuffEnd(t, a);
      assert a + b == b && [] + Unstuffed(t, b) == Unstuffed(t, b);
    } else {
      var x, rest := a[0], a[1..];
      var u := UnstuffBit(t, x).0;
      assert a == [x] + rest && a + b == [x] + (rest + b);
      Cons(t, x, rest);
      Cons(t, x, rest + b);
      UnstuffConcat(u, rest, b);
      AssocBits(UnstuffBit(t, x).1, Unstuffed(u, rest), Unstuffed(TailAfter(u, rest), b));
    }
  }

  lemma AssocBits(a: seq<bit>, b: seq<bit>, c: seq<bit>)
    ensures a + (b + c) == (a + b) + c
  {}

  /** Unstuffing ones gives ones only, and not more of them. */
  lemma {:induction false} UnstuffOnes(t: Tail, n: nat)
    ensures var u := Unstuffed(t, Held(1, n)); |u| <= n && u == Held(1, |u|)
    decreases n
  {
    hide Unstuffed, TailAfter, Stuffed;
    if n == 0 {
      StuffEnd(t, Held(1, n));
    } else {
      UnstuffOnes(UnstuffBit(t, 1).0, n - 1);
      assert Held(1, n) == [1] + Held(1, n - 1);
      Cons(t, 1, Held(1, n - 1));
    }
  }

  /** Stuffing one bit more appends what that bit puts on the bus. */
  lemma {:induction false} StuffedSnoc(t: Tail, a: seq<bit>, b: bit) returns (u: Tail)
    ensures Stuffed(t, a + [b]) == Stuffed(t, a) + StuffBit(u, b).1
    decreases |a|
  {
    hide Stuffed, StuffBit;
    if a == [] {
      u := t;
      StuffEnd(t, a);
      StuffEnd(StuffBit(t, b).0, []);
      Cons(t, b, []);
      assert a + [b] == [b] + [] && [] + StuffBit(t, b).1 == StuffBit(t, b).1 + [];
    } else {
      var x, rest := a[0], a[1..];
      u := StuffedSnoc(StuffBit(t, x).0, rest, b);
      assert a == [x] + rest && a + [b] == [x] + (rest + [b]);
      Cons(t, x, rest);
      Cons(t, x, rest + [b]);
      AssocBits(StuffBit(t, x).1, Stuffed(StuffBit(t, x).0, rest), StuffBit(u, b).1);
    }
  }

  /** An odd number of blocks ends at the level it began with. */
  lemma {:induction false} SpreadEnds(lens: seq<nat>, level: bit)
    requires |lens| % 2 == 1 && forall k :: 0 <= k < |lens| ==> lens[k] >= 1
    ensures var s := Spread(lens, level); s != [] && s[|s| - 1] == level
    decreases |lens|
  {
    if |lens| > 1 {
      SpreadEnds(lens[2..], level);
      assert lens[1..][1..] == lens[2..];
    } else {
      assert Spread(lens[1..], 1 - level) == [];
    }
  }

  // ---- runs of a stuffed string ---------------------------------------------------------------

  /** No more than five alike, counting a run that was there before. */
  predicate Calm(t: Tail, bits: seq<bit>)
    decreases |bits|
  {
    bits == [] || (Next(t, bits[0]).run <= 5 && Calm(Next(t, bits[0]), bits[1..]))
  }

  lemma {:induction false} StuffedIsCalm(t: Tail, bits: seq<bit>)
    requires t.run < 5
    ensures Calm(t, Stuffed(t, bits)) && |Stuffed(t, bits)| >= |bits|
    decreases |bits|
  {
    if bits != [] {
      var b, rest := bits[0], bits[1..];
      var u := StuffBit(t, b).0;
      StuffedIsCalm(u, rest);
      var later := Stuffed(u, rest);
      hide Stuffed;
      if Next(t, b).run == 5 {
        assert ([b, 1 - b] + later)[1..] == [1 - b] + later && ([1 - b] + later)[1..] == later;
      } else {
        assert ([b] + later)[1..] == later;
      }
    }
  }

  /** The lengths of the runs of a bit string, the first of which has n >= 1 bits already. */
  function Lengths(level: bit, n: nat, bits: seq<bit>): (lens: seq<nat>)
    ensures |lens| >= 1
    decreases |bits|
  {
    if bits == [] then [n]
    else if bits[0] == level then Lengths(level, n + 1, bits[1..])
    else [n] + Lengths(bits[0], 1, bits[1..])
  }

  /** The runs of a bit string, with n >= 1 bits of the first one already passed. */
  function RunOn(level: bit, n: nat, bits: seq<bit>): seq<(bit, nat)>
    decreases |bits|
  {
    if bits == [] then [(level, n)]
    else if bits[0] == level then RunOn(level, n + 1, bits[1..])
    else [(level, n)] + RunOn(bits[0], 1, bits[1..])
  }

  function RunsOf(bits: seq<bit>): seq<(bit, nat)> {
    if bits == [] then [] else RunOn(bits[0], 1, bits[1..])
  }

  /** bits_to_runs. */
  method BitsToRuns(bits: seq<bit>) returns (runs: seq<(bit, nat)>)
    ensures runs == RunsOf(bits)
  {
    hide RunsOf, RunOn;
    runs := [];
    var i := 0;
    assert bits[0..] == bits && runs + RunsOf(bits) == RunsOf(bits);
    while i < |bits|
      invariant i <= |bits| && runs + RunsOf(bits[i..]) == RunsOf(bits)
    {
      var j := i;
      RunFirst(bits, i);
      while j < |bits| && bits[j] == bits[i]
        invariant i <= j <= |bits|
        invariant j > i ==> RunOn(bits[i], j - i, bits[j..]) == RunsOf(bits[i..])
      {
        if j > i {
          RunStep(bits[i], j - i, bits, j);
        }
        j := j + 1;
      }
      RunStep(bits[i], j - i, bits, j);
      AssocPairs(runs, [(bits[i], j - i)], RunsOf(bits[j..]));
      runs := runs + [(bits[i], j - i)];
      i := j;
    }
    assert bits[i..] == [];
    RunsEnd();
  }

  lemma RunFirst(bits: seq<bit>, i: nat)
    requires i < |bits|
    ensures RunsOf(bits[i..]) == RunOn(bits[i], 1, bits[i + 1..])
  {
    assert bits[i..][1..] == bits[i + 1..];
  }

  lemma RunStep(level: bit, n: nat, bits: seq<bit>, j: nat)
    requires j <= |bits|
    ensures RunOn(level, n, bits[j..]) ==
            if j < |bits| && bits[j] == level then RunOn(level, n + 1, bits[j + 1..])
            else [(level, n)] + RunsOf(bits[j..])
  {
    if j < |bits| {
      assert bits[j..][1..] == bits[j + 1..];
    }
  }

  lemma RunsEnd()
    ensures RunsOf([]) == []
  {}

  lemma AssocPairs(a: seq<(bit, nat)>, b: seq<(bit, nat)>, c: seq<(bit, nat)>)
    ensures a + (b + c) == (a + b) + c
  {}

  /** Lengths whose levels alternate. */
  function Alternating(level: bit, lens: seq<nat>): seq<(bit, nat)>
    decreases |lens|
  {
    if lens == [] then [] else [(level, lens[0])] + Alternating(1 - level, lens[1..])
  }

  lemma {:induction false} RunsAlternate(level: bit, n: nat, bits: seq<bit>)
    ensures RunOn(level, n, bits) == Alternating(level, Lengths(level, n, bits))
    decreases |bits|
  {
    hide *;
    RunOnCases(level, n, bits);
    if bits == [] {
      AlternatingCons(level, n, []);
      AlternatingNone(1 - level);
      assert [n] + [] == [n] && [(level, n)] + [] == [(level, n)];
    } else if bits[0] == level {
      RunsAlternate(level, n + 1, bits[1..]);
    } else {
      RunsAlternate(bits[0], 1, bits[1..]);
      AlternatingCons(level, n, Lengths(bits[0], 1, bits[1..]));
    }
  }

  lemma RunOnCases(level: bit, n: nat, bits: seq<bit>)
    ensures if bits == [] then RunOn(level, n, bits) == [(level, n)] && Lengths(level, n, bits) == [n]
            else if bits[0] == level then
              RunOn(level, n, bits) == RunOn(level, n + 1, bits[1..])
              && Lengths(level, n, bits) == Lengths(level, n + 1, bits[1..])
            else
              RunOn(level, n, bits) == [(level, n)] + RunOn(bits[0], 1, bits[1..])
              && Lengths(level, n, bits) == [n] + Lengths(bits[0], 1, bits[1..])
  {}

  lemma AlternatingNone(level: bit)
    ensures Alternating(level, []) == []
  {}

  lemma AlternatingCons(level: bit, n: nat, lens: seq<nat>)
    ensures Alternating(level, [n] + lens) == [(level, n)] + Alternating(1 - level, lens)
  {
    assert ([n] + lens)[1..] == lens;
  }

  lemma HeldSnoc(level: bit, n: nat, rest: seq<bit>)
    ensures Held(level, n) + ([level] + rest) == Held(level, n + 1) + rest
  {}

  /** The bit string is its runs, laid end to end. */
  lemma {:induction false} LengthsSpread(level: bit, n: nat, bits: seq<bit>)
    ensures Spread(Lengths(level, n, bits), level) == Held(level, n) + bits
    decreases |bits|
  {
    hide Held;
    if bits == [] {
      assert Spread([n][1..], 1 - level) == [];
    } else if bits[0] == level {
      LengthsSpread(level, n + 1, bits[1..]);
      HeldSnoc(level, n, bits[1..]);
      assert bits == [bits[0]] + bits[1..];
    } else {
      LengthsSpread(bits[0], 1, bits[1..]);
      OneHeld(bits[0]);
      assert bits == [bits[0]] + bits[1..];
      var later := Lengths(bits[0], 1, bits[1..]);
      assert ([n] + later)[1..] == later;
    }
  }

  lemma OneHeld(level: bit)
    ensures Held(level, 1) == [level]
  {}

  /** A calm string followed by the 13 recessive bits of a frame's end: its runs are some of
      1..5 bits, starting at `level` and ending dominant, and one recessive gap of 13..18. */
  lemma {:induction false} FrameRuns(level: bit, n: nat, s: seq<bit>) returns (inner: seq<nat>, gap: nat)
    requires 1 <= n <= 5 && Calm(Tail(n, Some(level)), s)
    ensures Lengths(level, n, s + Held(1, 13)) == inner + [gap]
    ensures 13 <= gap <= 18 && forall k :: 0 <= k < |inner| ==> 1 <= inner[k] <= 5
    ensures Held(level, n) + s == Spread(inner, level) + Held(1, gap - 13)
    ensures |inner| % 2 == 1 - level
    decreases |s|
  {
    hide *;
    var f := s + Held(1, 13);
    if s == [] {
      inner, gap := FrameEnd(level, n);
      assert f == Held(1, 13) && Held(level, n) + s == Held(level, n);
    } else {
      assert f[0] == s[0] && f[1..] == s[1..] + Held(1, 13);
      assert s == [s[0]] + s[1..];
      CalmStep(level, n, s);
      RunOnCases(level, n, f);
      if s[0] == level {
        inner, gap := FrameRuns(level, n + 1, s[1..]);
        HeldSnoc(level, n, s[1..]);
      } else {
        var rest;
        rest, gap := FrameRuns(s[0], 1, s[1..]);
        inner := [n] + rest;
        OneHeld(s[0]);
        SpreadCons(level, n, rest);
        AssocBits(Held(level, n), Spread(rest, s[0]), Held(1, gap - 13));
        assert [n] + (rest + [gap]) == inner + [gap];
      }
    }
  }

  lemma FrameEnd(level: bit, n: nat) returns (inner: seq<nat>, gap: nat)
    requires 1 <= n <= 5
    ensures Lengths(level, n, Held(1, 13)) == inner + [gap]
    ensures 13 <= gap <= 18 && forall k :: 0 <= k < |inner| ==> 1 <= inner[k] <= 5
    ensures Held(level, n) == Spread(inner, level) + Held(1, gap - 13) && |inner| % 2 == 1 - level
  {
    var f := Held(1, 13);
    if level == 1 {
      inner, gap := [], n + 13;
      LengthsOfHeld(1, n, 13);
      assert Spread([], level) + Held(1, n) == Held(1, n);
    } else {
      inner, gap := [n], 13;
      LengthsOfHeld(1, 1, 12);
      assert f[1..] == Held(1, 12);
      SpreadCons(level, n, []);
      assert [n] + [] == [n] && Spread([], 1 - level) == [] && Held(1, 0) == [];
    }
  }

  lemma CalmStep(level: bit, n: nat, s: seq<bit>)
    requires s != [] && Calm(Tail(n, Some(level)), s)
    ensures Calm(Tail(if s[0] == level then n + 1 else 1, Some(s[0])), s[1..])
    ensures s[0] == level ==> n + 1 <= 5
  {}

  lemma SpreadCons(level: bit, n: nat, rest: seq<nat>)
    ensures Spread([n] + rest, level) == Held(level, n) + Spread(rest, 1 - level)
  {
    assert ([n] + rest)[1..] == rest;
  }

  lemma {:induction false} LengthsOfHeld(level: bit, n: nat, m: nat)
    ensures Lengths(level, n, Held(level, m)) == [n + m]
    decreases m
  {
    if m > 0 {
      assert Held(level, m)[1..] == Held(level, m - 1);
      LengthsOfHeld(level, n + 1, m - 1);
    }
  }
}
