/** Runs laid on a fractional bit axis (scripts/dmx_rle_decode.py: assign_levels, _Timeline,
    decode_with). Positions are real numbers: rounding is not the point here. */
module DmxTimeline {
  import opened Bytes
  import opened Cobs
  import opened RunCodec

  const IDLE_SEP_BITS: real := 4.0

  datatype Seg = Seg(start: real, end: real, level: bit)

  /** Segments, positions of the idle boundaries, end of the stream. */
  datatype Timeline = Timeline(segs: seq<Seg>, bounds: seq<real>, end: real)

  // ---- levels --------------------------------------------------------------------------------------

  /** The absolute level of each run: anchored at every boundary, alternating in between. */
  function Levels(runs: seq<nat>, idle: bit, lv: bit): (levels: seq<bit>)
    ensures |levels| == |runs|
    decreases |runs|
  {
    if runs == [] then []
    else if runs[0] >= BOUNDARY_RUN then [idle] + Levels(runs[1..], idle, 1 - idle)
    else [lv] + Levels(runs[1..], idle, 1 - lv)
  }

  method AssignLevels(runs: seq<nat>, idleHigh: bool) returns (levels: seq<bit>)
    ensures var idle := if idleHigh then 1 else 0; levels == Levels(runs, idle, idle)
  {
    hide Levels;
    var idle: bit := if idleHigh then 1 else 0;
    levels := [];
    var lv := idle;
    assert runs[0..] == runs && levels + Levels(runs, idle, idle) == Levels(runs, idle, idle);
    for i := 0 to |runs|
      invariant levels + Levels(runs[i..], idle, lv) == Levels(runs, idle, idle)
    {
      LevelsStep(runs, i, idle, lv);
      if runs[i] >= BOUNDARY_RUN {
        levels := levels + [idle];
        lv := 1 - idle;
      } else {
        levels := levels + [lv];
        lv := 1 - lv;
      }
    }
    assert runs[|runs|..] == [];
    LevelsEnd(idle, lv);
  }

  lemma LevelsStep(runs: seq<nat>, i: nat, idle: bit, lv: bit)
    requires i < |runs|
    ensures Levels(runs[i..], idle, lv) ==
            if runs[i] >= BOUNDARY_RUN then [idle] + Levels(runs[i + 1..], idle, 1 - idle)
            else [lv] + Levels(runs[i + 1..], idle, 1 - lv)
  {
    assert runs[i..][1..] == runs[i + 1..];
  }

  lemma LevelsEnd(idle: bit, lv: bit)
    ensures Levels([], idle, lv) == []
  {}

  // ---- laying the runs -------------------------------------------------------------------------------

  /** How long a run is on the axis. */
  function Bits(run: nat, level: bit, uiLo: real, uiHi: real): real
    requires uiLo > 0.0 && uiHi > 0.0
  {
    if run >= BOUNDARY_RUN then IDLE_SEP_BITS else run as real / (if level == 1 then uiHi else uiLo)
  }

  /** The segments of the remaining runs, from `pos` on; empty runs leave none. */
  function Laid(runs: seq<nat>, levels: seq<bit>, uiLo: real, uiHi: real, pos: real): Timeline
    requires |levels| == |runs| && uiLo > 0.0 && uiHi > 0.0
    decreases |runs|
  {
    if runs == [] then Timeline([], [], pos)
    else
      var mark := runs[0] >= BOUNDARY_RUN;
      var dur := Bits(runs[0], levels[0], uiLo, uiHi);
      var rest := Laid(runs[1..], levels[1..], uiLo, uiHi, if dur <= 0.0 then pos else pos + dur);
      Timeline((if dur <= 0.0 then [] else [Seg(pos, pos + dur, if mark then 1 else levels[0])]) + rest.segs,
               (if mark then [pos] else []) + rest.bounds, rest.end)
  }

  method BuildTimeline(runs: seq<nat>, levels: seq<bit>, uiLo: real, uiHi: real) returns (tl: Timeline)
    requires |levels| == |runs| && uiLo > 0.0 && uiHi > 0.0
    ensures tl == Laid(runs, levels, uiLo, uiHi, 0.0)
  {
    hide Laid, Bits;
    var segs: seq<Seg>, bounds: seq<real> := [], [];
    var pos := 0.0;
    ghost var all := Laid(runs, levels, uiLo, uiHi, 0.0);
    assert runs[0..] == runs && levels[0..] == levels;
    for i := 0 to |runs|
      invariant var rest := Laid(runs[i..], levels[i..], uiLo, uiHi, pos);
                segs + rest.segs == all.segs && bounds + rest.bounds == all.bounds && rest.end == all.end
    {
      LaidStep(runs, levels, uiLo, uiHi, pos, i);
      var l := levels[i];
      var dur := Bits(runs[i], levels[i], uiLo, uiHi);
      ghost var rest := Laid(runs[i + 1..], levels[i + 1..], uiLo, uiHi, if dur <= 0.0 then pos else pos + dur);
      AssocSeq(segs, if dur <= 0.0 then [] else [Seg(pos, pos + dur, if runs[i] >= BOUNDARY_RUN then 1 else l)],
               rest.segs);
      AssocSeq(bounds, if runs[i] >= BOUNDARY_RUN then [pos] else [], rest.bounds);
      if runs[i] >= BOUNDARY_RUN {
        bounds := bounds + [pos];
        l := 1;
      }
      if dur > 0.0 {
        segs := segs + [Seg(pos, pos + dur, l)];
        pos := pos + dur;
      }
    }
    LaidEnd(runs[|runs|..], levels[|runs|..], uiLo, uiHi, pos);
    tl := Timeline(segs, bounds, pos);
  }

  lemma AssocSeq<T>(a: seq<T>, b: seq<T>, c: seq<T>)
    ensures a + (b + c) == (a + b) + c && a + [] == a
  {}

  lemma LaidStep(runs: seq<nat>, levels: seq<bit>, uiLo: real, uiHi: real, pos: real, i: nat)
    requires |levels| == |runs| && uiLo > 0.0 && uiHi > 0.0 && i < |runs|
    ensures var mark := runs[i] >= BOUNDARY_RUN;
            var dur := Bits(runs[i], levels[i], uiLo, uiHi);
            var rest := Laid(runs[i + 1..], levels[i + 1..], uiLo, uiHi, if dur <= 0.0 then pos else pos + dur);
            Laid(runs[i..], levels[i..], uiLo, uiHi, pos) ==
            Timeline((if dur <= 0.0 then [] else [Seg(pos, pos + dur, if mark then 1 else levels[i])]) + rest.segs,
                     (if mark then [pos] else []) + rest.bounds, rest.end)
  {
    hide Bits;
    assert runs[i..][1..] == runs[i + 1..] && levels[i..][1..] == levels[i + 1..];
  }

  lemma LaidEnd(runs: seq<nat>, levels: seq<bit>, uiLo: real, uiHi: real, pos: real)
    requires runs == [] && levels == [] && uiLo > 0.0 && uiHi > 0.0
    ensures Laid(runs, levels, uiLo, uiHi, pos) == Timeline([], [], pos)
  {}

  /** Segments lie end to end. */
  ghost predicate Ordered(segs: seq<Seg>) {
    && (forall i :: 0 <= i < |segs| ==> segs[i].start < segs[i].end)
    && (forall i :: 0 <= i < |segs| - 1 ==> segs[i].end == segs[i + 1].start)
  }

  lemma {:induction false} LaidIsOrdered(runs: seq<nat>, levels: seq<bit>, uiLo: real, uiHi: real, pos: real)
    requires |levels| == |runs| && uiLo > 0.0 && uiHi > 0.0
    ensures var segs := Laid(runs, levels, uiLo, uiHi, pos).segs;
            Ordered(segs) && (segs != [] ==> segs[0].start == pos)
    decreases |runs|
  {
    hide *;
    if runs == [] {
      LaidEnd(runs, levels, uiLo, uiHi, pos);
      NothingOrdered();
    } else {
      var dur := Bits(runs[0], levels[0], uiLo, uiHi);
      var next := if dur <= 0.0 then pos else pos + dur;
      LaidIsOrdered(runs[1..], levels[1..], uiLo, uiHi, next);
      LaidFirst(runs, levels, uiLo, uiHi, pos);
      var rest := Laid(runs[1..], levels[1..], uiLo, uiHi, next);
      if dur <= 0.0 {
        assert [] + rest.segs == rest.segs;
      } else {
        OrderedCons(Seg(pos, next, if runs[0] >= BOUNDARY_RUN then 1 else levels[0]), rest.segs);
      }
    }
  }

  lemma NothingOrdered()
    ensures Ordered([])
  {}

  lemma OrderedCons(s: Seg, rest: seq<Seg>)
    requires s.start < s.end && Ordered(rest) && (rest != [] ==> rest[0].start == s.end)
    ensures Ordered([s] + rest)
  {
    var all := [s] + rest;
    assert forall i :: 0 <= i < |rest| ==> all[i + 1] == rest[i];
    forall i | 0 <= i < |all|
      ensures all[i].start < all[i].end && (i + 1 < |all| ==> all[i].end == all[i + 1].start)
    {
      if i > 0 {
        assert all[i] == rest[i - 1];
      }
    }
  }

  lemma LaidFirst(runs: seq<nat>, levels: seq<bit>, uiLo: real, uiHi: real, pos: real)
    requires |levels| == |runs| && uiLo > 0.0 && uiHi > 0.0 && runs != []
    ensures var dur := Bits(runs[0], levels[0], uiLo, uiHi);
            var rest := Laid(runs[1..], levels[1..], uiLo, uiHi, if dur <= 0.0 then pos else pos + dur);
            Laid(runs, levels, uiLo, uiHi, pos).segs ==
            (if dur <= 0.0 then []
             else [Seg(pos, pos + dur, if runs[0] >= BOUNDARY_RUN then 1 else levels[0])]) + rest.segs
  {
    hide Bits;
  }

  // ---- queries -----------------------------------------------------------------------------------------

  /** bisect_right on the segment starts. */
  function Bisect(segs: seq<Seg>, p: real): (n: nat)
    ensures n <= |segs|
  {
    if segs == [] || p < segs[0].start then 0 else 1 + Bisect(segs[1..], p)
  }

  lemma {:induction false} BisectRises(segs: seq<Seg>, p: real, q: real)
    requires p <= q
    ensures Bisect(segs, p) <= Bisect(segs, q)
  {
    if segs != [] && segs[0].start <= p {
      BisectRises(segs[1..], p, q);
    }
  }

  /** On ordered segments it is the one place where the starts pass p. */
  lemma {:induction false} BisectIs(segs: seq<Seg>, p: real, n: nat)
    requires Ordered(segs) && n <= |segs|
    requires n > 0 ==> segs[n - 1].start <= p
    requires n < |segs| ==> p < segs[n].start
    ensures Bisect(segs, p) == n
  {
    if n > 0 {
      StartsRise(segs, 0, n - 1);
      BisectIs(segs[1..], p, n - 1);
    }
  }

  lemma {:induction false} StartsRise(segs: seq<Seg>, i: nat, j: nat)
    requires Ordered(segs) && i <= j < |segs|
    ensures segs[i].start <= segs[j].start && (i < j ==> segs[i].end <= segs[j].start)
    decreases j - i
  {
    if i < j {
      StartsRise(segs, i, j - 1);
    }
  }

  /** And it is such a place. */
  lemma {:induction false} BisectSplits(segs: seq<Seg>, p: real)
    requires Ordered(segs)
    ensures var n := Bisect(segs, p);
            (forall i :: 0 <= i < n ==> segs[i].start <= p) && (forall i :: n <= i < |segs| ==> p < segs[i].start)
  {
    if segs != [] {
      if p < segs[0].start {
        forall i | 0 <= i < |segs|
          ensures p < segs[i].start
        {
          StartsRise(segs, 0, i);
        }
      } else {
        BisectSplits(segs[1..], p);
        assert forall i :: 1 <= i < |segs| ==> segs[i] == segs[1..][i - 1];
      }
    }
  }

  /** Outside the stream the line is idle. */
  function LevelAt(segs: seq<Seg>, p: real): bit {
    var i := Bisect(segs, p);
    if i == 0 then 1 else if p < segs[i - 1].end then segs[i - 1].level else 1
  }

  /** Index of the first LOW segment from i on, or |segs|. */
  function FirstLow(segs: seq<Seg>, i: nat): (j: nat)
    requires i <= |segs|
    ensures i <= j <= |segs| && (j < |segs| ==> segs[j].level == 0)
    ensures forall k :: i <= k < j ==> segs[k].level == 1
    decreases |segs| - i
  {
    if i == |segs| || segs[i].level == 0 then i else FirstLow(segs, i + 1)
  }

  function NextFalling(segs: seq<Seg>, p: real): Option<real> {
    var j := FirstLow(segs, Bisect(segs, p));
    if j < |segs| then Some(segs[j].start) else None
  }

  method FindFalling(segs: seq<Seg>, p: real) returns (r: Option<real>)
    ensures r == NextFalling(segs, p)
  {
    var i := Bisect(segs, p);
    while i < |segs|
      invariant i <= |segs| && FirstLow(segs, i) == FirstLow(segs, Bisect(segs, p))
    {
      if segs[i].level == 0 {
        return Some(segs[i].start);
      }
      i := i + 1;
    }
    return None;
  }

  lemma LevelIn(segs: seq<Seg>, i: nat, p: real)
    requires Ordered(segs) && i < |segs| && segs[i].start <= p < segs[i].end
    ensures LevelAt(segs, p) == segs[i].level
  {
    BisectIs(segs, p, i + 1);
  }

  /** The next falling edge is the first LOW start after p. */
  lemma FallsAt(segs: seq<Seg>, p: real, j: nat)
    requires Ordered(segs) && j <= |segs| && (j < |segs| ==> segs[j].level == 0 && p < segs[j].start)
    requires forall k :: 0 <= k < j && segs[k].level == 0 ==> segs[k].start <= p
    ensures NextFalling(segs, p) == if j < |segs| then Some(segs[j].start) else None
  {
    BisectSplits(segs, p);
    var n := Bisect(segs, p);
    assert n <= j;
    var f := FirstLow(segs, n);
    assert f >= j;
  }

  /** It is beyond p. */
  lemma FallsLater(segs: seq<Seg>, p: real)
    requires Ordered(segs)
    ensures var r := NextFalling(segs, p);
            r.Some? ==> r.value > p && Bisect(segs, r.value) > Bisect(segs, p)
  {
    var n := Bisect(segs, p);
    var j := FirstLow(segs, n);
    BisectSplits(segs, p);
    if j < |segs| {
      BisectSplits(segs, segs[j].start);
      assert j < Bisect(segs, segs[j].start);
    }
  }
}
