/** How much timing error the DMX receiver stands: with every run inside a slot measured
    within a twentieth of a bit time it reads exactly the bytes sent, because it
    resynchronises on every START edge. */
module DmxTolerance {
  import opened Bytes
  import opened Cobs
  import opened RunCodec
  import opened CanBits
  import opened DmxTimeline
  import opened DmxDecode

  const TOL: real := 0.05

  // ---- runs of a bit string --------------------------------------------------------------------------

  /** The bit position at which run k starts. */
  function A(lens: seq<nat>, k: nat): nat
    requires k <= |lens|
  {
    if k == 0 then 0 else A(lens, k - 1) + lens[k - 1]
  }

  /** Bit m lies in run k. */
  predicate In(lens: seq<nat>, k: nat, m: nat) {
    k < |lens| && A(lens, k) <= m < A(lens, k + 1)
  }

  /** b, starting LOW, has these runs. */
  ghost predicate RunsAre(b: seq<bit>, lens: seq<nat>) {
    && (forall k :: 0 <= k < |lens| ==> lens[k] >= 1)
    && A(lens, |lens|) == |b|
    && forall k: nat, m: nat :: In(lens, k, m) ==> m < |b| && b[m] == k % 2
  }

  lemma {:induction false} AFront(lens: seq<nat>, k: nat)
    requires 0 < k <= |lens|
    ensures A(lens, k) == lens[0] + A(lens[1..], k - 1)
  {
    if k > 1 {
      AFront(lens, k - 1);
      assert lens[k - 1] == lens[1..][k - 2];
    }
  }

  /** Each run is at least one bit long. */
  lemma {:induction false} ARises(lens: seq<nat>, i: nat, j: nat)
    requires (forall k :: 0 <= k < |lens| ==> lens[k] >= 1) && i <= j <= |lens|
    ensures A(lens, j) - A(lens, i) >= j - i
    decreases j - i
  {
    if i < j {
      ARises(lens, i, j - 1);
    }
  }

  lemma {:induction false} RunAt(lens: seq<nat>, m: nat, n: nat) returns (k: nat)
    requires n <= |lens| && m < A(lens, n)
    ensures In(lens, k, m) && k < n
  {
    if m >= A(lens, n - 1) {
      k := n - 1;
    } else {
      k := RunAt(lens, m, n - 1);
    }
  }

  /** A change of level is where a run starts. */
  lemma EdgeAt(b: seq<bit>, lens: seq<nat>, m: nat) returns (k: nat)
    requires RunsAre(b, lens) && m < |b| && (m > 0 ==> b[m - 1] != b[m])
    ensures k < |lens| && A(lens, k) == m
  {
    k := RunAt(lens, m, |lens|);
    assert A(lens, k) < m ==> In(lens, k, m - 1);
  }

  lemma {:induction false} LengthsPositive(level: bit, n: nat, bits: seq<bit>)
    requires n >= 1
    ensures forall k :: 0 <= k < |Lengths(level, n, bits)| ==> Lengths(level, n, bits)[k] >= 1
    decreases |bits|
  {
    if bits != [] {
      if bits[0] == level {
        LengthsPositive(level, n + 1, bits[1..]);
      } else {
        LengthsPositive(bits[0], 1, bits[1..]);
      }
    }
  }

  lemma {:induction false} SpreadAt(lens: seq<nat>, level: bit, k: nat, m: nat)
    requires In(lens, k, m)
    ensures m < |Spread(lens, level)| && Spread(lens, level)[m] == if k % 2 == 0 then level else 1 - level
    decreases |lens|
  {
    AFront(lens, k + 1);
    assert lens == [lens[0]] + lens[1..];
    hide A;
    if k > 0 {
      AFront(lens, k);
      SpreadAt(lens[1..], 1 - level, k - 1, m - lens[0]);
    }
  }

  lemma {:induction false} SpreadSize(lens: seq<nat>, level: bit)
    ensures |Spread(lens, level)| == A(lens, |lens|)
    decreases |lens|
  {
    if lens != [] {
      SpreadSize(lens[1..], 1 - level);
      AFront(lens, |lens|);
    }
  }

  /** The runs the encoder makes of a bit string that starts LOW. */
  function RunLens(b: seq<bit>): seq<nat>
    requires b != []
  {
    Lengths(b[0], 1, b[1..])
  }

  lemma RunLensAre(b: seq<bit>)
    requires b != [] && b[0] == 0
    ensures RunsAre(b, RunLens(b))
  {
    var lens := RunLens(b);
    LengthsPositive(0, 1, b[1..]);
    LengthsSpread(0, 1, b[1..]);
    OneHeld(0);
    assert Spread(lens, 0) == b;
    SpreadSize(lens, 0);
    hide Spread, Lengths;
    forall k: nat, m: nat | In(lens, k, m)
      ensures m < |b| && b[m] == k % 2
    {
      SpreadAt(lens, 0, k, m);
    }
  }

  // ---- segments that follow the runs -----------------------------------------------------------------

  /** Where run k starts on the axis; the last run ends at St(n). */
  function St(segs: seq<Seg>, i0: nat, n: nat, k: nat): real
    requires 0 < n && i0 + n <= |segs| && k <= n
  {
    if k < n then segs[i0 + k].start else segs[i0 + n - 1].end
  }

  /** From segment i0 on the axis shows the runs of b, each within the tolerance; the last, HIGH,
      may be longer than its two stop bits. */
  ghost predicate Follows(segs: seq<Seg>, i0: nat, b: seq<bit>, lens: seq<nat>) {
    && Ordered(segs) && RunsAre(b, lens) && 0 < |lens| && i0 + |lens| <= |segs|
    && (forall k :: 0 <= k < |lens| ==> segs[i0 + k].level == k % 2)
    && (forall k :: 0 <= k < |lens| ==> segs[i0 + k].end - segs[i0 + k].start > lens[k] as real - TOL)
    && (forall k :: 0 <= k < |lens| - 1 ==> segs[i0 + k].end - segs[i0 + k].start < lens[k] as real + TOL)
  }

  /** The error grows by less than a twentieth of a bit per run, and starts anew at each edge. */
  lemma {:induction false} Drift(segs: seq<Seg>, i0: nat, b: seq<bit>, lens: seq<nat>, s: nat, q: nat)
    requires Follows(segs, i0, b, lens) && s <= q <= |lens|
    ensures var n := |lens|;
            var d := St(segs, i0, n, q) - St(segs, i0, n, s) - (A(lens, q) - A(lens, s)) as real;
            && d >= -TOL * (q - s) as real && (s < q ==> d > -TOL * (q - s) as real)
            && (q < n ==> d <= TOL * (q - s) as real)
    decreases q - s
  {
    if s < q {
      Drift(segs, i0, b, lens, s, q - 1);
      assert A(lens, q) == A(lens, q - 1) + lens[q - 1];
      assert (A(lens, q) - A(lens, s)) as real == (A(lens, q - 1) - A(lens, s)) as real + lens[q - 1] as real;
    }
  }

  /** A mid-bit sample up to nine bits behind an edge reads the right bit. */
  lemma SampleBit(segs: seq<Seg>, i0: nat, b: seq<bit>, lens: seq<nat>, s: nat, j: nat)
    requires Follows(segs, i0, b, lens) && s < |lens| && j <= 9 && A(lens, s) + j < |b|
    ensures LevelAt(segs, Mid(St(segs, i0, |lens|, s), j)) == b[A(lens, s) + j]
  {
    hide A, Spread, LevelAt;
    var n, m := |lens|, A(lens, s) + j;
    var q := RunFrom(b, lens, s, j);
    Drift(segs, i0, b, lens, s, q);
    Drift(segs, i0, b, lens, s, q + 1);
    var s0 := St(segs, i0, n, s);
    var p := Mid(s0, j);
    InSegment(s0, St(segs, i0, n, q), St(segs, i0, n, q + 1), A(lens, q) - A(lens, s), A(lens, q + 1) - A(lens, s),
              q - s, j);
    EndsAt(segs, i0, b, lens, q);
    LevelIn(segs, i0 + q, p);
  }

  /** The run of bit j behind the start of run s. */
  lemma RunFrom(b: seq<bit>, lens: seq<nat>, s: nat, j: nat) returns (q: nat)
    requires RunsAre(b, lens) && s < |lens| && A(lens, s) + j < |b|
    ensures s <= q <= s + j && q < |lens| && A(lens, q) <= A(lens, s) + j < A(lens, q + 1)
    ensures b[A(lens, s) + j] == q % 2
  {
    q := RunAt(lens, A(lens, s) + j, |lens|);
    if q < s {
      ARises(lens, q + 1, s);
    } else {
      ARises(lens, s, q);
    }
    assert In(lens, q, A(lens, s) + j);
  }

  lemma EndsAt(segs: seq<Seg>, i0: nat, b: seq<bit>, lens: seq<nat>, q: nat)
    requires Follows(segs, i0, b, lens) && q < |lens|
    ensures segs[i0 + q].start == St(segs, i0, |lens|, q) && segs[i0 + q].end == St(segs, i0, |lens|, q + 1)
    ensures segs[i0 + q].level == q % 2
  {
    assert q + 1 < |lens| ==> segs[i0 + q].end == segs[i0 + q + 1].start;
  }

  lemma InSegment(s0: real, sq: real, sq': real, a: int, a': int, r: nat, j: nat)
    requires r <= j <= 9 && a <= j < a'
    requires sq - s0 - a as real <= TOL * r as real
    requires sq' - s0 - a' as real > -TOL * (r + 1) as real
    ensures sq <= Mid(s0, j) < sq'
  {}

  // ---- slots ---------------------------------------------------------------------------------------------

  /** The n low bits of v, least significant first. */
  function LsbBits(v: nat, n: nat): (bits: seq<bit>)
    ensures |bits| == n
  {
    if n == 0 then [] else [v % 2] + LsbBits(v / 2, n - 1)
  }

  function LsbVal(bits: seq<bit>): nat {
    if bits == [] then 0 else bits[0] + 2 * LsbVal(bits[1..])
  }

  lemma {:induction false} LsbRound(v: nat, n: nat)
    requires v < Pow2(n)
    ensures LsbVal(LsbBits(v, n)) == v
  {
    if n > 0 {
      LsbRound(v / 2, n - 1);
      assert LsbBits(v, n)[1..] == LsbBits(v / 2, n - 1);
    }
  }

  lemma {:induction false} LsbSnoc(bits: seq<bit>, x: bit)
    ensures LsbVal(bits + [x]) == LsbVal(bits) + x * Pow2(|bits|)
  {
    if bits == [] {
      assert LsbVal([x]) == x + 2 * LsbVal([x][1..]);
    } else {
      LsbSnoc(bits[1..], x);
      assert (bits + [x])[1..] == bits[1..] + [x];
      Double(x, Pow2(|bits| - 1));
    }
  }

  lemma Double(x: nat, p: nat)
    ensures 2 * (x * p) == x * (2 * p)
  {}

  /** START, eight data bits, two STOP bits. */
  function SlotFrame(v: byte): (bits: seq<bit>)
    ensures |bits| == 11
  {
    [0] + LsbBits(v, 8) + [1, 1]
  }

  function Eight(a: nat, b: nat, c: nat, d: nat, e: nat, f: nat, g: nat, h: nat): nat {
    a + 2 * b + 4 * c + 8 * d + 16 * e + 32 * f + 64 * g + 128 * h
  }

  /** A slot on the line: LOW, the byte from its lowest bit to its highest, and two bit times HIGH. */
  lemma SlotBitByBit(v: byte)
    ensures var f := SlotFrame(v);
            f[0] == 0 && Eight(f[1], f[2], f[3], f[4], f[5], f[6], f[7], f[8]) == v && f[9] == f[10] == 1
  {
    assert Pow2(8) == 256;
    LsbRound(v, 8);
    var b := LsbBits(v, 8);
    EightLsb(b);
    hide LsbBits, LsbVal;
    assert SlotFrame(v) == [0] + b + [1, 1];
  }

  lemma EightLsb(b: seq<bit>)
    requires |b| == 8
    ensures LsbVal(b) == Eight(b[0], b[1], b[2], b[3], b[4], b[5], b[6], b[7])
  {
    var c := b[4..];
    assert LsbVal(c[3..]) == c[3] by {
      assert c[3..][1..] == [];
    }
    assert c[2..][1..] == c[3..] && c[1..][1..] == c[2..];
    assert b[1..][1..] == b[2..] && b[2..][1..] == b[3..] && b[3..][1..] == c;
    assert LsbVal(c) == c[0] + 2 * LsbVal(c[1..]) && LsbVal(c[1..]) == c[1] + 2 * LsbVal(c[2..]);
    assert LsbVal(c[2..]) == c[2] + 2 * LsbVal(c[3..]) && LsbVal(b[3..]) == b[3] + 2 * LsbVal(c);
    assert LsbVal(b) == b[0] + 2 * LsbVal(b[1..]) && LsbVal(b[1..]) == b[1] + 2 * LsbVal(b[2..]);
    assert LsbVal(b[2..]) == b[2] + 2 * LsbVal(b[3..]);
  }

  function SlotBits(slots: seq<byte>): (bits: seq<bit>)
    ensures |bits| == 11 * |slots|
  {
    if slots == [] then [] else SlotFrame(slots[0]) + SlotBits(slots[1..])
  }

  /** A slot that starts at run s is sampled without error. */
  lemma SlotSampled(segs: seq<Seg>, i0: nat, b: seq<bit>, lens: seq<nat>, s: nat, v: byte)
    requires Follows(segs, i0, b, lens) && s < |lens| && A(lens, s) + 11 <= |b|
    requires b[A(lens, s)..A(lens, s) + 11] == SlotFrame(v)
    ensures var p := St(segs, i0, |lens|, s);
            LevelAt(segs, p + 0.5) == 0 && SampledByte(segs, p) == v && LevelAt(segs, p + 9.5) == 1
  {
    var p, a := St(segs, i0, |lens|, s), A(lens, s);
    var f := b[a..a + 11];
    hide *;
    forall j | 0 <= j <= 9
      ensures LevelAt(segs, Mid(p, j)) == f[j]
    {
      SampleBit(segs, i0, b, lens, s, j);
      assert f[j] == b[a + j];
    }
    FrameSampled(segs, p, v);
  }

  lemma FrameSampled(segs: seq<Seg>, p: real, v: byte)
    requires forall j :: 0 <= j <= 9 ==> LevelAt(segs, Mid(p, j)) == SlotFrame(v)[j]
    ensures LevelAt(segs, p + 0.5) == 0 && SampledByte(segs, p) == v && LevelAt(segs, p + 9.5) == 1
  {
    hide Mid, LevelAt, LsbBits, LsbVal, Sampled, SampledByte;
    EndCentres(p);
    assert LevelAt(segs, Mid(p, 0)) == SlotFrame(v)[0] && LevelAt(segs, Mid(p, 9)) == SlotFrame(v)[9];
    forall j | 0 <= j < 8
      ensures LevelAt(segs, Mid(p, j + 1)) == LsbBits(v, 8)[j]
    {
      assert SlotFrame(v)[j + 1] == LsbBits(v, 8)[j];
    }
    SampledIs(segs, p, LsbBits(v, 8), 8);
    assert LsbBits(v, 8)[..8] == LsbBits(v, 8);
    SampledByteIs(segs, p, v);
  }

  lemma EndCentres(p: real)
    ensures Mid(p, 0) == p + 0.5 && Mid(p, 9) == p + 9.5
  {}

  lemma SampledByteIs(segs: seq<Seg>, p: real, v: byte)
    requires Sampled(segs, p, 8) == LsbVal(LsbBits(v, 8))
    ensures SampledByte(segs, p) == v
  {
    assert Pow2(8) == 256;
    LsbRound(v, 8);
  }

  lemma {:induction false} SampledIs(segs: seq<Seg>, p: real, bits: seq<bit>, k: nat)
    requires |bits| == 8 && k <= 8
    requires forall j :: 0 <= j < 8 ==> LevelAt(segs, Mid(p, j + 1)) == bits[j]
    ensures Sampled(segs, p, k) == LsbVal(bits[..k])
  {
    hide LevelAt, Mid;
    if k > 0 {
      SampledIs(segs, p, bits, k - 1);
      assert bits[..k] == bits[..k - 1] + [bits[k - 1]];
      LsbSnoc(bits[..k - 1], bits[k - 1]);
    }
  }

  /** Behind the STOP bits comes the next START, or nothing before the end of the runs. */
  lemma NextStart(segs: seq<Seg>, i0: nat, b: seq<bit>, lens: seq<nat>, s: nat) returns (s': nat)
    requires Follows(segs, i0, b, lens) && s < |lens| && A(lens, s) + 11 <= |b|
    requires b[A(lens, s) + 9] == 1 && b[A(lens, s) + 10] == 1
    requires A(lens, s) + 11 < |b| ==> b[A(lens, s) + 11] == 0
    ensures s < s' <= |lens| && A(lens, s') == A(lens, s) + 11 && (s' == |lens| <==> A(lens, s) + 11 == |b|)
    ensures var nf := NextFalling(segs, St(segs, i0, |lens|, s) + 9.5);
            if s' < |lens| then nf == Some(St(segs, i0, |lens|, s'))
            else
              && (nf.Some? ==> nf.value >= St(segs, i0, |lens|, |lens|))
              && (i0 + |lens| < |segs| && segs[i0 + |lens|].level == 0 ==> nf == Some(segs[i0 + |lens|].start))
  {
    var n, a := |lens|, A(lens, s);
    if a + 11 < |b| {
      s' := EdgeAt(b, lens, a + 11);
    } else {
      s' := n;
    }
    if s' <= s {
      ARises(lens, s', s);
    }
    ARises(lens, s, s');
    Drift(segs, i0, b, lens, s, s');
    var p := St(segs, i0, n, s) + 9.5;
    NoLow(segs, i0, b, lens, s, s', p);
    if s' < n {
      hide A;
      ARisesZero(b, lens, s', a + 11);
      FallsAt(segs, p, i0 + s');
    } else {
      NoneBefore(segs, p, i0 + n);
      if i0 + n < |segs| && segs[i0 + n].level == 0 {
        EndsLater(segs, i0, b, lens, s);
        hide A;
        StartsAt(segs, i0 + n);
        FallsAt(segs, p, i0 + n);
      }
    }
  }

  lemma StartsAt(segs: seq<Seg>, j: nat)
    requires Ordered(segs) && 0 < j < |segs|
    ensures segs[j].start == segs[j - 1].end
  {}

  lemma ARisesZero(b: seq<bit>, lens: seq<nat>, k: nat, m: nat)
    requires RunsAre(b, lens) && k < |lens| && A(lens, k) == m && m < |b| && b[m] == 0
    ensures k % 2 == 0
  {
    ARises(lens, k, k + 1);
    assert In(lens, k, m);
  }

  /** Up to run s' every LOW segment starts before the STOP bits of the slot at s. */
  lemma NoLow(segs: seq<Seg>, i0: nat, b: seq<bit>, lens: seq<nat>, s: nat, s': nat, p: real)
    requires Follows(segs, i0, b, lens) && s < s' <= |lens| && A(lens, s) + 11 == A(lens, s') <= |b|
    requires b[A(lens, s) + 9] == 1 && b[A(lens, s) + 10] == 1 && p == St(segs, i0, |lens|, s) + 9.5
    ensures forall k :: 0 <= k < i0 + s' && segs[k].level == 0 ==> segs[k].start <= p
  {
    forall k | 0 <= k < i0 + s' && segs[k].level == 0
      ensures segs[k].start <= p
    {
      if k <= i0 + s {
        StartsRise(segs, k, i0 + s);
      } else {
        var r := k - i0;
        LowEarly(b, lens, s, s', r);
        Drift(segs, i0, b, lens, s, r);
      }
    }
  }

  lemma LowEarly(b: seq<bit>, lens: seq<nat>, s: nat, s': nat, r: nat)
    requires RunsAre(b, lens) && s < r < s' <= |lens| && A(lens, s) + 11 == A(lens, s') <= |b| && r % 2 == 0
    requires b[A(lens, s) + 9] == 1 && b[A(lens, s) + 10] == 1
    ensures A(lens, r) - A(lens, s) <= 8 && r - s <= 8
  {
    ARises(lens, s, r);
    ARises(lens, r, r + 1);
    ARises(lens, r + 1, s');
    assert In(lens, r, A(lens, r));
  }

  /** If no LOW segment before j starts after p, the next falling edge is not before j's. */
  lemma NoneBefore(segs: seq<Seg>, p: real, j: nat)
    requires Ordered(segs) && 0 < j <= |segs|
    requires forall k :: 0 <= k < j && segs[k].level == 0 ==> segs[k].start <= p
    ensures var nf := NextFalling(segs, p); nf.Some? ==> nf.value >= segs[j - 1].end
  {
    BisectSplits(segs, p);
    var f := FirstLow(segs, Bisect(segs, p));
    if f < |segs| {
      assert f >= j;
      StartsRise(segs, j - 1, f);
    }
  }

  /** What the sampler makes of a region from segment j on, if that is LOW. */
  function From(segs: seq<Seg>, j: nat, pEnd: real): (seq<byte>, nat)
    requires Ordered(segs)
  {
    if j < |segs| && segs[j].level == 0 then Uart(segs, segs[j].start, pEnd) else ([], 0)
  }

  /** The region ends with the runs, or goes on with a LOW segment. */
  predicate Reaches(segs: seq<Seg>, j: nat, pEnd: real) {
    0 < j <= |segs| && pEnd >= segs[j - 1].end && (pEnd == segs[j - 1].end || (j < |segs| && segs[j].level == 0))
  }

  /** One turn of the sampler. */
  lemma OneSlot(segs: seq<Seg>, i0: nat, b: seq<bit>, lens: seq<nat>, s: nat, slots: seq<byte>, pEnd: real)
    returns (s': nat)
    requires Follows(segs, i0, b, lens) && s < |lens| && slots != [] && Reaches(segs, i0 + |lens|, pEnd)
    requires A(lens, s) <= |b| && b[A(lens, s)..] == SlotBits(slots)
    ensures s < s' <= |lens| && A(lens, s') <= |b| && b[A(lens, s')..] == SlotBits(slots[1..])
    ensures s' < |lens| <==> slots[1..] != []
    ensures var r := if s' < |lens| then Uart(segs, St(segs, i0, |lens|, s'), pEnd)
                     else From(segs, i0 + |lens|, pEnd);
            Uart(segs, St(segs, i0, |lens|, s), pEnd) == ([slots[0]] + r.0, r.1)
  {
    hide *;
    FollowsOrdered(segs, i0, b, lens);
    var p := St(segs, i0, |lens|, s);
    FrameFirst(b, A(lens, s), slots);
    SlotSampled(segs, i0, b, lens, s, slots[0]);
    s' := NextStart(segs, i0, b, lens, s);
    EndsLater(segs, i0, b, lens, s);
    ReachesEnd(segs, i0, |lens|, pEnd);
    var nf := NextFalling(segs, p + 9.5);
    UartStep(segs, p, pEnd);
    OnwardIs(segs, nf, pEnd);
    if s' == |lens| {
      FromIs(segs, i0 + |lens|, nf, pEnd);
    }
  }

  lemma ReachesEnd(segs: seq<Seg>, i0: nat, n: nat, pEnd: real)
    requires Reaches(segs, i0 + n, pEnd) && n > 0
    ensures St(segs, i0, n, n) == segs[i0 + n - 1].end <= pEnd
    ensures pEnd == St(segs, i0, n, n) || (i0 + n < |segs| && segs[i0 + n].level == 0)
  {}

  lemma FromIs(segs: seq<Seg>, j: nat, nf: Option<real>, pEnd: real)
    requires Ordered(segs) && if j < |segs| && segs[j].level == 0 then nf == Some(segs[j].start)
                              else nf.Some? ==> nf.value >= pEnd
    ensures From(segs, j, pEnd) == Onward(segs, nf, pEnd)
  {
    if !(j < |segs| && segs[j].level == 0) {
      UartOver(segs, nf, pEnd);
    }
    hide Uart;
  }

  /** The sampler reads the remaining slots, exactly and without an error, and then the rest. */
  lemma {:induction false} SlotsDecode(segs: seq<Seg>, i0: nat, b: seq<bit>, lens: seq<nat>, s: nat, slots: seq<byte>,
                                       pEnd: real)
    requires Follows(segs, i0, b, lens) && s < |lens| && slots != [] && Reaches(segs, i0 + |lens|, pEnd)
    requires A(lens, s) <= |b| && b[A(lens, s)..] == SlotBits(slots)
    ensures var r := From(segs, i0 + |lens|, pEnd); Uart(segs, St(segs, i0, |lens|, s), pEnd) == (slots + r.0, r.1)
    decreases |slots|
  {
    FollowsOrdered(segs, i0, b, lens);
    hide *;
    var s' := OneSlot(segs, i0, b, lens, s, slots, pEnd);
    var rest := From(segs, i0 + |lens|, pEnd).0;
    assert slots == [slots[0]] + slots[1..];
    AssocBytes([slots[0]], slots[1..], rest);
    if s' < |lens| {
      SlotsDecode(segs, i0, b, lens, s', slots[1..], pEnd);
    } else {
      assert slots == [slots[0]];
    }
  }

  lemma FollowsOrdered(segs: seq<Seg>, i0: nat, b: seq<bit>, lens: seq<nat>)
    requires Follows(segs, i0, b, lens)
    ensures Ordered(segs) && i0 + |lens| <= |segs|
  {}

  lemma UartOver(segs: seq<Seg>, nf: Option<real>, pEnd: real)
    requires Ordered(segs) && (nf.Some? ==> nf.value >= pEnd)
    ensures Onward(segs, nf, pEnd) == ([], 0)
  {}

  lemma FrameFirst(b: seq<bit>, a: nat, slots: seq<byte>)
    requires a <= |b| && b[a..] == SlotBits(slots) && slots != []
    ensures a + 11 <= |b| && b[a..a + 11] == SlotFrame(slots[0]) && b[a + 9] == 1 && b[a + 10] == 1
    ensures b[a + 11..] == SlotBits(slots[1..])
    ensures a + 11 < |b| ==> b[a + 11] == 0
    ensures a + 11 == |b| <==> slots[1..] == []
  {
    hide LsbBits;
    var f, rest := SlotFrame(slots[0]), SlotBits(slots[1..]);
    assert b[a..] == f + rest && b[a..a + 11] == b[a..][..11];
    assert f[9] == 1 && f[10] == 1 && b[a..a + 11][9] == b[a + 9] && b[a..a + 11][10] == b[a + 10];
    assert b[a + 11..] == b[a..][11..];
    if slots[1..] != [] {
      assert rest[0] == 0 && b[a + 11..][0] == b[a + 11];
    }
  }

  /** A slot fits before the end of the runs. */
  lemma EndsLater(segs: seq<Seg>, i0: nat, b: seq<bit>, lens: seq<nat>, s: nat)
    requires Follows(segs, i0, b, lens) && s < |lens| && A(lens, s) + 11 <= |b|
    ensures St(segs, i0, |lens|, s) + 9.5 <= St(segs, i0, |lens|, |lens|)
  {
    ARises(lens, s, |lens|);
    Drift(segs, i0, b, lens, s, |lens|);
  }
}
