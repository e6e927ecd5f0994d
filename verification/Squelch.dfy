/** The idle squelch of RleSniffer::service: from the K-th continuation byte of a run on,
    the run is an idle line, shipped as one boundary and then dropped. */
module Squelch {
  import opened Bytes
  import opened RunCodec

  /** capRun_ and capPiped_. */
  datatype Hold = Hold(run: nat, piped: bool)

  const OPEN := Hold(0, false)

  /** One byte of the RAM ring: the next state and what goes out. k = 0 passes everything. */
  function SquelchByte(k: nat, h: Hold, b: byte): (Hold, seq<byte>) {
    if b >= CAP then
      if k > 0 && h.piped then (h, [])
      else if k > 0 && h.run + 1 >= k then (Hold(h.run + 1, true), [BIN_BOUNDARY])
      else (Hold(h.run + 1, h.piped), [b])
    else (OPEN, if h.piped then [] else [b])
  }

  function Squelched(k: nat, h: Hold, s: seq<byte>): seq<byte>
    decreases |s|
  {
    if s == [] then [] else SquelchByte(k, h, s[0]).1 + Squelched(k, SquelchByte(k, h, s[0]).0, s[1..])
  }

  function HoldAfter(k: nat, h: Hold, s: seq<byte>): Hold
    decreases |s|
  {
    if s == [] then h else HoldAfter(k, SquelchByte(k, h, s[0]).0, s[1..])
  }

  lemma SquelchCons(k: nat, h: Hold, b: byte, s: seq<byte>)
    ensures Squelched(k, h, [b] + s) == SquelchByte(k, h, b).1 + Squelched(k, SquelchByte(k, h, b).0, s)
    ensures HoldAfter(k, h, [b] + s) == HoldAfter(k, SquelchByte(k, h, b).0, s)
  {
    hide SquelchByte;
    assert ([b] + s)[1..] == s;
  }

  lemma SquelchEnd(k: nat, h: Hold)
    ensures Squelched(k, h, []) == [] && HoldAfter(k, h, []) == h
  {}

  /** The drain may stop anywhere: whatever the budgets and spans, the outputs of successive
      calls add up to the output of one. */
  lemma {:induction false} SquelchSplits(k: nat, h: Hold, a: seq<byte>, b: seq<byte>)
    ensures Squelched(k, h, a + b) == Squelched(k, h, a) + Squelched(k, HoldAfter(k, h, a), b)
    ensures HoldAfter(k, h, a + b) == HoldAfter(k, HoldAfter(k, h, a), b)
    decreases |a|
  {
    hide SquelchByte, Squelched, HoldAfter;
    if a == [] {
      SquelchEnd(k, h);
      assert a + b == b && [] + Squelched(k, h, b) == Squelched(k, h, b);
    } else {
      var first, rest := a[0], a[1..];
      var h' := SquelchByte(k, h, first).0;
      SquelchSplits(k, h', rest, b);
      SquelchCons(k, h, first, rest);
      SquelchCons(k, h, first, rest + b);
      assert a == [first] + rest && a + b == [first] + (rest + b);
      AssocBytes(SquelchByte(k, h, first).1, Squelched(k, h', rest), Squelched(k, HoldAfter(k, h', rest), b));
    }
  }

  // ---- what the host reads ------------------------------------------------------------------

  /** A run of K or more continuation bytes becomes an idle mark, every shorter run itself. */
  function SquelchedRun(k: nat, r: nat): seq<nat> {
    if r / CAP < k then [r] else (if k > 1 then [CAP * (k - 1)] else []) + [BOUNDARY_RUN]
  }

  function SquelchedRuns(k: nat, runs: seq<nat>): seq<nat> {
    if runs == [] then [] else SquelchedRun(k, runs[0]) + SquelchedRuns(k, runs[1..])
  }

  /** What the host makes of the squelched bytes, with j continuation bytes already summed. */
  function HostRuns(k: nat, h: Hold, s: seq<byte>, acc: nat): seq<nat> {
    Rebuild(ItemsOf(Squelched(k, h, s)), acc)
  }

  /** Once the boundary is out, the rest of the run disappears. */
  lemma {:induction false} IdleVanishes(k: nat, run: nat, t: nat, rest: seq<byte>)
    requires k > 0
    ensures Squelched(k, Hold(run, true), RunBytes(t) + rest) == Squelched(k, OPEN, rest)
    decreases t
  {
    hide Squelched;
    if t >= CAP {
      IdleVanishes(k, run, t - CAP, rest);
      SquelchCons(k, Hold(run, true), CAP, RunBytes(t - CAP) + rest);
      assert RunBytes(t) + rest == [CAP] + (RunBytes(t - CAP) + rest);
      assert [] + Squelched(k, OPEN, rest) == Squelched(k, OPEN, rest);
    } else {
      SquelchCons(k, Hold(run, true), t, rest);
      assert [] + Squelched(k, OPEN, rest) == Squelched(k, OPEN, rest);
    }
  }

  /** One shipped byte in front of the host. */
  lemma HostCons(b: byte, later: seq<byte>, acc: nat)
    requires b <= CAP || b == BIN_BOUNDARY
    ensures Rebuild(ItemsOf([b] + later), acc) ==
            if b == BIN_BOUNDARY then (if acc > 0 then [acc] else []) + [BOUNDARY_RUN] + Rebuild(ItemsOf(later), 0)
            else if b == CAP then Rebuild(ItemsOf(later), acc + CAP)
            else [acc + b] + Rebuild(ItemsOf(later), 0)
  {
    ItemsCons(b, later);
    hide ItemsOf, Rebuild;
    RebuildCons(ItemOf(b)[0], ItemsOf(later), acc);
  }

  lemma {:induction false} HostReadsRun(k: nat, j: nat, t: nat, rest: seq<byte>)
    requires j < k
    ensures HostRuns(k, Hold(j, false), RunBytes(t) + rest, CAP * j) ==
            SquelchedRun(k, CAP * j + t) + HostRuns(k, OPEN, rest, 0)
    decreases t
  {
    hide Squelched, ItemsOf, Rebuild;
    var h := Hold(j, false);
    if t >= CAP {
      var more := RunBytes(t - CAP) + rest;
      assert RunBytes(t) + rest == [CAP] + more;
      SquelchCons(k, h, CAP, more);
      if j + 1 >= k {
        IdleVanishes(k, j + 1, t - CAP, rest);
        HostCons(BIN_BOUNDARY, Squelched(k, OPEN, rest), CAP * j);
        assert (CAP * j + t) / CAP >= k && j == k - 1;
      } else {
        HostReadsRun(k, j + 1, t - CAP, rest);
        HostCons(CAP, Squelched(k, Hold(j + 1, false), more), CAP * j);
        assert CAP * j + t == CAP * (j + 1) + (t - CAP);
      }
    } else {
      SquelchCons(k, h, t, rest);
      HostCons(t, Squelched(k, OPEN, rest), CAP * j);
      assert (CAP * j + t) / CAP == j;
    }
  }

  /** What the host reads of a run still open at the end: only its idle mark, if it got one. */
  function OpenRun(k: nat, open: nat): seq<nat> {
    if open / CAP < k then [] else SquelchedRun(k, open)
  }

  lemma {:induction false} CapsVanish(k: nat, run: nat, m: nat)
    requires k > 0
    ensures Squelched(k, Hold(run, true), Caps(m)) == []
    decreases m
  {
    if m > 0 {
      assert Caps(m)[1..] == Caps(m - 1);
      CapsVanish(k, run, m - 1);
    }
  }

  lemma {:induction false} HostReadsOpen(k: nat, j: nat, m: nat)
    requires j < k
    ensures HostRuns(k, Hold(j, false), Caps(m), CAP * j) == OpenRun(k, CAP * (j + m))
    decreases m
  {
    hide Squelched, ItemsOf, Rebuild;
    var h := Hold(j, false);
    assert CAP * (j + m) / CAP == j + m;
    if m == 0 {
      SquelchEnd(k, h);
      ItemsEnd([]);
      RebuildEnd([], CAP * j);
    } else {
      assert Caps(m) == [CAP] + Caps(m - 1);
      SquelchCons(k, h, CAP, Caps(m - 1));
      if j + 1 >= k {
        CapsVanish(k, j + 1, m - 1);
        HostCons(BIN_BOUNDARY, [], CAP * j);
        ItemsEnd([]);
        RebuildEnd([], 0);
      } else {
        HostReadsOpen(k, j + 1, m - 1);
        HostCons(CAP, Squelched(k, Hold(j + 1, false), Caps(m - 1)), CAP * j);
        assert j + m == (j + 1) + (m - 1) && CAP * j + CAP == CAP * (j + 1);
      }
    }
  }

  /** Squelch preserves meaning, for every threshold K >= 1, every list of device runs and m
      continuation bytes of a run still open. */
  lemma {:induction false} SquelchMeaning(k: nat, runs: seq<nat>, m: nat)
    requires k > 0
    ensures Rebuild(ItemsOf(Squelched(k, OPEN, RunsBytes(runs) + Caps(m))), 0) ==
            SquelchedRuns(k, runs) + OpenRun(k, CAP * m)
    decreases |runs|
  {
    hide Squelched, ItemsOf, Rebuild, RunBytes, SquelchedRun, OpenRun, Caps;
    if runs == [] {
      HostReadsOpen(k, 0, m);
      assert [] + Caps(m) == Caps(m) && [] + OpenRun(k, CAP * m) == OpenRun(k, CAP * m);
    } else {
      var rest := runs[1..];
      SquelchMeaning(k, rest, m);
      HostReadsRun(k, 0, runs[0], RunsBytes(rest) + Caps(m));
      AssocBytes(RunBytes(runs[0]), RunsBytes(rest), Caps(m));
      AssocRuns(SquelchedRun(k, runs[0]), SquelchedRuns(k, rest), OpenRun(k, CAP * m));
    }
  }

  /** What the host reads when the last of `runs` is still open. */
  function HostRunsOpen(k: nat, runs: seq<nat>): seq<nat>
    requires runs != []
  {
    SquelchedRuns(k, runs[..|runs| - 1]) + OpenRun(k, runs[|runs| - 1])
  }

  /** Runs below the threshold pass as they are. */
  lemma {:induction false} ShortRuns(k: nat, runs: seq<nat>, rest: seq<nat>)
    requires forall i :: 0 <= i < |runs| ==> runs[i] / CAP < k
    ensures SquelchedRuns(k, runs + rest) == runs + SquelchedRuns(k, rest)
    decreases |runs|
  {
    if runs == [] {
      assert runs + rest == rest;
    } else {
      ShortRuns(k, runs[1..], rest);
      assert SquelchedRun(k, runs[0]) == [runs[0]];
      hide SquelchedRun;
      assert (runs + rest)[1..] == runs[1..] + rest;
      AssocRuns([runs[0]], runs[1..], SquelchedRuns(k, rest));
    }
  }

  lemma {:induction false} SquelchedConcat(k: nat, a: seq<nat>, b: seq<nat>)
    ensures SquelchedRuns(k, a + b) == SquelchedRuns(k, a) + SquelchedRuns(k, b)
    decreases |a|
  {
    hide SquelchedRun;
    if a == [] {
      assert a + b == b;
    } else {
      SquelchedConcat(k, a[1..], b);
      assert (a + b)[1..] == a[1..] + b;
      AssocRuns(SquelchedRun(k, a[0]), SquelchedRuns(k, a[1..]), SquelchedRuns(k, b));
    }
  }

  /** An open run that has got its idle mark reads like a finished one. */
  lemma OpenIdle(k: nat, runs: seq<nat>)
    requires runs != [] && runs[|runs| - 1] / CAP >= k
    ensures HostRunsOpen(k, runs) == SquelchedRuns(k, runs)
  {
    hide SquelchedRun;
    var n := |runs| - 1;
    assert runs == runs[..n] + [runs[n]] && SquelchedRuns(k, [runs[n]]) == SquelchedRun(k, runs[n]);
    SquelchedConcat(k, runs[..n], [runs[n]]);
  }

  /** With the squelch off the host reads the device's runs themselves. */
  lemma {:induction false} RawMeaning(h: Hold, s: seq<byte>)
    requires !h.piped
    ensures Squelched(0, h, s) == s
    decreases |s|
  {
    hide Squelched;
    if s == [] {
      SquelchEnd(0, h);
    } else {
      SquelchCons(0, h, s[0], s[1..]);
      assert s == [s[0]] + s[1..];
      RawMeaning(SquelchByte(0, h, s[0]).0, s[1..]);
    }
  }
}
