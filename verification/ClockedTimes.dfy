/** What the times in a record of the clocked path mean (src/sniffer/clocked_sniffer.cpp:107-119, 199-218):
    readings of the microsecond clock at the first, the eighth and behind the last byte drained. All of it
    is about values; ClockedSniffer keeps the stamps while it runs. */
module ClockedTimes {
  import opened Bytes
  import opened Cobs
  import opened RecordFramer
  import opened HostCapture

  /** A drained byte: the sampled bit it starts with, and the clock readings around it, as far as they are
      made: when it may open a burst, when it may be the eighth, when it may fill the burst, and behind the
      last byte of its call. */
  datatype Stamp = Stamp(bit: nat, opens: uint32, eighth: uint32, fills: uint32, after: uint32)

  /** The drained bytes that a record holds, and the reading made for a record without any. */
  datatype Place = Place(from: nat, to: nat, closed: uint32)

  /** The last n drained bytes. */
  function LastPlace(total: nat, n: nat, closed: uint32): Place {
    Place(if n <= total then total - n else 0, total, closed)
  }

  /** n bytes drained by one call, the first from sampled bit `bit`, with the call's readings in order. */
  function Stamps(bit: nat, n: nat, us: nat -> uint32): (s: seq<Stamp>)
    ensures |s| == n
  {
    seq(n, i requires 0 <= i < n => Stamp(bit + 8 * i, us(3 * i), us(3 * i + 1), us(3 * i + 2), us(3 * n)))
  }

  /** Microseconds from one reading to a later one, as far as sixteen bits hold them. */
  function Elapsed(from: uint32, to: uint32): uint16 {
    var us := (to - from) % WORD32;
    if us < WORD16 then us else WORD16 - 1
  }

  /** The record's times, and how many drained bytes it holds. */
  ghost predicate Tells(r: Record, p: Place, clock: seq<Stamp>) {
    && p.from <= p.to <= |clock|
    && |r.payload| == p.to - p.from + (if ValidBits(r.flags) > 0 then 1 else 0)
    && if p.from == p.to then r.tUs == p.closed && r.onsetUs == r.durUs == 0
       else
         var first, last := clock[p.from], clock[p.to - 1];
         && r.tUs == first.opens
         && r.onsetUs == (if p.to - p.from < 8 then 0 else Elapsed(first.opens, clock[p.from + 7].eighth))
         && r.durUs == Elapsed(first.opens, if Continued(r.flags) then last.fills else last.after)
  }

  /** What has been drained, where it stands in the records sent, and the open burst: its drained bytes, its
      first sampled bit, and the times noted so far. */
  datatype Watch = Watch(clock: seq<Stamp>, placed: seq<Place>, sent: seq<Sent>, dropped: bool, exact: bool,
                         start: nat, open: bool, n: nat, t0: uint32, onset: uint16)

  /** The records hold drained bytes in order; without a drop, all of them. */
  predicate InOrder(placed: seq<Place>, dropped: bool, end: nat) {
    && (placed == [] ==> dropped || end == 0)
    && (placed != [] ==>
          && (!dropped ==> placed[0].from == 0 && placed[|placed| - 1].to == end)
          && placed[|placed| - 1].to <= end)
    && forall j :: 0 < j < |placed| ==>
         placed[j - 1].to <= placed[j].from && (!dropped ==> placed[j - 1].to == placed[j].from)
  }

  ghost predicate Filed(w: Watch) {
    && |w.placed| == |w.sent| && w.n <= |w.clock| && InOrder(w.placed, w.dropped, |w.clock| - w.n)
    && forall j :: 0 <= j < |w.sent| ==> FiledAt(w.sent[j], w.placed[j], w.clock, w.exact)
  }

  ghost predicate FiledAt(s: Sent, p: Place, clock: seq<Stamp>, exact: bool) {
    Tells(s.rec, p, clock) && (exact && p.from < p.to ==> s.start == clock[p.from].bit)
  }

  ghost predicate Opened(w: Watch) {
    && w.n <= |w.clock|
    && (w.n > 0 ==>
          var k := |w.clock| - w.n;
          && w.open && w.t0 == w.clock[k].opens
          && w.onset == (if w.n < 8 then 0 else Elapsed(w.t0, w.clock[k + 7].eighth))
          && (w.exact ==> w.start == w.clock[k].bit))
  }

  ghost predicate Keeps(w: Watch) { Filed(w) && Opened(w) && (w.open ==> w.n > 0) }

  lemma KeepsNothing(w: Watch)
    requires w.clock == [] && w.placed == [] && w.sent == [] && w.n == 0 && !w.open
    ensures Keeps(w)
  {}

  lemma KeepsLess(w: Watch, v: Watch)
    requires (v.exact ==> w.exact) && v == w.(exact := v.exact)
    ensures Keeps(w) ==> Keeps(v)
  {
    if Filed(w) {
      FiledLess(w, v);
    }
    hide Filed;
  }

  lemma FiledLess(w: Watch, v: Watch)
    requires Filed(w) && (v.exact ==> w.exact) && v == w.(exact := v.exact)
    ensures Filed(v)
  {
    hide Tells, InOrder;
  }

  /** A byte has been drained. */
  lemma KeepsByte(w: Watch, s: Stamp)
    requires Keeps(w) && (w.exact && w.n == 0 ==> w.start == s.bit)
    ensures var t0 := if w.open then w.t0 else s.opens;
            Keeps(w.(clock := w.clock + [s], open := true, n := w.n + 1, t0 := t0,
                     onset := if w.n + 1 == 8 then Elapsed(t0, s.eighth) else if w.open then w.onset else 0))
  {
    var clock := w.clock + [s];
    forall j | 0 <= j < |w.sent|
      ensures FiledAt(w.sent[j], w.placed[j], clock, w.exact)
    {
      FiledLonger(w.sent[j], w.placed[j], w.clock, s, w.exact);
    }
    hide Tells, InOrder, FiledAt;
  }

  lemma FiledLonger(x: Sent, p: Place, clock: seq<Stamp>, s: Stamp, exact: bool)
    requires FiledAt(x, p, clock, exact)
    ensures FiledAt(x, p, clock + [s], exact)
  {}

  /** The open burst has been sent. */
  lemma KeepsSent(w: Watch, rec: Record, closed: uint32, end: nat)
    requires Filed(w) && Opened(w) && Tells(rec, Place(|w.clock| - w.n, |w.clock|, closed), w.clock)
    ensures Keeps(w.(placed := w.placed + [Place(|w.clock| - w.n, |w.clock|, closed)],
                     sent := w.sent + [Sent(rec, w.start)], start := end, open := false, n := 0))
  {
    var p, x := Place(|w.clock| - w.n, |w.clock|, closed), Sent(rec, w.start);
    assert FiledAt(x, p, w.clock, w.exact);
    hide Tells, FiledAt;
  }

  /** The open burst has been dropped. */
  lemma KeepsDropped(w: Watch, end: nat, exact: bool)
    requires Filed(w) && (exact ==> w.exact)
    ensures Keeps(w.(dropped := true, exact := exact, start := end, open := false, n := 0))
  {
    hide Tells;
  }

  // ---- the bursts of the host ---------------------------------------------------------------------

  function Durations(rs: seq<Record>): nat {
    if rs == [] then 0 else Durations(rs[..|rs| - 1]) + rs[|rs| - 1].durUs
  }

  /** Records a to i - 1 stand in one chain, which no loss interrupts. */
  ghost predicate Linked(rs: seq<Record>, a: nat, i: nat) {
    && a <= i <= |rs| && (forall k :: a < k < i ==> !Overflowed(rs[k].flags))
    && (forall k :: a <= k < i - 1 ==> Continued(rs[k].flags))
    && (0 < a < i && Continued(rs[a - 1].flags) ==> Overflowed(rs[a].flags))
  }

  /** A burst is made of the records from a to b, a chain with its end. */
  ghost predicate Joins(rs: seq<Record>, a: nat, b: nat, x: Burst) {
    && a <= b < |rs| && Linked(rs, a, b + 1) && !Continued(rs[b].flags)
    && x.tUs == rs[a].tUs && x.onsetUs == rs[a].onsetUs && x.durUs == Durations(rs[a..b + 1])
  }

  /** What a chain opened by record a holds before record i. */
  ghost predicate Chains(c: Chain, rs: seq<Record>, a: nat, i: nat) {
    && Linked(rs, a, i) && (i > 0 ==> (a < i <==> Continued(rs[i - 1].flags)))
    && if a == i then c == NO_CHAIN
       else c.t0 == Some(rs[a].tUs) && c.onset == rs[a].onsetUs && c.dur == Durations(rs[a..i])
  }

  lemma ChainGrows(c: Chain, rs: seq<Record>, a: nat, i: nat) returns (a': nat)
    requires Chains(c, rs, a, i) && i < |rs|
    ensures var d := Extend(if Overflowed(rs[i].flags) then NO_CHAIN else c, rs[i]);
            && a <= a' <= i && Linked(rs, a', i + 1)
            && d.t0 == Some(rs[a'].tUs) && d.onset == rs[a'].onsetUs && d.dur == Durations(rs[a'..i + 1])
  {
    hide Overflowed, Continued, Durations;
    a' := if Overflowed(rs[i].flags) then i else a;
    DurationsSnoc(rs, a', i);
  }

  lemma DurationsSnoc(rs: seq<Record>, a: nat, i: nat)
    requires a <= i < |rs|
    ensures Durations(rs[a..i + 1]) == Durations(rs[a..i]) + rs[i].durUs && Durations(rs[a..a]) == 0
  {
    assert rs[a..i + 1][..i - a] == rs[a..i];
  }

  /** Every burst of the host is such a chain, and they come in order. */
  lemma {:induction false} BurstsJoin(c: Chain, rs: seq<Record>, a: nat, i: nat) returns (at: seq<(nat, nat)>)
    requires Chains(c, rs, a, i)
    ensures |at| == |Bursts(c, rs[i..])|
    ensures forall k :: 0 <= k < |at| ==> a <= at[k].0 && Joins(rs, at[k].0, at[k].1, Bursts(c, rs[i..])[k])
    ensures forall k :: 0 < k < |at| ==> at[k - 1].1 < at[k].0
    decreases |rs| - i
  {
    hide *;
    ChainsBound(c, rs, a, i);
    if i == |rs| {
      BurstsEnd(c, rs[i..]);
      return [];
    }
    BurstsStep(c, rs, i);
    var a' := ChainGrows(c, rs, a, i);
    var r := rs[i];
    var d := Extend(if Overflowed(r.flags) then NO_CHAIN else c, r);
    if Continued(r.flags) {
      ChainOpen(d, rs, a', i + 1);
      at := BurstsJoin(d, rs, a', i + 1);
    } else {
      ChainShut(d, rs, a', i);
      var rest := BurstsJoin(NO_CHAIN, rs, i + 1, i + 1);
      at := [(a', i)] + rest;
      JoinCons(Close(d, r), Bursts(NO_CHAIN, rs[i + 1..]), rs, a', i, rest);
    }
  }

  lemma ChainsBound(c: Chain, rs: seq<Record>, a: nat, i: nat)
    requires Chains(c, rs, a, i)
    ensures a <= i <= |rs|
  {}

  lemma ChainOpen(d: Chain, rs: seq<Record>, a: nat, i: nat)
    requires a < i && Linked(rs, a, i) && Continued(rs[i - 1].flags)
    requires d.t0 == Some(rs[a].tUs) && d.onset == rs[a].onsetUs && d.dur == Durations(rs[a..i])
    ensures Chains(d, rs, a, i)
  {
    hide Linked, Durations;
  }

  lemma ChainShut(d: Chain, rs: seq<Record>, a: nat, i: nat)
    requires a <= i < |rs| && Linked(rs, a, i + 1) && !Continued(rs[i].flags)
    requires d.t0 == Some(rs[a].tUs) && d.onset == rs[a].onsetUs && d.dur == Durations(rs[a..i + 1])
    ensures d.t0.Some? && Joins(rs, a, i, Close(d, rs[i])) && Chains(NO_CHAIN, rs, i + 1, i + 1)
  {
    CloseFields(d, rs[i]);
    hide Durations, Continued, Overflowed;
  }

  lemma JoinCons(x: Burst, xs: seq<Burst>, rs: seq<Record>, a: nat, b: nat, rest: seq<(nat, nat)>)
    requires Joins(rs, a, b, x) && |rest| == |xs|
    requires forall k :: 0 <= k < |rest| ==> b < rest[k].0 && Joins(rs, rest[k].0, rest[k].1, xs[k])
    requires forall k :: 0 < k < |rest| ==> rest[k - 1].1 < rest[k].0
    ensures var at := [(a, b)] + rest;
            && (forall k :: 0 <= k < |at| ==> a <= at[k].0 && Joins(rs, at[k].0, at[k].1, ([x] + xs)[k]))
            && (forall k :: 0 < k < |at| ==> at[k - 1].1 < at[k].0)
  {
    JoinsBound(rs, a, b, x);
    hide Joins;
  }

  lemma JoinsBound(rs: seq<Record>, a: nat, b: nat, x: Burst)
    requires Joins(rs, a, b, x)
    ensures a <= b < |rs|
  {}
}
