/** The host's Clause-22 frame hunter (frame format: IEEE 802.3 section 22.2.4.5) and
    the streaming form that carries at most 80 bits between transport bursts. */
module Clause22 {
  import opened Bytes

  const OP_READ := 2
  const OP_WRITE := 1
  const PREAMBLE := 32
  const FRAME_BITS := 32
  const CARRY_MAX := 80

  datatype Frame = Frame(op: nat, phyad: nat, regad: nat, ta: nat, data: nat, preamble: nat, noResponse: bool)

  /** A complete frame starts here: enough preamble, 32 bits at hand, ST = 01. */
  predicate FrameStarts(s: seq<bit>, ones: nat) {
    ones >= PREAMBLE && |s| >= FRAME_BITS && Val(s[0..2]) == 1
  }

  function FrameOf(s: seq<bit>, ones: nat): Frame
    requires |s| >= FRAME_BITS
  {
    var op, ta, data := Val(s[2..4]), Val(s[14..16]), Val(s[16..32]);
    Frame(op, Val(s[4..9]), Val(s[9..14]), ta, data, ones, op == OP_READ && ta == 3 && data == 0xFFFF)
  }

  /** The frames found in s by a hunter that has just counted `ones` ones. */
  function Hunt(s: seq<bit>, ones: nat): (frames: seq<Frame>)
    decreases |s|
  {
    if s == [] then []
    else if s[0] == 1 then Hunt(s[1..], ones + 1)
    else if FrameStarts(s, ones) then [FrameOf(s, ones)] + Hunt(s[FRAME_BITS..], 0)
    else Hunt(s[1..], 0)
  }

  /** The bits left behind the last frame; `kept` are those since the frame before s. */
  function Unread(s: seq<bit>, ones: nat, kept: seq<bit>): seq<bit>
    decreases |s|
  {
    if s == [] then kept
    else if s[0] == 1 then Unread(s[1..], ones + 1, kept + [1])
    else if FrameStarts(s, ones) then Unread(s[FRAME_BITS..], 0, [])
    else Unread(s[1..], 0, kept + [s[0]])
  }

  /** decode_bits: every frame of a bit list. */
  function DecodeBits(bits: seq<bit>): seq<Frame> {
    Hunt(bits, 0)
  }

  /** The scanning loop: the frames, and the offset just past the last of them. */
  method DecodeBitsPos(bits: seq<bit>) returns (frames: seq<Frame>, end: nat)
    ensures frames == DecodeBits(bits)
    ensures end <= |bits| && bits[end..] == Unread(bits, 0, [])
  {
    hide Hunt, Unread, FrameStarts, FrameOf, Val;
    var n := |bits|;
    var i, ones := 0, 0;
    frames, end := [], 0;
    assert bits[0..] == bits && bits[0..0] == [];
    while i < n
      invariant end <= i <= n
      invariant frames + Hunt(bits[i..], ones) == Hunt(bits, 0)
      invariant Unread(bits[i..], ones, bits[end..i]) == Unread(bits, 0, [])
    {
      HuntStep(bits, i, ones, bits[end..i]);
      if bits[i] == 1 {
        ones := ones + 1;
        i := i + 1;
        assert bits[end..i] == bits[end..i - 1] + [1];
      } else {
        var framed := ones >= PREAMBLE && i + FRAME_BITS <= n && Val(bits[i..i + 2]) == 1;
        if framed {
          var op, ta, data := Val(bits[i + 2..i + 4]), Val(bits[i + 14..i + 16]), Val(bits[i + 16..i + 32]);
          var f := Frame(op, Val(bits[i + 4..i + 9]), Val(bits[i + 9..i + 14]), ta, data, ones,
                         op == OP_READ && ta == 3 && data == 0xFFFF);
          frames := frames + [f];
          i := i + FRAME_BITS;
          end := i;
          assert bits[end..i] == [];
        } else {
          i := i + 1;
          assert bits[end..i] == bits[end..i - 1] + [bits[i - 1]];
        }
        ones := 0;
      }
    }
    HuntEnd(bits[i..], ones, bits[end..i]);
  }

  lemma HuntEnd(s: seq<bit>, ones: nat, kept: seq<bit>)
    requires s == []
    ensures Hunt(s, ones) == [] && Unread(s, ones, kept) == kept
  {}

  /** One turn of the loop at index i. */
  lemma HuntStep(bits: seq<bit>, i: nat, ones: nat, kept: seq<bit>)
    requires i < |bits|
    ensures var s := bits[i..];
            var framed := ones >= PREAMBLE && i + FRAME_BITS <= |bits| && Val(bits[i..i + 2]) == 1;
            if s[0] == 1 then
              Hunt(s, ones) == Hunt(bits[i + 1..], ones + 1)
              && Unread(s, ones, kept) == Unread(bits[i + 1..], ones + 1, kept + [1])
            else if framed then
              var op, ta, data := Val(bits[i + 2..i + 4]), Val(bits[i + 14..i + 16]), Val(bits[i + 16..i + 32]);
              Hunt(s, ones) ==
              [Frame(op, Val(bits[i + 4..i + 9]), Val(bits[i + 9..i + 14]), ta, data, ones,
                     op == OP_READ && ta == 3 && data == 0xFFFF)] + Hunt(bits[i + FRAME_BITS..], 0)
              && Unread(s, ones, kept) == Unread(bits[i + FRAME_BITS..], 0, [])
            else
              Hunt(s, ones) == Hunt(bits[i + 1..], 0)
              && Unread(s, ones, kept) == Unread(bits[i + 1..], 0, kept + [s[0]])
  {
    hide Val;
    var s := bits[i..];
    assert s[1..] == bits[i + 1..];
    if i + FRAME_BITS <= |bits| {
      assert s[0..2] == bits[i..i + 2] && s[2..4] == bits[i + 2..i + 4] && s[4..9] == bits[i + 4..i + 9];
      assert s[9..14] == bits[i + 9..i + 14] && s[14..16] == bits[i + 14..i + 16] && s[16..32] == bits[i + 16..i + 32];
      assert s[FRAME_BITS..] == bits[i + FRAME_BITS..];
    }
  }

  /** The class BitStream: frames are hunted in the carry followed by the new bits. */
  class BitStream {
    var carry: seq<bit>
    ghost var fed: seq<bit>       // every bit fed since the last reset
    ghost var emitted: seq<Frame> // every frame yielded since the last reset

    ghost predicate Valid()
      reads this
    {
      Tracks(fed, emitted, carry) && carry == Last(Unread(fed, 0, []), CARRY_MAX)
    }

    constructor ()
      ensures Valid() && fed == [] && emitted == [] && carry == []
    {
      carry, fed, emitted := [], [], [];
      new;
      TracksNothing();
    }

    method Reset()
      modifies this
      ensures Valid() && fed == [] && emitted == [] && carry == []
    {
      carry, fed, emitted := [], [], [];
      TracksNothing();
    }

    method Feed(bits: seq<bit>) returns (frames: seq<Frame>)
      requires Valid()
      modifies this
      ensures Valid()
      ensures fed == old(fed) + bits && emitted == old(emitted) + frames
      ensures frames == StreamStep(old(fed), bits)
    {
      hide Tracks, Hunt, Unread;
      var buf := carry + bits;
      var end;
      frames, end := DecodeBitsPos(buf);
      TracksFeed(fed, emitted, carry, bits);
      CarryIs(fed, bits);
      var tail := buf[end..];
      carry := Last(tail, CARRY_MAX);
      fed, emitted := fed + bits, emitted + frames;
    }
  }

  /** The last n elements, or all of a shorter string. */
  function Last(s: seq<bit>, n: nat): (r: seq<bit>)
    ensures |r| <= n
  {
    if |s| <= n then s else s[|s| - n..]
  }

  /** Two hunters report the same frame; the later one may have missed early preamble bits. */
  ghost predicate SameFrame(f: Frame, g: Frame) {
    g == f.(preamble := g.preamble) && PREAMBLE <= g.preamble <= f.preamble
  }

  ghost predicate SameFrames(fs: seq<Frame>, gs: seq<Frame>) {
    |fs| == |gs| && forall i :: 0 <= i < |fs| ==> SameFrame(fs[i], gs[i])
  }

  /** What the carry is good for: whatever follows, hunting in the carry goes on exactly
      where hunting in everything fed would. */
  ghost predicate Tracks(fed: seq<bit>, emitted: seq<Frame>, carry: seq<bit>) {
    && |carry| <= CARRY_MAX
    && Hunt(carry, 0) == []
    && forall more: seq<bit> :: SameFrames(Hunt(fed + more, 0), emitted + Hunt(carry + more, 0))
  }

  /** The frames streamed so far are the frames of everything fed so far, for any chunking. */
  lemma StreamedIsBatch(fed: seq<bit>, emitted: seq<Frame>, carry: seq<bit>)
    requires Tracks(fed, emitted, carry)
    ensures SameFrames(DecodeBits(fed), emitted)
  {
    hide Hunt, SameFrames;
    assert fed + [] == fed && carry + [] == carry;
    assert emitted + [] == emitted;
    var more: seq<bit> := [];
    assert SameFrames(Hunt(fed + more, 0), emitted + Hunt(carry + more, 0));
  }

  lemma TracksNothing()
    ensures Tracks([], [], [])
  {
    forall more: seq<bit>
      ensures SameFrames(Hunt([] + more, 0), [] + Hunt([] + more, 0))
    {
      SameAsItself(more, 0);
      assert [] + Hunt([] + more, 0) == Hunt([] + more, 0) && [] + more == more;
    }
  }

  lemma {:induction false} SameAsItself(s: seq<bit>, ones: nat)
    ensures SameFrames(Hunt(s, ones), Hunt(s, ones))
    decreases |s|
  {
    if s != [] {
      if s[0] == 1 {
        SameAsItself(s[1..], ones + 1);
      } else if FrameStarts(s, ones) {
        SameAsItself(s[FRAME_BITS..], 0);
      } else {
        SameAsItself(s[1..], 0);
      }
    }
  }

  /** Fewer than 32 bits hold no complete frame. */
  lemma {:induction false} Short(s: seq<bit>, ones: nat, kept: seq<bit>)
    requires |s| < FRAME_BITS
    ensures Hunt(s, ones) == [] && Unread(s, ones, kept) == kept + s
    decreases |s|
  {
    if s == [] {
      assert kept + s == kept;
    } else {
      Short(s[1..], if s[0] == 1 then ones + 1 else 0, kept + [s[0]]);
      assert kept + s == kept + [s[0]] + s[1..];
    }
  }

  /** More bits behind a place with a full frame at hand do not change what it decides. */
  lemma HuntAppend(s: seq<bit>, ones: nat, more: seq<bit>)
    requires |s| >= FRAME_BITS
    ensures var t := s + more;
            if s[0] == 1 then Hunt(t, ones) == Hunt(s[1..] + more, ones + 1)
            else if FrameStarts(s, ones) then Hunt(t, ones) == [FrameOf(s, ones)] + Hunt(s[FRAME_BITS..] + more, 0)
            else Hunt(t, ones) == Hunt(s[1..] + more, 0)
  {
    hide Val;
    var t := s + more;
    assert t[1..] == s[1..] + more && t[FRAME_BITS..] == s[FRAME_BITS..] + more;
    assert t[0..2] == s[0..2] && t[2..4] == s[2..4] && t[4..9] == s[4..9];
    assert t[9..14] == s[9..14] && t[14..16] == s[14..16] && t[16..32] == s[16..32];
  }

  /** The hunter may be stopped anywhere and resumed on its unread tail. */
  lemma {:induction false} Resume(kept: seq<bit>, s: seq<bit>, ones: nat, more: seq<bit>)
    requires Hunt(kept + s + more, 0) == Hunt(s + more, ones)
    ensures Hunt(s + more, ones) == Hunt(s, ones) + Hunt(Unread(s, ones, kept) + more, 0)
    decreases |s|
  {
    if |s| < FRAME_BITS {
      Short(s, ones, kept);
      hide Hunt;
      assert [] + Hunt(kept + s + more, 0) == Hunt(kept + s + more, 0);
    } else {
      HuntAppend(s, ones, more);
      HuntAppend(s, ones, []);
      assert s + [] == s;
      UnreadStep(s, ones, kept);
      ResumeStep(kept, s, more);
      hide Hunt, Unread, FrameStarts;
      if s[0] == 1 {
        Resume(kept + [s[0]], s[1..], ones + 1, more);
        assert s[1..] + [] == s[1..];
      } else if FrameStarts(s, ones) {
        var r := s[FRAME_BITS..];
        assert [] + r + more == r + more;
        Resume([], r, 0, more);
        assert r + [] == r;
        Assoc([FrameOf(s, ones)], Hunt(r, 0), Hunt(Unread(r, 0, []) + more, 0));
      } else {
        Resume(kept + [s[0]], s[1..], 0, more);
        assert s[1..] + [] == s[1..];
      }
    }
  }

  lemma UnreadStep(s: seq<bit>, ones: nat, kept: seq<bit>)
    requires s != []
    ensures Unread(s, ones, kept) ==
            if s[0] == 1 then Unread(s[1..], ones + 1, kept + [s[0]])
            else if FrameStarts(s, ones) then Unread(s[FRAME_BITS..], 0, [])
            else Unread(s[1..], 0, kept + [s[0]])
  {}

  lemma ResumeStep(kept: seq<bit>, s: seq<bit>, more: seq<bit>)
    requires s != []
    ensures kept + [s[0]] + s[1..] + more == kept + s + more
  {}

  lemma Assoc(a: seq<Frame>, b: seq<Frame>, c: seq<Frame>)
    ensures a + (b + c) == (a + b) + c
  {}

  /** The unread tail holds no complete frame. */
  lemma UnreadIsFrameless(s: seq<bit>)
    ensures Hunt(Unread(s, 0, []), 0) == []
  {
    assert [] + s + [] == s + [] == s;
    Resume([], s, 0, []);
    hide Hunt, Unread;
    assert Unread(s, 0, []) + [] == Unread(s, 0, []);
  }

  /** From 32 counted ones on, the exact count no longer decides anything. */
  lemma {:induction false} ManyOnes(s: seq<bit>, k: nat, m: nat)
    requires PREAMBLE <= m <= k
    ensures SameFrames(Hunt(s, k), Hunt(s, m))
    decreases |s|
  {
    if s != [] {
      if s[0] == 1 {
        ManyOnes(s[1..], k + 1, m + 1);
      } else if FrameStarts(s, k) {
        SameAsItself(s[FRAME_BITS..], 0);
      } else {
        SameAsItself(s[1..], 0);
      }
    }
  }

  /** Forgetting ones counted before a window loses no frame, when the window with what
      is left of it spans 64 bits. */
  lemma {:induction false} Forget(w: seq<bit>, k: nat, m: nat, more: seq<bit>)
    requires m <= k && |w| + m >= 2 * FRAME_BITS && Hunt(w, k) == []
    ensures SameFrames(Hunt(w + more, k), Hunt(w + more, m)) && Hunt(w, m) == []
    decreases |w|
  {
    if m >= PREAMBLE {
      ManyOnes(w + more, k, m);
      ManyOnes(w, k, m);
    } else {
      assert w + [] == w && |w| > FRAME_BITS;
      HuntAppend(w, k, []);
      HuntAppend(w, m, []);
      HuntAppend(w, k, more);
      HuntAppend(w, m, more);
      hide Hunt;
      assert w[1..] + [] == w[1..];
      if w[0] == 1 {
        Forget(w[1..], k + 1, m + 1, more);
      } else {
        SameAsItself(w[1..] + more, 0);
      }
    }
  }

  /** 80 bits of carry are enough. */
  lemma Truncate(u: seq<bit>, more: seq<bit>)
    requires Hunt(u, 0) == []
    ensures var v := Last(u, CARRY_MAX);
            SameFrames(Hunt(u + more, 0), Hunt(v + more, 0)) && Hunt(v, 0) == []
  {
    if |u| <= CARRY_MAX {
      SameAsItself(u + more, 0);
    } else {
      var c := |u| - CARRY_MAX;
      var k := SkipUnread(u, 0, c, [], more);
      Forget(u[c..], k, 0, more);
    }
  }

  lemma SameTrans(f: seq<Frame>, g: seq<Frame>, h: seq<Frame>)
    requires SameFrames(f, g) && SameFrames(g, h)
    ensures SameFrames(f, h)
  {}

  lemma SameConcat(e: seq<Frame>, g: seq<Frame>, h: seq<Frame>)
    requires SameFrames(g, h) && SameFrames(e, e)
    ensures SameFrames(e + g, e + h)
  {}

  /** Feeding one chunk keeps the carry good. */
  lemma TracksFeed(fed: seq<bit>, emitted: seq<Frame>, carry: seq<bit>, bits: seq<bit>)
    requires Tracks(fed, emitted, carry)
    ensures var buf := carry + bits;
            Tracks(fed + bits, emitted + Hunt(buf, 0), Last(Unread(buf, 0, []), CARRY_MAX))
  {
    hide Hunt, Unread, SameFrames;
    var buf := carry + bits;
    var u := Unread(buf, 0, []);
    var v := Last(u, CARRY_MAX);
    UnreadIsFrameless(buf);
    Truncate(u, []);
    forall more: seq<bit>
      ensures SameFrames(Hunt(fed + bits + more, 0), emitted + Hunt(buf, 0) + Hunt(v + more, 0))
    {
      assert fed + bits + more == fed + (bits + more) && carry + (bits + more) == buf + more;
      assert SameFrames(Hunt(fed + (bits + more), 0), emitted + Hunt(carry + (bits + more), 0));
      assert [] + buf + more == buf + more;
      Resume([], buf, 0, more);
      Truncate(u, more);
      Assoc(emitted, Hunt(buf, 0), Hunt(u + more, 0));
      TracksTail(fed, emitted, carry, bits);
      SameConcat(emitted + Hunt(buf, 0), Hunt(u + more, 0), Hunt(v + more, 0));
      SameTrans(Hunt(fed + bits + more, 0), emitted + Hunt(buf, 0) + Hunt(u + more, 0),
                emitted + Hunt(buf, 0) + Hunt(v + more, 0));
    }
  }

  /** Every frame emitted so far has its 32 preamble bits. */
  lemma TracksTail(fed: seq<bit>, emitted: seq<Frame>, carry: seq<bit>, bits: seq<bit>)
    requires Tracks(fed, emitted, carry)
    ensures var e := emitted + Hunt(carry + bits, 0); SameFrames(e, e)
  {
    hide Hunt;
    assert SameFrames(Hunt(fed + bits, 0), emitted + Hunt(carry + bits, 0));
  }

  // ---- how exact the streamed frames are ------------------------------------------------------------

  function Ones(n: nat): (s: seq<bit>)
    ensures |s| == n
  {
    seq(n, _ => 1)
  }

  lemma {:induction false} HuntPreamble(n: nat, s: seq<bit>, ones: nat)
    ensures Hunt(Ones(n) + s, ones) == Hunt(s, ones + n)
  {
    if n == 0 {
      assert Ones(0) + s == s;
    } else {
      HuntPreamble(n - 1, s, ones + 1);
      assert (Ones(n) + s)[1..] == Ones(n - 1) + s;
    }
  }

  lemma HuntFrame(bits: seq<bit>, ones: nat, rest: seq<bit>)
    requires |bits| == FRAME_BITS && Val(bits[0..2]) == 1 && ones >= PREAMBLE
    ensures Hunt(bits + rest, ones) == [FrameOf(bits, ones)] + Hunt(rest, 0)
  {
    StartIsZero(bits);
    hide Val;
    HuntAppend(bits, ones, rest);
    assert bits[FRAME_BITS..] + rest == rest;
  }

  lemma StartIsZero(bits: seq<bit>)
    requires |bits| >= 2 && Val(bits[0..2]) == 1
    ensures bits[0] == 0
  {
    assert bits[0..2][..1] == [bits[0]];
    assert Val([bits[0]]) == bits[0];
  }

  /** What Feed yields for a chunk when `fed` has been fed before. */
  function StreamStep(fed: seq<bit>, bits: seq<bit>): seq<Frame> {
    Hunt(Last(Unread(fed, 0, []), CARRY_MAX) + bits, 0)
  }

  function Streamed(fed: seq<bit>, chunks: seq<seq<bit>>): seq<Frame>
    decreases |chunks|
  {
    if chunks == [] then [] else StreamStep(fed, chunks[0]) + Streamed(fed + chunks[0], chunks[1..])
  }

  function Chained(chunks: seq<seq<bit>>): seq<bit> {
    if chunks == [] then [] else chunks[0] + Chained(chunks[1..])
  }

  /** A frame opens from the ones that s begins with. */
  predicate Opens(s: seq<bit>, ones: nat)
    decreases |s|
  {
    s != [] && if s[0] == 1 then Opens(s[1..], ones + 1) else FrameStarts(s, ones)
  }

  /** The preamble of the chunk's first frame, when it begins in the unread bits u, begins in
      the part of them that is carried. */
  predicate Inside(u: seq<bit>, bits: seq<bit>) {
    |u| <= CARRY_MAX || u[|u| - CARRY_MAX - 1] == 0 || !Opens(Last(u, CARRY_MAX) + bits, 0)
  }

  predicate AllInside(fed: seq<bit>, chunks: seq<seq<bit>>)
    decreases |chunks|
  {
    chunks == [] || (Inside(Unread(fed, 0, []), chunks[0]) && AllInside(fed + chunks[0], chunks[1..]))
  }

  /** Where a frame ends does not depend on what was kept before it. */
  lemma {:induction false} UnreadKept(s: seq<bit>, ones: nat, kept: seq<bit>)
    ensures Unread(s, ones, kept) == if Hunt(s, ones) == [] then kept + s else Unread(s, ones, [])
    decreases |s|
  {
    if s == [] {
      assert kept + s == kept;
    } else if s[0] == 1 || !FrameStarts(s, ones) {
      var n := if s[0] == 1 then ones + 1 else 0;
      UnreadKept(s[1..], n, kept + [s[0]]);
      UnreadKept(s[1..], n, [] + [s[0]]);
      assert kept + [s[0]] + s[1..] == kept + s;
    }
  }

  lemma {:induction false} UnreadAppend(s: seq<bit>, ones: nat, kept: seq<bit>, more: seq<bit>)
    requires |s| >= FRAME_BITS
    ensures var t := s + more;
            if s[0] == 1 then Unread(t, ones, kept) == Unread(s[1..] + more, ones + 1, kept + [s[0]])
            else if FrameStarts(s, ones) then Unread(t, ones, kept) == Unread(s[FRAME_BITS..] + more, 0, [])
            else Unread(t, ones, kept) == Unread(s[1..] + more, 0, kept + [s[0]])
  {
    hide Val;
    var t := s + more;
    assert t[1..] == s[1..] + more && t[FRAME_BITS..] == s[FRAME_BITS..] + more && t[0..2] == s[0..2];
  }

  /** Resume, for the unread tail. */
  lemma {:induction false} ResumeUnread(kept: seq<bit>, s: seq<bit>, ones: nat, more: seq<bit>)
    requires Unread(kept + s + more, 0, []) == Unread(s + more, ones, kept)
    ensures Unread(s + more, ones, kept) == Unread(Unread(s, ones, kept) + more, 0, [])
    decreases |s|
  {
    if |s| < FRAME_BITS {
      Short(s, ones, kept);
    } else {
      UnreadAppend(s, ones, kept, more);
      UnreadAppend(s, ones, kept, []);
      assert s + [] == s && s[1..] + [] == s[1..] && s[FRAME_BITS..] + [] == s[FRAME_BITS..];
      ResumeStep(kept, s, more);
      hide Unread, FrameStarts;
      if s[0] == 1 {
        ResumeUnread(kept + [s[0]], s[1..], ones + 1, more);
      } else if FrameStarts(s, ones) {
        var r := s[FRAME_BITS..];
        assert [] + r + more == r + more;
        ResumeUnread([], r, 0, more);
      } else {
        ResumeUnread(kept + [s[0]], s[1..], 0, more);
      }
    }
  }

  /** Running on over a cut, exactly: the count there is the run of ones in front of it. */
  lemma {:induction false} SkipUnread(u: seq<bit>, ones: nat, c: nat, kept: seq<bit>, more: seq<bit>) returns (k: nat)
    requires Hunt(u, ones) == [] && c + FRAME_BITS <= |u|
    ensures Hunt(u + more, ones) == Hunt(u[c..] + more, k) && Hunt(u[c..], k) == []
    ensures Unread(u + more, ones, kept) == Unread(u[c..] + more, k, kept + u[..c])
    ensures if c == 0 then k == ones else k > 0 <==> u[c - 1] == 1
    decreases c
  {
    if c == 0 {
      k := ones;
      assert u[0..] == u && kept + u[..0] == kept;
    } else {
      assert u + [] == u;
      HuntAppend(u, ones, []);
      HuntAppend(u, ones, more);
      UnreadAppend(u, ones, kept, more);
      hide Hunt, Unread;
      assert u[1..] + [] == u[1..] && u[1..][c - 1..] == u[c..];
      assert kept + [u[0]] + u[1..][..c - 1] == kept + u[..c];
      k := SkipUnread(u[1..], if u[0] == 1 then ones + 1 else 0, c - 1, kept + [u[0]], more);
    }
  }

  /** From 32 ones on the count shows in the frame it opens, and nowhere else. */
  lemma {:induction false} ManyOnesExact(s: seq<bit>, k: nat, m: nat, kept: seq<bit>)
    requires PREAMBLE <= m < k
    ensures Hunt(s, k) == Hunt(s, m) <==> !Opens(s, m)
    ensures Unread(s, k, kept) == Unread(s, m, kept)
    decreases |s|
  {
    if s != [] {
      if s[0] == 1 {
        ManyOnesExact(s[1..], k + 1, m + 1, kept + [1]);
      } else if FrameStarts(s, k) {
        assert Hunt(s, k)[0].preamble == k && Hunt(s, m)[0].preamble == m;
      }
    }
  }

  lemma {:induction false} ForgetExact(w: seq<bit>, k: nat, m: nat, kept: seq<bit>, more: seq<bit>)
    requires m < k && |w| + m >= 2 * FRAME_BITS && Hunt(w, k) == []
    ensures Hunt(w + more, k) == Hunt(w + more, m) <==> !Opens(w + more, m)
    ensures Unread(w + more, k, kept) == Unread(w + more, m, kept)
    decreases |w|
  {
    if m >= PREAMBLE {
      ManyOnesExact(w + more, k, m, kept);
    } else {
      assert w + [] == w && |w| > FRAME_BITS;
      HuntAppend(w, k, []);
      HuntAppend(w, k, more);
      HuntAppend(w, m, more);
      UnreadAppend(w, k, kept, more);
      UnreadAppend(w, m, kept, more);
      OpensAppend(w, m, more);
      hide Hunt, Unread, Opens;
      assert w[1..] + [] == w[1..];
      if w[0] == 1 {
        ForgetExact(w[1..], k + 1, m + 1, kept + [w[0]], more);
      }
    }
  }

  lemma OpensAppend(w: seq<bit>, m: nat, more: seq<bit>)
    requires |w| >= FRAME_BITS
    ensures Opens(w + more, m) == if w[0] == 1 then Opens(w[1..] + more, m + 1) else FrameStarts(w, m)
  {
    hide Val;
    var t := w + more;
    assert t[1..] == w[1..] + more && t[0..2] == w[0..2];
  }

  /** One chunk: the carry gives the frames of all unread bits exactly when the preamble is
      inside, and the next carry is the same in any case. */
  lemma CutIsExact(u: seq<bit>, bits: seq<bit>)
    requires Hunt(u, 0) == []
    ensures var v := Last(u, CARRY_MAX);
            && (Hunt(v + bits, 0) == Hunt(u + bits, 0) <==> Inside(u, bits))
            && Last(Unread(v + bits, 0, []), CARRY_MAX) == Last(Unread(u + bits, 0, []), CARRY_MAX)
  {
    hide *;
    InsideIs(u, bits);
    if |u| > CARRY_MAX {
      var c := |u| - CARRY_MAX;
      var v := u[c..];
      LastIs(u);
      var k := SkipUnread(u, 0, c, [], bits);
      assert [] + u[..c] == u[..c] && u[..c] + (v + bits) == u + bits && [] + (v + bits) == v + bits;
      if k > 0 {
        ForgetExact(v, k, 0, u[..c], bits);
      }
      UnreadKept(v + bits, 0, u[..c]);
      UnreadKept(v + bits, 0, []);
      LastSame(u, bits);
    }
  }

  lemma InsideIs(u: seq<bit>, bits: seq<bit>)
    ensures Inside(u, bits) <==>
              |u| <= CARRY_MAX || u[|u| - CARRY_MAX - 1] == 0 || !Opens(Last(u, CARRY_MAX) + bits, 0)
    ensures |u| <= CARRY_MAX ==> Last(u, CARRY_MAX) == u
    ensures CARRY_MAX == 80 && FRAME_BITS == 32
  {
    hide Opens;
  }

  lemma LastIs(u: seq<bit>)
    requires |u| > CARRY_MAX
    ensures Last(u, CARRY_MAX) == u[|u| - CARRY_MAX..]
  {}

  lemma LastSame(u: seq<bit>, bits: seq<bit>)
    requires |u| > CARRY_MAX
    ensures Last(u[|u| - CARRY_MAX..] + bits, CARRY_MAX) == Last(u + bits, CARRY_MAX)
  {}

  lemma WholeResume(fed: seq<bit>, bits: seq<bit>)
    ensures DecodeBits(fed + bits) == DecodeBits(fed) + Hunt(Unread(fed, 0, []) + bits, 0)
    ensures Unread(fed + bits, 0, []) == Unread(Unread(fed, 0, []) + bits, 0, [])
  {
    assert [] + fed + bits == fed + bits;
    Resume([], fed, 0, bits);
    ResumeUnread([], fed, 0, bits);
  }

  /** The carry is the end of what batch decoding leaves unread. */
  lemma CarryIs(fed: seq<bit>, bits: seq<bit>)
    ensures Last(Unread(Last(Unread(fed, 0, []), CARRY_MAX) + bits, 0, []), CARRY_MAX) ==
            Last(Unread(fed + bits, 0, []), CARRY_MAX)
  {
    hide Hunt, Unread, Last;
    UnreadIsFrameless(fed);
    CutIsExact(Unread(fed, 0, []), bits);
    WholeResume(fed, bits);
  }

  /** The streamed frames are the batch frames, preamble counts included, exactly when every
      preamble is inside the carry at each chunk end behind its start. */
  lemma {:induction false} StreamedExactly(fed: seq<bit>, chunks: seq<seq<bit>>)
    ensures DecodeBits(fed + Chained(chunks)) == DecodeBits(fed) + Streamed(fed, chunks) <==> AllInside(fed, chunks)
    decreases |chunks|
  {
    hide Hunt, Unread, Last, Inside;
    if chunks == [] {
      assert fed + Chained(chunks) == fed && DecodeBits(fed) + [] == DecodeBits(fed);
    } else {
      var bits, rest := chunks[0], chunks[1..];
      var u := Unread(fed, 0, []);
      assert fed + Chained(chunks) == (fed + bits) + Chained(rest);
      StreamedExactly(fed + bits, rest);
      WholeResume(fed, bits);
      WholeResume(fed + bits, Chained(rest));
      UnreadIsFrameless(fed);
      CutIsExact(u, bits);
      Truncate(u, bits);
      SplitEqual(DecodeBits(fed), Hunt(u + bits, 0), StreamStep(fed, bits),
                 Hunt(Unread(fed + bits, 0, []) + Chained(rest), 0), Streamed(fed + bits, rest));
    }
  }

  lemma SplitEqual(a: seq<Frame>, b: seq<Frame>, b': seq<Frame>, c: seq<Frame>, c': seq<Frame>)
    requires |b| == |b'|
    ensures a + b + c == a + (b' + c') <==> b == b' && a + b + c == a + b + c'
  {
    if a + b + c == a + (b' + c') {
      var all := a + (b' + c');
      assert b == all[|a|..|a| + |b|] == b' && c == all[|a| + |b|..] == c';
    }
    if a + b + c == a + b + c' {
      assert c == (a + b + c)[|a| + |b|..] == (a + b + c')[|a| + |b|..] == c';
      assert a + b + c == a + (b + c);
    }
  }

  lemma {:induction false} OnlyOnes(n: nat, ones: nat, kept: seq<bit>)
    ensures Unread(Ones(n), ones, kept) == kept + Ones(n)
    decreases n
  {
    if n == 0 {
      assert kept + Ones(n) == kept;
    } else {
      assert Ones(n)[1..] == Ones(n - 1);
      OnlyOnes(n - 1, ones + 1, kept + [1]);
      assert kept + [1] + Ones(n - 1) == kept + Ones(n);
    }
  }

  /** It does happen: a chunk of 100 ones, then a frame. */
  lemma ShorterPreamble(f: seq<bit>)
    requires |f| == FRAME_BITS && Val(f[0..2]) == 1
    ensures DecodeBits(Chained([Ones(100), f])) == [FrameOf(f, 100)]
    ensures Streamed([], [Ones(100), f]) == [FrameOf(f, 80)]
  {
    hide Hunt, Unread, Val, FrameOf, Ones;
    OnlyOnes(100, 0, []);
    HuntOnes(100, f);
    HuntOnes(80, f);
    FedOnes();
    var chunks := [Ones(100), f];
    assert chunks[1..] == [f] && [f][1..] == [];
    assert Chained([f]) == f + [] == f;
    assert Chained(chunks) == Ones(100) + f;
    assert Streamed(Ones(100) + f, []) == [];
    assert Streamed(Ones(100), [f]) == StreamStep(Ones(100), f) + [];
    assert [] + Ones(100) == Ones(100);
    assert Streamed([], chunks) == StreamStep([], Ones(100)) + Streamed(Ones(100), [f]);
  }

  lemma FedOnes()
    ensures Last(Ones(100), CARRY_MAX) == Ones(80) && StreamStep([], Ones(100)) == []
  {
    hide Hunt;
    assert Last(Unread([], 0, []), CARRY_MAX) + Ones(100) == Ones(100);
    HuntPreamble(100, [], 0);
    assert Ones(100) + [] == Ones(100);
    HuntEnd([], 100, []);
  }

  lemma HuntOnes(n: nat, f: seq<bit>)
    requires |f| == FRAME_BITS && Val(f[0..2]) == 1 && n >= PREAMBLE
    ensures Hunt(Ones(n) + f, 0) == [FrameOf(f, n)]
  {
    hide Hunt, Val, FrameOf, Ones;
    HuntPreamble(n, f, 0);
    HuntFrame(f, n, []);
    HuntEnd([], 0, []);
    assert f + [] == f && [FrameOf(f, n)] + [] == [FrameOf(f, n)];
  }

  // ---- one frame, bit by bit --------------------------------------------------------------------

  function Two(a: nat, b: nat): nat { 2 * a + b }

  function Five(a: nat, b: nat, c: nat, d: nat, e: nat): nat { 16 * a + 8 * b + 4 * c + 2 * d + e }

  /** The frame names these 32 bits. */
  ghost predicate Reads(r: Frame, f: seq<bit>)
    requires |f| == 32
  {
    && r.op == Two(f[2], f[3]) && r.ta == Two(f[14], f[15]) && r.data == Val(f[16..])
    && r.phyad == Five(f[4], f[5], f[6], f[7], f[8]) && r.regad == Five(f[9], f[10], f[11], f[12], f[13])
    && (r.noResponse <==> f[2] == 1 && f[3] == 0 && f[14..] == Ones(18))
  }

  /** Behind n ones a zero and 31 more bits are a frame exactly if n is at least 32 and a one comes next. */
  lemma FrameBitByBit(n: nat, f: seq<bit>)
    requires |f| == 32 && f[0] == 0
    ensures DecodeBits(Ones(n) + f) != [] <==> n >= 32 && f[1] == 1
    ensures |DecodeBits(Ones(n) + f)| <= 1
    ensures forall r :: r in DecodeBits(Ones(n) + f) ==> r.preamble == n && Reads(r, f)
  {
    HuntPreamble(n, f, 0);
    HuntZero(f, n);
    Starts(f);
    FieldsRead(f, n);
    hide Val, Hunt, Ones, FrameOf, Reads;
  }

  lemma Starts(f: seq<bit>)
    requires |f| == 32 && f[0] == 0
    ensures Val(f[0..2]) == 1 <==> f[1] == 1
  {
    Val2(f[0..2]);
  }

  lemma FieldsRead(f: seq<bit>, n: nat)
    requires |f| == 32
    ensures FrameOf(f, n).preamble == n && Reads(FrameOf(f, n), f)
  {
    Val2(f[2..4]);
    Val2(f[14..16]);
    Val5(f[4..9]);
    Val5(f[9..14]);
    AllOnes(f[16..32]);
    Powers();
    assert f[16..] == f[16..32];
    TailOnes(f[14..]);
    assert f[14..][2..] == f[16..32];
    hide Val, Ones, Pow2;
  }

  lemma TailOnes(s: seq<bit>)
    requires |s| == 18
    ensures s == Ones(18) <==> s[0] == 1 && s[1] == 1 && s[2..] == Ones(16)
  {
    assert s == [s[0], s[1]] + s[2..] && Ones(18) == [1, 1] + Ones(16);
  }

  lemma Powers()
    ensures Pow2(16) == 0x1_0000
  {
    assert Pow2(8) == 256;
  }

  /** The hunter's turn at the zero. */
  lemma HuntZero(f: seq<bit>, n: nat)
    requires |f| == FRAME_BITS && f[0] == 0
    ensures Hunt(f, n) == if FrameStarts(f, n) then [FrameOf(f, n)] else []
  {
    hide Val, FrameOf;
    HuntEnd([], 0, []);
    Short(f[1..], 0, []);
    assert f[FRAME_BITS..] == [];
  }

  lemma Val2(s: seq<bit>)
    requires |s| == 2
    ensures Val(s) == Two(s[0], s[1])
  {
    assert s[..1] == [s[0]] && Val([s[0]]) == s[0];
  }

  lemma Val5(s: seq<bit>)
    requires |s| == 5
    ensures Val(s) == Five(s[0], s[1], s[2], s[3], s[4])
  {
    var v4, v3 := s[..4], s[..4][..3];
    Val2(v3[..2]);
    assert Val(s) == 2 * Val(v4) + s[4] && Val(v4) == 2 * Val(v3) + v4[3] && Val(v3) == 2 * Val(v3[..2]) + v3[2];
  }

  /** A field is all ones exactly if it has the greatest value. */
  lemma {:induction false} AllOnes(s: seq<bit>)
    ensures Val(s) < Pow2(|s|) && (Val(s) == Pow2(|s|) - 1 <==> s == Ones(|s|))
  {
    if s != [] {
      var init := s[..|s| - 1];
      AllOnes(init);
      assert s == init + [s[|s| - 1]] && Ones(|s|) == Ones(|s| - 1) + [1];
    }
  }
}
