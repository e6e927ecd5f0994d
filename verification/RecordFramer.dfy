/** Burst records and their transport envelope: src/sniffer/record_framer.hpp on the device,
    parse_record / parseRecord and the envelope demultiplexer on the host. */
module RecordFramer {
  import opened Bytes
  import opened Cobs

  const HEADER_LEN := 12
  const TYPE_MDIO: byte := 0x01
  const BOUNDARY: byte := 0xFF
  const META: byte := 0xFE
  const LOSS: byte := 0xFD

  const BURST_MAX: nat := 768
  const RECORD_MAX: nat := HEADER_LEN + BURST_MAX
  /** The size of the encoded-record buffer in emitRecord. */
  const ENC_MAX: nat := RECORD_MAX + RECORD_MAX / 254 + 2

  datatype Record = Record(typ: byte, tUs: nat, durUs: nat, onsetUs: nat, flags: bv8, payload: seq<byte>) {
    predicate Valid() {
      tUs < WORD32 && durUs < 0x1_0000 && onsetUs < 0x1_0000 && |payload| < 0x1_0000
    }
  }

  /** Little-endian fields. */
  function Le16(v: nat): (b: seq<byte>)
    ensures |b| == 2
  {
    [v % 256, v / 256 % 256]
  }

  function Le32(v: nat): (b: seq<byte>)
    ensures |b| == 4
  {
    [v % 256, v / 256 % 256, v / 0x1_0000 % 256, v / 0x100_0000 % 256]
  }

  function FromLe16(b: seq<byte>): nat
    requires |b| == 2
  {
    b[0] as int + 256 * (b[1] as int)
  }

  function FromLe32(b: seq<byte>): nat
    requires |b| == 4
  {
    b[0] as int + 256 * (b[1] as int) + 0x1_0000 * (b[2] as int) + 0x100_0000 * (b[3] as int)
  }

  lemma Le16RoundTrip(v: nat)
    requires v < 0x1_0000
    ensures FromLe16(Le16(v)) == v
  {}

  lemma Le32RoundTrip(v: nat)
    requires v < WORD32
    ensures FromLe32(Le32(v)) == v
  {
    assert v / 0x1_0000 == v / 256 / 256 && v / 0x100_0000 == v / 256 / 256 / 256;
  }

  function Header(r: Record): (h: seq<byte>)
    ensures |h| == HEADER_LEN
  {
    [r.typ] + Le32(r.tUs) + Le16(r.durUs) + Le16(r.onsetUs) + [r.flags as byte] + Le16(|r.payload|)
  }

  function Serialized(r: Record): (s: seq<byte>)
    ensures |s| == HEADER_LEN + |r.payload|
  {
    Header(r) + r.payload
  }

  /** parse_record: None when the header or the payload is cut short. */
  function Parse(s: seq<byte>): Option<Record> {
    if |s| < HEADER_LEN then None
    else
      var n := FromLe16(s[10..12]);
      if HEADER_LEN + n > |s| then None
      else Some(Record(s[0], FromLe32(s[1..5]), FromLe16(s[5..7]), FromLe16(s[7..9]), s[9] as bv8,
                       s[HEADER_LEN..HEADER_LEN + n]))
  }

  lemma HeaderFields(r: Record)
    ensures var h := Header(r);
            h[0] == r.typ && h[1..5] == Le32(r.tUs) && h[5..7] == Le16(r.durUs) && h[7..9] == Le16(r.onsetUs)
            && h[9] == r.flags as byte && h[10..12] == Le16(|r.payload|)
  {
    hide Le16, Le32;
  }

  lemma FlagsRoundTrip(f: bv8)
    ensures (f as byte) as bv8 == f
  {}

  /** The host reads back every record the device can write. */
  lemma ParseSerialized(r: Record)
    requires r.Valid()
    ensures Parse(Serialized(r)) == Some(r)
  {
    HeaderFields(r);
    Le32RoundTrip(r.tUs);
    Le16RoundTrip(r.durUs);
    Le16RoundTrip(r.onsetUs);
    Le16RoundTrip(|r.payload|);
    FlagsRoundTrip(r.flags);
    hide Le16, Le32, FromLe16, FromLe32, Header;
    var s := Serialized(r);
    assert s[..HEADER_LEN] == Header(r) && s[HEADER_LEN..] == r.payload;
    assert s[1..5] == Header(r)[1..5] && s[5..7] == Header(r)[5..7];
    assert s[7..9] == Header(r)[7..9] && s[10..12] == Header(r)[10..12];
    assert s[HEADER_LEN..HEADER_LEN + |r.payload|] == r.payload;
  }

  /** The bytes of a record, field by field, least significant byte first. */
  lemma RecordBytes(r: Record)
    requires r.Valid()
    ensures var s := Serialized(r);
            && s[0] == r.typ && s[9] == r.flags as byte && s[12..] == r.payload
            && s[1] as int + 0x100 * (s[2] as int) + 0x1_0000 * (s[3] as int) + 0x100_0000 * (s[4] as int) == r.tUs
            && s[5] as int + 0x100 * (s[6] as int) == r.durUs
            && s[7] as int + 0x100 * (s[8] as int) == r.onsetUs
            && s[10] as int + 0x100 * (s[11] as int) == |r.payload|
  {
    assert r.tUs / 0x1_0000 == r.tUs / 256 / 256 && r.tUs / 0x100_0000 == r.tUs / 256 / 256 / 256;
  }

  lemma Le16Inverse(b: seq<byte>)
    requires |b| == 2
    ensures Le16(FromLe16(b)) == b && FromLe16(b) < 0x1_0000
  {}

  lemma Le32Inverse(b: seq<byte>)
    requires |b| == 4
    ensures Le32(FromLe32(b)) == b && FromLe32(b) < WORD32
  {
    var v := FromLe32(b);
    assert v / 256 == b[1] as int + 256 * (b[2] as int) + 0x1_0000 * (b[3] as int);
    assert v / 0x1_0000 == v / 256 / 256 && v / 0x100_0000 == v / 256 / 256 / 256;
  }

  /** The parser finds a record exactly when the bytes begin with one, and then that one. */
  lemma ParseIsPrefix(s: seq<byte>, r: Record)
    ensures Parse(s) == Some(r) <==> r.Valid() && Serialized(r) <= s
  {
    hide Parse, Header;
    if r.Valid() && Serialized(r) <= s {
      ParseLonger(r, s[|Serialized(r)|..]);
      assert s == Serialized(r) + s[|Serialized(r)|..];
    }
    if Parse(s) == Some(r) {
      ParsedBegins(s, r);
    }
  }

  lemma ParsedBegins(s: seq<byte>, r: Record)
    requires Parse(s) == Some(r)
    ensures r.Valid() && Serialized(r) <= s
  {
    Le32Inverse(s[1..5]);
    Le16Inverse(s[5..7]);
    Le16Inverse(s[7..9]);
    Le16Inverse(s[10..12]);
    BytesAreFlags(s[9]);
    HeaderFields(r);
    hide Le16, Le32, FromLe16, FromLe32, Header;
    assert r.payload == s[HEADER_LEN..HEADER_LEN + |r.payload|];
    Parts(Header(r));
    Parts(s[..HEADER_LEN]);
    assert s[..HEADER_LEN][1..5] == s[1..5] && s[..HEADER_LEN][5..7] == s[5..7];
    assert s[..HEADER_LEN][7..9] == s[7..9] && s[..HEADER_LEN][10..12] == s[10..12];
    assert Header(r) == s[..HEADER_LEN];
  }

  lemma Parts(h: seq<byte>)
    requires |h| == HEADER_LEN
    ensures h == [h[0]] + h[1..5] + h[5..7] + h[7..9] + [h[9]] + h[10..12]
  {}

  lemma BytesAreFlags(b: byte)
    ensures (b as bv8) as byte == b
  {
    var f := FlagsOf(b);
    FlagsRoundTrip(f);
  }

  lemma {:induction false} FlagsOf(b: byte) returns (f: bv8)
    ensures f as byte == b
    decreases b
  {
    if b == 0 {
      f := 0;
    } else {
      f := FlagsOf(b - 1);
      f := f + 1;
    }
  }

  lemma ParseLonger(r: Record, rest: seq<byte>)
    requires r.Valid()
    ensures Parse(Serialized(r) + rest) == Some(r)
  {
    ParseSerialized(r);
    hide Le16, Le32, FromLe16, FromLe32, Header;
    var s, t := Serialized(r), Serialized(r) + rest;
    assert s[1..5] == t[1..5] && s[5..7] == t[5..7] && s[7..9] == t[7..9] && s[10..12] == t[10..12];
    assert s[HEADER_LEN..HEADER_LEN + |r.payload|] == t[HEADER_LEN..HEADER_LEN + |r.payload|];
  }

  /** A framed record: its COBS-0xFF encoding and one boundary byte. */
  function Framed(raw: seq<byte>): seq<byte> {
    Encoded(FF, raw) + [BOUNDARY]
  }

  /** The 785 bytes reserved for an encoded record hold the worst 780-byte record and its
      boundary, with not a byte to spare. */
  lemma RecordFits(raw: seq<byte>)
    requires |raw| <= RECORD_MAX
    ensures ENC_MAX == 785
    ensures |Framed(raw)| <= ENC_MAX
    ensures |raw| == RECORD_MAX && FF.delim !in raw ==> |Framed(raw)| == ENC_MAX
  {
    SizeBound(FF, [], raw);
    if FF.delim !in raw {
      SizeBoundReached(FF, [], raw);
    }
  }

  /** frameRecord. */
  method FrameRecord(raw: array<byte>, len: nat, out: array<byte>) returns (w: nat)
    requires len <= raw.Length && raw != out
    requires MaxEncoded(FF, len) + 1 <= out.Length
    modifies out
    ensures w <= out.Length && out[..w] == Framed(raw[..len])
  {
    hide Encoded;
    w := Encode(FF, raw, len, out);
    out[w] := BOUNDARY;
    w := w + 1;
  }

  /** What frameMeta accepts: '[' and then printable ASCII only. */
  predicate MetaText(text: seq<byte>) {
    text != [] && text[0] == 0x5B && forall i :: 0 <= i < |text| ==> 0x20 <= text[i] <= 0x7E
  }

  /** frameMeta on a NUL-terminated string with these characters before the NUL. */
  method FrameMeta(ascii: seq<byte>, out: array<byte>) returns (w: nat)
    requires |ascii| + 3 <= out.Length && 0 !in ascii
    modifies out
    ensures w == if MetaText(ascii) then |ascii| + 3 else 0
    ensures MetaText(ascii) ==> out[..w] == [META] + ascii + [META, BOUNDARY]
  {
    if ascii == [] || ascii[0] != 0x5B {
      return 0;
    }
    w := 0;
    out[w] := META;
    w := w + 1;
    var i := 0;
    while i < |ascii|
      invariant i <= |ascii| && w == i + 1
      invariant out[..w] == [META] + ascii[..i]
      invariant forall j :: 0 <= j < i ==> 0x20 <= ascii[j] <= 0x7E
    {
      var c := ascii[i];
      if c < 0x20 || c > 0x7E {
        return 0;
      }
      out[w] := c;
      w := w + 1;
      i := i + 1;
    }
    out[w] := META;
    out[w + 1] := BOUNDARY;
    w := w + 2;
  }

  /** frameLoss. */
  method FrameLoss(out: array<byte>) returns (w: nat)
    requires out.Length >= 2
    modifies out
    ensures w == 2 && out[..w] == Wire(Lost)
  {
    out[0] := LOSS;
    out[1] := BOUNDARY;
    return 2;
  }

  // ---- the envelope --------------------------------------------------------------

  /** What a device puts on the wire, and what the demultiplexer reports. */
  datatype Item = Rec(raw: seq<byte>) | Meta(text: seq<byte>) | Lost

  function Wire(x: Item): seq<byte> {
    match x
    case Rec(raw) => Framed(raw)
    case Meta(text) => [META] + text + [META, BOUNDARY]
    case Lost => [LOSS, BOUNDARY]
  }

  /** Items the device may frame: records carry a header that starts with the MDIO type. */
  predicate Frameable(x: Item) {
    match x
    case Rec(raw) => |raw| >= HEADER_LEN && raw[0] == TYPE_MDIO
    case Meta(text) => MetaText(text)
    case Lost => true
  }

  function WireAll(xs: seq<Item>): seq<byte> {
    if xs == [] then [] else WireAll(xs[..|xs| - 1]) + Wire(xs[|xs| - 1])
  }

  /** _is_meta / metaText. */
  predicate IsMeta(segment: seq<byte>) {
    && |segment| >= 3 && segment[0] == META && segment[|segment| - 1] == META && segment[1] == 0x5B
    && forall i :: 1 <= i < |segment| - 1 ==> 0x20 <= segment[i] <= 0x7E
  }

  /** What one 0xFF-delimited segment stands for. */
  function Segment(segment: seq<byte>): seq<Item> {
    if segment == [] then []
    else if segment == [LOSS] then [Lost]
    else if IsMeta(segment) then [Meta(segment[1..|segment| - 1])]
    else match Decoded(FF, segment)
      case None => []
      case Some(raw) => [Rec(raw)]
  }

  /** The items of a byte stream, with `open` already collected. */
  function Demux(open: seq<byte>, data: seq<byte>): seq<Item>
    decreases |data|
  {
    if data == [] then Segment(open)
    else if data[0] == BOUNDARY then Segment(open) + Demux([], data[1..])
    else Demux(open + [data[0]], data[1..])
  }

  function RecsOf(xs: seq<Item>): (r: seq<seq<byte>>) {
    if xs == [] then [] else RecsOf(xs[..|xs| - 1]) + (match xs[|xs| - 1] case Rec(raw) => [raw] case _ => [])
  }

  function MetasOf(xs: seq<Item>): (r: seq<seq<byte>>) {
    if xs == [] then [] else MetasOf(xs[..|xs| - 1]) + (match xs[|xs| - 1] case Meta(text) => [text] case _ => [])
  }

  function LossesOf(xs: seq<Item>): (n: nat) {
    if xs == [] then 0 else LossesOf(xs[..|xs| - 1]) + (if xs[|xs| - 1].Lost? then 1 else 0)
  }

  /** demuxV2. */
  method DemuxV2(data: seq<byte>) returns (recs: seq<seq<byte>>, metas: seq<seq<byte>>, losses: nat)
    ensures var xs := Demux([], data); recs == RecsOf(xs) && metas == MetasOf(xs) && losses == LossesOf(xs)
  {
    hide Demux, Segment, RecsOf, MetasOf, LossesOf;
    recs, metas, losses := [], [], 0;
    var segment: seq<byte> := [];
    ghost var done: seq<Item> := [];
    NoItems();
    assert data[0..] == data;
    assert done + Demux([], data) == Demux([], data);
    var i := 0;
    while i < |data|
      invariant i <= |data|
      invariant done + Demux(segment, data[i..]) == Demux([], data)
      invariant recs == RecsOf(done) && metas == MetasOf(done) && losses == LossesOf(done)
    {
      DemuxStep(segment, data, i);
      if data[i] == BOUNDARY {
        AssocItems(done, Segment(segment), Demux([], data[i + 1..]));
        recs, metas, losses := Flush(segment, done, recs, metas, losses);
        done := done + Segment(segment);
        segment := [];
      } else {
        segment := segment + [data[i]];
      }
      i := i + 1;
    }
    DemuxEnd(segment, data[i..]);
    recs, metas, losses := Flush(segment, done, recs, metas, losses);
  }

  /** The closure `flush` of demuxV2. */
  method Flush(segment: seq<byte>, ghost done: seq<Item>, recs: seq<seq<byte>>, metas: seq<seq<byte>>, losses: nat)
    returns (recs': seq<seq<byte>>, metas': seq<seq<byte>>, losses': nat)
    requires recs == RecsOf(done) && metas == MetasOf(done) && losses == LossesOf(done)
    ensures var xs := done + Segment(segment);
            recs' == RecsOf(xs) && metas' == MetasOf(xs) && losses' == LossesOf(xs)
  {
    hide Decoded, IsMeta;
    recs', metas', losses' := recs, metas, losses;
    if segment == [] {
      assert done + [] == done;
      return;
    }
    if |segment| == 1 && segment[0] == LOSS {
      ProjectSnoc(done, Lost);
      losses' := losses + 1;
    } else if IsMeta(segment) {
      IsMetaLength(segment);
      var text := segment[1..|segment| - 1];
      ProjectSnoc(done, Meta(text));
      metas' := metas + [text];
    } else {
      match Decoded(FF, segment)
      case None =>
        assert done + [] == done;
      case Some(raw) =>
        ProjectSnoc(done, Rec(raw));
        recs' := recs + [raw];
    }
  }

  lemma IsMetaLength(segment: seq<byte>)
    requires IsMeta(segment)
    ensures |segment| >= 3
  {}

  lemma NoItems()
    ensures RecsOf([]) == [] && MetasOf([]) == [] && LossesOf([]) == 0
  {}

  lemma ProjectSnoc(xs: seq<Item>, x: Item)
    ensures RecsOf(xs + [x]) == RecsOf(xs) + (match x case Rec(raw) => [raw] case _ => [])
    ensures MetasOf(xs + [x]) == MetasOf(xs) + (match x case Meta(text) => [text] case _ => [])
    ensures LossesOf(xs + [x]) == LossesOf(xs) + (if x.Lost? then 1 else 0)
  {
    assert (xs + [x])[..|xs|] == xs;
  }

  lemma DemuxStep(open: seq<byte>, data: seq<byte>, i: nat)
    requires i < |data|
    ensures Demux(open, data[i..]) ==
            if data[i] == BOUNDARY then Segment(open) + Demux([], data[i + 1..])
            else Demux(open + [data[i]], data[i + 1..])
  {
    hide Segment;
    assert data[i..][1..] == data[i + 1..];
  }

  lemma DemuxEnd(open: seq<byte>, data: seq<byte>)
    requires data == []
    ensures Demux(open, data) == Segment(open)
  {}

  lemma AssocItems(a: seq<Item>, b: seq<Item>, c: seq<Item>)
    ensures a + (b + c) == (a + b) + c
  {}

  /** A boundary ends a segment: what stands before it never affects what follows. */
  lemma {:induction false} Resync(open: seq<byte>, garbage: seq<byte>, rest: seq<byte>)
    ensures Demux(open, garbage + [BOUNDARY] + rest) == Demux(open, garbage) + Demux([], rest)
    decreases |garbage|
  {
    hide Segment, Demux;
    var data := garbage + [BOUNDARY] + rest;
    assert data[0..] == data && garbage[0..] == garbage;
    DemuxStep(open, data, 0);
    if garbage == [] {
      assert data[1..] == rest;
      DemuxEnd(open, garbage);
    } else {
      assert data[1..] == garbage[1..] + [BOUNDARY] + rest;
      DemuxStep(open, garbage, 0);
      if garbage[0] == BOUNDARY {
        Resync([], garbage[1..], rest);
        AssocItems(Segment(open), Demux([], garbage[1..]), Demux([], rest));
      } else {
        Resync(open + [garbage[0]], garbage[1..], rest);
      }
    }
  }

  /** Bytes without a boundary just join the open segment. */
  lemma {:induction false} Collect(open: seq<byte>, body: seq<byte>)
    requires BOUNDARY !in body
    ensures Demux(open, body) == Segment(open + body)
    decreases |body|
  {
    hide Segment, Demux;
    if body == [] {
      DemuxEnd(open, body);
      assert open + body == open;
    } else {
      DemuxStep(open, body, 0);
      assert body[0..] == body && body[0] in body && forall b :: b in body[1..] ==> b in body;
      Collect(open + [body[0]], body[1..]);
      assert open + [body[0]] + body[1..] == open + body;
    }
  }

  /** The first two bytes of an encoded record cannot be mistaken for a marker. */
  lemma RecordLead(raw: seq<byte>)
    requires raw != [] && raw[0] != 0xFF
    ensures var e := Encoded(FF, raw); |e| >= 2 && e[1] == raw[0]
  {
    assert [] + [raw[0]] == [raw[0]];
    EncKeepsGroup([raw[0]], raw[1..]);
  }

  lemma {:induction false} EncKeepsGroup(g: seq<byte>, x: seq<byte>)
    requires 1 <= |g| < 253
    ensures |Enc(FF, g, x)| >= 2 && Enc(FF, g, x)[1] == g[0]
    decreases |x|
  {
    if x != [] && x[0] != FF.delim && |g| + 2 != FF.full {
      EncKeepsGroup(g + [x[0]], x[1..]);
    }
  }

  /** One framed item is read back as itself. */
  lemma SegmentOfWire(x: Item)
    requires Frameable(x)
    ensures var w := Wire(x);
            w != [] && w[|w| - 1] == BOUNDARY && BOUNDARY !in w[..|w| - 1] && Segment(w[..|w| - 1]) == [x]
  {
    var w := Wire(x);
    var body := w[..|w| - 1];
    match x
    case Rec(raw) =>
      assert body == Encoded(FF, raw);
      DelimiterFree(FF, [], raw);
      RecordLead(raw);
      RoundTrip(FF, raw);
      hide Encoded, Decoded;
    case Meta(text) =>
      assert body == [META] + text + [META];
      assert body[1..|body| - 1] == text;
      assert body[1] == text[0];
    case Lost =>
      assert body == [LOSS];
  }

  /** Unambiguous envelope: any interleaving of records, metadata blocks and loss markers
      is demultiplexed into exactly those items, in order. */
  lemma {:induction false} DemuxWire(xs: seq<Item>)
    requires forall x :: x in xs ==> Frameable(x)
    ensures Demux([], WireAll(xs)) == xs
    decreases |xs|
  {
    hide Wire, Segment, Frameable, Demux;
    if xs == [] {
      DemuxEnd([], []);
      SegmentOfNothing();
    } else {
      var init, x := xs[..|xs| - 1], xs[|xs| - 1];
      DemuxWire(init);
      SegmentOfWire(x);
      WireAllEnds(init);
      var w := Wire(x);
      DemuxAfter(WireAll(init), init, w, x);
    }
  }

  lemma SegmentOfNothing()
    ensures Segment([]) == []
  {}

  /** A wire image is empty or ends in a boundary. */
  lemma WireAllEnds(xs: seq<Item>)
    requires forall x :: x in xs ==> Frameable(x)
    ensures xs == [] <==> WireAll(xs) == []
    ensures xs != [] ==> WireAll(xs)[|WireAll(xs)| - 1] == BOUNDARY
  {
    if xs != [] {
      SegmentOfWire(xs[|xs| - 1]);
    }
  }

  lemma DemuxOne(w: seq<byte>, x: Item)
    requires w != [] && w[|w| - 1] == BOUNDARY && BOUNDARY !in w[..|w| - 1] && Segment(w[..|w| - 1]) == [x]
    ensures Demux([], w) == [x]
  {
    hide Demux, Segment;
    var body := w[..|w| - 1];
    Collect([], body);
    Resync([], body, []);
    DemuxEnd([], []);
    SegmentOfNothing();
    hide *;
    assert [] + body == body;
    assert w == body + [w[|w| - 1]] == body + [w[|w| - 1]] + [];
    assert [x] + [] == [x];
  }

  lemma DemuxAfter(before: seq<byte>, init: seq<Item>, w: seq<byte>, x: Item)
    requires Demux([], before) == init
    requires before != [] ==> before[|before| - 1] == BOUNDARY
    requires w != [] && w[|w| - 1] == BOUNDARY && BOUNDARY !in w[..|w| - 1] && Segment(w[..|w| - 1]) == [x]
    ensures Demux([], before + w) == init + [x]
  {
    hide Demux, Segment;
    DemuxOne(w, x);
    DemuxEnd([], []);
    SegmentOfNothing();
    if before == [] {
      assert before + w == w && [] + [x] == [x];
    } else {
      var head := before[..|before| - 1];
      assert before + w == head + [BOUNDARY] + w && before == head + [BOUNDARY] + [];
      Resync([], head, w);
      Resync([], head, []);
      assert Demux([], head) + [] == Demux([], head);
    }
  }

  /** A garbage prefix ended by a boundary leaves the items behind it unaffected. */
  lemma DemuxAfterGarbage(garbage: seq<byte>, xs: seq<Item>)
    requires forall x :: x in xs ==> Frameable(x)
    ensures Demux([], garbage + [BOUNDARY] + WireAll(xs)) == Demux([], garbage) + xs
  {
    Resync([], garbage, WireAll(xs));
    DemuxWire(xs);
  }
}
