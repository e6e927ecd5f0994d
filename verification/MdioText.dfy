/** The ASCII command language of the MDIO bridge (src/mdio/mdio_bridge.hpp): lines out of a
    byte stream, and commands out of lines. */
module MdioText {
  import opened Bytes
  import opened Cobs

  const LF: byte := '\n' as int
  const CR: byte := '\r' as int
  const TAB: byte := '\t' as int
  const SPACE: byte := ' ' as int
  const BANG: byte := '!' as int
  const SLASH: byte := '/' as int
  const ZERO: byte := '0' as int
  const COLON: byte := ':' as int
  const LINE_MAX: nat := 48
  const READ: seq<byte> := [0x72, 0x65, 0x61, 0x64]
  const WRITE: seq<byte> := [0x77, 0x72, 0x69, 0x74, 0x65]
  const PRINT: seq<byte> := [0x70, 0x72, 0x69, 0x6E, 0x74]

  // ---- lines -----------------------------------------------------------------------------------------

  datatype LineEvent = Silent | Ready(text: seq<byte>) | Invalid

  predicate EndOfLine(b: byte) { b == LF || b == CR }

  /** What a finished line gives: empty lines are silent, lines over 48 bytes invalid. */
  function EventOf(line: seq<byte>): LineEvent {
    if line == [] then Silent else if |line| <= LINE_MAX then Ready(line) else Invalid
  }

  /** The events of a byte stream, with `cur` received since the last line end. */
  function LineEvents(cur: seq<byte>, bytes: seq<byte>): seq<LineEvent>
    decreases |bytes|
  {
    if bytes == [] then []
    else if EndOfLine(bytes[0]) then [EventOf(cur)] + LineEvents([], bytes[1..])
    else LineEvents(cur + [bytes[0]], bytes[1..])
  }

  /** What has been received since the last line end. */
  function LineRest(cur: seq<byte>, bytes: seq<byte>): seq<byte>
    decreases |bytes|
  {
    if bytes == [] then cur
    else LineRest(if EndOfLine(bytes[0]) then [] else cur + [bytes[0]], bytes[1..])
  }

  class LineReader {
    const line: array<byte>
    var lineLen: nat
    var discardLine: bool
    ghost var cur: seq<byte>          // bytes since the last line end

    ghost predicate Valid()
      reads this, line
    {
      && line.Length == LINE_MAX && lineLen <= LINE_MAX
      && if |cur| <= LINE_MAX then !discardLine && line[..lineLen] == cur else discardLine && lineLen == 0
    }

    constructor ()
      ensures Valid() && cur == [] && fresh(line)
    {
      line := new byte[LINE_MAX](_ => 0);
      lineLen, discardLine, cur := 0, false, [];
    }

    /** resetCommandLine(): a new session forgets a half-received line. */
    method Reset()
      requires Valid()
      modifies this
      ensures Valid() && cur == []
    {
      lineLen, discardLine, cur := 0, false, [];
    }

    /** pushCommandByte, with the caller's taking of a ready line. */
    method PushByte(b: byte) returns (e: LineEvent)
      requires Valid()
      modifies this, line
      ensures Valid()
      ensures if EndOfLine(b) then e == EventOf(old(cur)) && cur == []
              else e == Silent && cur == old(cur) + [b]
    {
      if b == LF || b == CR {
        cur := [];
        if discardLine {
          discardLine := false;
          lineLen := 0;
          return Invalid;
        }
        e := if lineLen > 0 then Ready(line[..lineLen]) else Silent;
        lineLen := 0;
        return;
      }
      cur := cur + [b];
      if discardLine {
        return Silent;
      }
      if lineLen < line.Length {
        line[lineLen] := b;
        lineLen := lineLen + 1;
        return Silent;
      }
      lineLen := 0;
      discardLine := true;
      return Silent;
    }

    /** The byte loop of pollCommand. */
    method Feed(bytes: seq<byte>) returns (events: seq<LineEvent>)
      requires Valid()
      modifies this, line
      ensures Valid() && NonSilent(LineEvents(old(cur), bytes)) == events && cur == LineRest(old(cur), bytes)
    {
      hide LineRest, LineEvents, EventOf, NonSilent;
      events := [];
      ghost var all := LineEvents(cur, bytes);
      assert bytes[0..] == bytes && events + NonSilent(all) == NonSilent(all);
      for i := 0 to |bytes|
        invariant Valid() && LineRest(cur, bytes[i..]) == LineRest(old(cur), bytes)
        invariant events + NonSilent(LineEvents(cur, bytes[i..])) == NonSilent(all)
      {
        LineStep(cur, bytes, i);
        ghost var before := cur;
        var e := PushByte(bytes[i]);
        if e != Silent {
          events := events + [e];
        }
      }
      assert bytes[|bytes|..] == [];
      LineEnd(cur);
    }
  }

  function NonSilent(es: seq<LineEvent>): seq<LineEvent> {
    if es == [] then [] else (if es[0] == Silent then [] else [es[0]]) + NonSilent(es[1..])
  }

  lemma LineStep(cur: seq<byte>, bytes: seq<byte>, i: nat)
    requires i < |bytes|
    ensures NonSilent(LineEvents(cur, bytes[i..])) ==
            if EndOfLine(bytes[i]) then
              (if EventOf(cur) == Silent then [] else [EventOf(cur)]) + NonSilent(LineEvents([], bytes[i + 1..]))
            else NonSilent(LineEvents(cur + [bytes[i]], bytes[i + 1..]))
    ensures LineRest(cur, bytes[i..]) ==
            LineRest(if EndOfLine(bytes[i]) then [] else cur + [bytes[i]], bytes[i + 1..])
  {
    hide EventOf;
    assert bytes[i..][1..] == bytes[i + 1..];
    assert ([EventOf(cur)] + LineEvents([], bytes[i + 1..]))[1..] == LineEvents([], bytes[i + 1..]);
  }

  lemma LineEnd(cur: seq<byte>)
    ensures NonSilent(LineEvents(cur, [])) == [] && LineRest(cur, []) == cur
  {}

  /** Splitting is what it should be: a stream of lines, each free of line ends and closed by
      one, gives each line's own event, whatever line ends are used. */
  function Closed(lines: seq<seq<byte>>, ends: seq<byte>): seq<byte>
    requires |ends| == |lines|
  {
    if lines == [] then [] else lines[0] + [ends[0]] + Closed(lines[1..], ends[1..])
  }

  lemma {:induction false} Collect(cur: seq<byte>, line: seq<byte>, rest: seq<byte>)
    requires forall k :: 0 <= k < |line| ==> !EndOfLine(line[k])
    ensures LineEvents(cur, line + rest) == LineEvents(cur + line, rest)
    decreases |line|
  {
    if line == [] {
      assert line + rest == rest && cur + line == cur;
    } else {
      assert (line + rest)[1..] == line[1..] + rest && cur + [line[0]] + line[1..] == cur + line;
      Collect(cur + [line[0]], line[1..], rest);
    }
  }

  lemma {:induction false} LinesAreSplit(lines: seq<seq<byte>>, ends: seq<byte>, tail: seq<byte>)
    requires |ends| == |lines| && forall k :: 0 <= k < |ends| ==> EndOfLine(ends[k])
    requires forall i, k :: 0 <= i < |lines| && 0 <= k < |lines[i]| ==> !EndOfLine(lines[i][k])
    requires forall k :: 0 <= k < |tail| ==> !EndOfLine(tail[k])
    ensures LineEvents([], Closed(lines, ends) + tail) == seq(|lines|, i requires 0 <= i < |lines| => EventOf(lines[i]))
    decreases |lines|
  {
    hide EventOf;
    if lines == [] {
      Collect([], tail, []);
      assert Closed(lines, ends) + tail == tail + [];
      assert LineEvents([] + tail, []) == [];
    } else {
      var rest := Closed(lines[1..], ends[1..]) + tail;
      assert Closed(lines, ends) + tail == lines[0] + ([ends[0]] + rest);
      Collect([], lines[0], [ends[0]] + rest);
      assert [] + lines[0] == lines[0] && ([ends[0]] + rest)[1..] == rest;
      LinesAreSplit(lines[1..], ends[1..], tail);
    }
  }

  // ---- numbers -----------------------------------------------------------------------------------------

  predicate Blank(b: byte) { b == SPACE || b == TAB }

  function DigitOf(b: byte, base: nat): (d: Option<nat>)
    ensures d.Some? ==> d.value < 16 && (base == 10 ==> d.value < 10)
  {
    if 0x30 <= b <= 0x39 then Some(b - 0x30)
    else if base == 16 && 0x61 <= b <= 0x66 then Some(b - 0x61 + 10)
    else if base == 16 && 0x41 <= b <= 0x46 then Some(b - 0x41 + 10)
    else None
  }

  /** Digits from s on, with v read before them: the value, and what follows the last digit. */
  function Number(s: seq<byte>, base: nat, limit: nat, v: nat, any: bool): Option<(nat, seq<byte>)>
    decreases |s|
  {
    var d := if s == [] then None else DigitOf(s[0], base);
    if d.None? then (if any then Some((v, s)) else None)
    else if v * base + d.value > limit then None
    else Number(s[1..], base, limit, v * base + d.value, true)
  }

  predicate HexMark(s: seq<byte>) { |s| >= 2 && s[0] == ZERO && (s[1] == 0x78 || s[1] == 0x58) }

  function ParsedUint(s: seq<byte>, limit: nat): Option<(nat, seq<byte>)> {
    if HexMark(s) then Number(s[2..], 16, limit, 0, false) else Number(s, 10, limit, 0, false)
  }

  /** The digit loop. Values stay so small that 32-bit arithmetic never overflows. */
  method ParseUint(s: seq<byte>, from: nat, limit: nat) returns (r: Option<nat>, p: nat)
    requires from <= |s| && limit <= 0xFFFF
    ensures from <= p <= |s|
    ensures ParsedUint(s[from..], limit) == if r.None? then None else Some((r.value, s[p..]))
  {
    hide Number, DigitOf;
    p := from;
    var v: uint32 := 0;
    var any := false;
    var base := 10;
    if p + 1 < |s| && s[p] == ZERO && (s[p + 1] == 0x78 || s[p + 1] == 0x58) {
      base := 16;
      p := p + 2;
      assert s[from..][2..] == s[p..];
    }
    while p < |s|
      invariant from <= p <= |s| && v <= limit && (base == 10 || base == 16)
      invariant Number(s[p..], base, limit, v, any) == ParsedUint(s[from..], limit)
    {
      NumberStep(s, p, base, limit, v, any);
      DigitBound(s[p], base);
      var d := DigitOf(s[p], base);
      if d.None? {
        break;
      }
      assert v * base + d.value < WORD32;        // uint32_t arithmetic does not wrap
      v := v * base + d.value;
      if v > limit {
        return None, p;
      }
      any := true;
      p := p + 1;
    }
    NumberStops(s, p, base, limit, v, any);
    if !any {
      return None, p;
    }
    return Some(v), p;
  }

  lemma DigitBound(b: byte, base: nat)
    ensures DigitOf(b, base).Some? ==> DigitOf(b, base).value < 16
  {}

  lemma NumberStep(s: seq<byte>, p: nat, base: nat, limit: nat, v: nat, any: bool)
    requires p < |s|
    ensures Number(s[p..], base, limit, v, any) ==
            var d := DigitOf(s[p], base);
            if d.None? then (if any then Some((v, s[p..])) else None)
            else if v * base + d.value > limit then None
            else Number(s[p + 1..], base, limit, v * base + d.value, true)
  {
    hide DigitOf;
    assert s[p..][1..] == s[p + 1..];
  }

  lemma NumberStops(s: seq<byte>, p: nat, base: nat, limit: nat, v: nat, any: bool)
    requires p <= |s| && (p < |s| ==> DigitOf(s[p], base).None?)
    ensures Number(s[p..], base, limit, v, any) == if any then Some((v, s[p..])) else None
  {
    hide DigitOf;
  }

  // ---- what a number means -----------------------------------------------------------------------------

  /** The number a string of digits denotes, most significant first. */
  function Digits(text: seq<byte>, base: nat): nat {
    if text == [] then 0
    else
      var d := DigitOf(text[|text| - 1], base);
      Digits(text[..|text| - 1], base) * base + if d.Some? then d.value else 0
  }

  predicate AllDigits(text: seq<byte>, base: nat) {
    text != [] && forall k :: 0 <= k < |text| ==> DigitOf(text[k], base).Some?
  }

  /** The digits by value, and the hexadecimal ones in capitals. */
  const LOWER: string := "0123456789abcdef"
  const UPPER: string := "0123456789ABCDEF"

  /** The character b stands for the digit d. */
  predicate Shows(b: byte, d: nat, base: nat) {
    d < base && base <= 16 && (b == LOWER[d] as int || b == UPPER[d] as int)
  }

  /** The text is v written down, the most significant digit first, with any zeros in front. */
  predicate Shown(text: seq<byte>, v: nat, base: nat)
    requires base > 1
    decreases |text|
  {
    && text != [] && Shows(text[|text| - 1], v % base, base)
    && if |text| == 1 then v < base else Shown(text[..|text| - 1], v / base, base)
  }

  /** A decimal or hexadecimal spelling of v. */
  predicate Spells(text: seq<byte>, v: nat) {
    Shown(text, v, 10) || (HexMark(text) && Shown(text[2..], v, 16))
  }

  lemma LiteralDigits(d: nat)
    requires d < 16
    ensures LOWER[d] as int == (if d < 10 then 0x30 + d else 0x61 + d - 10)
    ensures UPPER[d] as int == (if d < 10 then 0x30 + d else 0x41 + d - 10)
  {
    if d < 8 {
      assert d == 0 || d == 1 || d == 2 || d == 3 || d == 4 || d == 5 || d == 6 || d == 7;
    } else {
      assert d == 8 || d == 9 || d == 10 || d == 11 || d == 12 || d == 13 || d == 14 || d == 15;
    }
  }

  /** The parser gives every character the value of the digit it shows, and others none. */
  lemma DigitIsShown(b: byte, base: nat, d: nat)
    requires base == 10 || base == 16
    ensures DigitOf(b, base) == Some(d) <==> Shows(b, d, base)
  {
    if d < 16 {
      LiteralDigits(d);
    }
  }

  lemma {:induction false} ShownIs(text: seq<byte>, v: nat, base: nat)
    requires base == 10 || base == 16
    ensures Shown(text, v, base) <==> AllDigits(text, base) && Digits(text, base) == v
    decreases |text|
  {
    if text != [] {
      var n := |text| - 1;
      var init, b := text[..n], text[n];
      DigitIsShown(b, base, v % base);
      SplitDigits(text, base);
      if init != [] {
        ShownIs(init, v / base, base);
      }
      hide *;
      ShownStep(text, v, base);
      if DigitOf(b, base).Some? {
        DigitSmall(b, base);
        LastDigit(v, Digits(init, base), DigitOf(b, base).value, base);
      }
    }
  }

  lemma ShownStep(text: seq<byte>, v: nat, base: nat)
    requires text != [] && base > 1
    ensures var n := |text| - 1;
            Shown(text, v, base) <==> Shows(text[n], v % base, base) && if n == 0 then v < base
                                                                        else Shown(text[..n], v / base, base)
  {
    hide Shows;
  }

  lemma SplitDigits(text: seq<byte>, base: nat)
    requires text != []
    ensures var n := |text| - 1;
            var d := DigitOf(text[n], base);
            && (AllDigits(text, base) <==> d.Some? && (n > 0 ==> AllDigits(text[..n], base)))
            && (d.Some? ==> Digits(text, base) == Digits(text[..n], base) * base + d.value)
            && (n == 0 ==> Digits(text[..n], base) == 0)
  {
    hide DigitOf;
    var n := |text| - 1;
    assert forall k :: 0 <= k < n ==> text[..n][k] == text[k];
  }

  lemma DigitSmall(b: byte, base: nat)
    requires (base == 10 || base == 16) && DigitOf(b, base).Some?
    ensures DigitOf(b, base).value < base
  {}

  lemma LastDigit(v: nat, init: nat, d: nat, base: nat)
    requires (base == 10 || base == 16) && d < base
    ensures v == init * base + d <==> v / base == init && v % base == d
    ensures v / base == 0 <==> v < base
  {
    if base == 10 {
      assert v == v / 10 * 10 + v % 10;
    } else {
      assert v == v / 16 * 16 + v % 16;
    }
  }

  // ---- the usual way to write a number -------------------------------------------------------------------

  /** v in the digits of a literal, without zeros in front. */
  function Text(v: nat, digits: string): seq<byte>
    requires digits == LOWER[..10] || digits == LOWER || digits == UPPER
  {
    (if v < |digits| then [] else Text(v / |digits|, digits)) + [AsByte(digits[v % |digits|])]
  }

  function AsByte(c: char): byte { if c as int < 256 then c as int else 0 }

  function Ascii(s: string): seq<byte> { seq(|s|, i requires 0 <= i < |s| => AsByte(s[i])) }

  function Decimal(v: nat): seq<byte> { Text(v, LOWER[..10]) }

  function Zeros(k: nat): seq<byte> { seq(k, _ => AsByte(LOWER[0])) }

  lemma LiteralShows(d: nat, digits: string)
    requires (digits == LOWER[..10] || digits == LOWER || digits == UPPER) && d < |digits|
    ensures Shows(AsByte(digits[d]), d, |digits|) && (|digits| == 10 || |digits| == 16)
  {
    LiteralDigits(d);
  }

  lemma {:induction false} ZerosShown(k: nat, base: nat)
    requires k > 0 && (base == 10 || base == 16)
    ensures Shown(Zeros(k), 0, base)
    decreases k
  {
    var z := Zeros(k);
    LiteralDigits(0);
    if k > 1 {
      ZerosShown(k - 1, base);
      assert z[..k - 1] == Zeros(k - 1);
    }
    assert 0 / base == 0 && 0 % base == 0;
  }

  /** Zeros in front change nothing. */
  lemma {:induction false} TextShown(v: nat, digits: string, k: nat)
    requires digits == LOWER[..10] || digits == LOWER || digits == UPPER
    ensures |digits| > 1 && Shown(Zeros(k) + Text(v, digits), v, |digits|)
    decreases v
  {
    var base := |digits|;
    LiteralShows(0, digits);
    LiteralShows(v % base, digits);
    var b := AsByte(digits[v % base]);
    var init := Zeros(k) + if v < base then [] else Text(v / base, digits);
    TextStep(v, digits, k, init);
    assert (init + [b])[..|init|] == init;
    LastDigit(v, v / base, v % base, base);
    if v >= base {
      TextShown(v / base, digits, k);
    } else if k > 0 {
      ZerosShown(k, base);
      assert init == Zeros(k);
    }
    hide *;
    ShownStep(init + [b], v, base);
  }

  lemma TextStep(v: nat, digits: string, k: nat, init: seq<byte>)
    requires digits == LOWER[..10] || digits == LOWER || digits == UPPER
    requires init == Zeros(k) + if v < |digits| then [] else Text(v / |digits|, digits)
    ensures Zeros(k) + Text(v, digits) == init + [AsByte(digits[v % |digits|])]
    ensures v >= |digits| || k > 0 <==> init != []
  {
    hide AsByte, Zeros;
    LengthOfZeros(k);
  }

  lemma LengthOfZeros(k: nat)
    ensures |Zeros(k)| == k
  {}

  /** A number ends where neither a digit nor a hexadecimal mark follows. */
  predicate Stops(rest: seq<byte>) {
    rest == [] || (DigitOf(rest[0], 16).None? && rest[0] != 0x78 && rest[0] != 0x58)
  }

  lemma {:induction false} DigitsRead(done: seq<byte>, more: seq<byte>, rest: seq<byte>, base: nat, limit: nat)
    requires base == 10 || base == 16
    requires AllDigits(done + more, base) && Digits(done + more, base) <= limit
    requires rest == [] || DigitOf(rest[0], base).None?
    ensures Number(more + rest, base, limit, Digits(done, base), done != []) == Some((Digits(done + more, base), rest))
    decreases |more|
  {
    hide *;
    if more == [] {
      assert more + rest == rest && done + more == done && rest[0..] == rest;
      DigitsEnough(done, more, base);
      NumberStops(rest, 0, base, limit, Digits(done, base), done != []);
    } else {
      var s, next := more + rest, done + [more[0]];
      assert next + more[1..] == done + more && s[0..] == s && s[1..] == more[1..] + rest;
      DigitsEnough(done, more, base);
      DigitsGrow(next, more[1..], base);
      NumberStep(s, 0, base, limit, Digits(done, base), done != []);
      DigitsRead(next, more[1..], rest, base, limit);
    }
  }

  lemma DigitsEnough(done: seq<byte>, more: seq<byte>, base: nat)
    requires AllDigits(done + more, base)
    ensures more == [] ==> done != []
    ensures more != [] ==>
              && DigitOf(more[0], base).Some?
              && Digits(done + [more[0]], base) == Digits(done, base) * base + DigitOf(more[0], base).value
  {
    hide DigitOf;
    if more != [] {
      assert (done + more)[|done|] == more[0];
      assert (done + [more[0]])[..|done|] == done;
    } else {
      assert done + more == done;
    }
  }

  lemma {:induction false} DigitsGrow(a: seq<byte>, b: seq<byte>, base: nat)
    requires base > 0
    ensures Digits(a, base) <= Digits(a + b, base)
    decreases |b|
  {
    hide DigitOf;
    if b == [] {
      assert a + b == a;
    } else {
      DigitsGrow(a, b[..|b| - 1], base);
      assert (a + b)[..|a + b| - 1] == a + b[..|b| - 1];
      var prefix := Digits(a + b[..|b| - 1], base);
      AtLeast(prefix, base);
    }
  }

  lemma AtLeast(x: nat, base: nat)
    requires base > 0
    ensures x * base >= x
  {}

  /** What is written down is what the digits denote. */
  lemma SpellsIs(text: seq<byte>, v: nat)
    ensures Spells(text, v) <==>
              || (AllDigits(text, 10) && Digits(text, 10) == v)
              || (HexMark(text) && AllDigits(text[2..], 16) && Digits(text[2..], 16) == v)
  {
    ShownIs(text, v, 10);
    if HexMark(text) {
      ShownIs(text[2..], v, 16);
    }
    hide Shown, AllDigits, Digits;
  }

  /** Every in-range spelling reads back as its value, whatever follows it. */
  lemma UintRoundTrip(text: seq<byte>, v: nat, rest: seq<byte>, limit: nat)
    requires Spells(text, v) && v <= limit && Stops(rest)
    ensures ParsedUint(text + rest, limit) == Some((v, rest))
  {
    SpellsIs(text, v);
    StopsEarly(rest);
    if AllDigits(text, 10) && Digits(text, 10) == v {
      NoMark(text, rest);
      assert [] + text == text;
      assert Digits([], 10) == 0;
      hide Digits, AllDigits, Number, HexMark;
      DigitsRead([], text, rest, 10, limit);
    } else {
      assert (text + rest)[2..] == text[2..] + rest && [] + text[2..] == text[2..];
      assert Digits([], 16) == 0;
      hide Digits, AllDigits, Number;
      DigitsRead([], text[2..], rest, 16, limit);
    }
  }

  lemma StopsEarly(rest: seq<byte>)
    requires Stops(rest)
    ensures rest == [] || (DigitOf(rest[0], 10).None? && DigitOf(rest[0], 16).None?)
  {}

  lemma NoMark(text: seq<byte>, rest: seq<byte>)
    requires AllDigits(text, 10) && Stops(rest)
    ensures !HexMark(text + rest)
  {
    if |text| >= 2 {
      assert (text + rest)[1] == text[1] && DigitOf(text[1], 10).Some?;
    } else if rest != [] {
      assert (text + rest)[1] == rest[0];
    }
  }

  /** And nothing else is read: what was consumed spells the value. */
  lemma {:induction false} NumberSound(s: seq<byte>, done: seq<byte>, base: nat, limit: nat, any: bool)
    requires (base == 10 || base == 16) && (forall k :: 0 <= k < |done| ==> DigitOf(done[k], base).Some?)
    requires any == (done != []) && Number(s, base, limit, Digits(done, base), any).Some?
    requires any ==> Digits(done, base) <= limit
    ensures var (v, rest) := Number(s, base, limit, Digits(done, base), any).value;
            && |rest| <= |s| && s[|s| - |rest|..] == rest && v <= limit
            && AllDigits(done + s[..|s| - |rest|], base) && Digits(done + s[..|s| - |rest|], base) == v
    decreases |s|
  {
    hide *;
    NumberFirst(s, done, base, limit, any);
    if s == [] || DigitOf(s[0], base).None? {
      assert done + s[..0] == done && s[|s| - |s|..] == s;
    } else {
      var next := done + [s[0]];
      NumberSound(s[1..], next, base, limit, true);
      var rest := Number(s[1..], base, limit, Digits(next, base), true).value.1;
      var n := |s| - |rest|;
      assert next + s[1..][..n - 1] == done + s[..n];
      assert s[1..][n - 1..] == s[n..];
    }
  }

  /** One step of the number, in terms of what it denotes. */
  lemma NumberFirst(s: seq<byte>, done: seq<byte>, base: nat, limit: nat, any: bool)
    requires (base == 10 || base == 16) && (forall k :: 0 <= k < |done| ==> DigitOf(done[k], base).Some?)
    requires any == (done != []) && Number(s, base, limit, Digits(done, base), any).Some?
    ensures if s == [] || DigitOf(s[0], base).None? then
              && any && AllDigits(done, base)
              && Number(s, base, limit, Digits(done, base), any) == Some((Digits(done, base), s))
            else
              var next := done + [s[0]];
              && (forall k :: 0 <= k < |next| ==> DigitOf(next[k], base).Some?) && Digits(next, base) <= limit
              && Number(s, base, limit, Digits(done, base), any) ==
                 Number(s[1..], base, limit, Digits(next, base), true)
  {
    hide DigitOf;
    if s != [] {
      assert (done + [s[0]])[..|done|] == done;
    }
  }

  lemma UintSound(s: seq<byte>, limit: nat)
    requires ParsedUint(s, limit).Some?
    ensures var (v, rest) := ParsedUint(s, limit).value;
            |rest| <= |s| && s[|s| - |rest|..] == rest && v <= limit && Spells(s[..|s| - |rest|], v)
  {
    var (v, rest) := ParsedUint(s, limit).value;
    var n := |s| - |rest|;
    assert Digits([], 10) == 0 && Digits([], 16) == 0;
    hide Number, Digits, AllDigits, Spells;
    if HexMark(s) {
      NumberSound(s[2..], [], 16, limit, false);
      assert [] + s[2..][..n - 2] == s[..n][2..];
      assert s[2..][n - 2..] == s[n..];
      assert HexMark(s[..n]);
    } else {
      NumberSound(s, [], 10, limit, false);
      assert [] + s[..n] == s[..n];
    }
    SpellsIs(s[..n], v);
  }

  /** Decimal numbers parse exactly as they are usually written, with any zeros in front. */
  lemma DecimalReads(v: nat, k: nat, rest: seq<byte>, limit: nat)
    requires v <= limit && Stops(rest)
    ensures ParsedUint(Zeros(k) + Decimal(v) + rest, limit) == Some((v, rest))
  {
    TextShown(v, LOWER[..10], k);
    hide Shown, Zeros, Stops, ParsedUint;
    UintRoundTrip(Zeros(k) + Decimal(v), v, rest, limit);
  }

  /** And hexadecimal ones, in small letters and capitals. */
  lemma HexReads(v: nat, mark: string, digits: string, k: nat, rest: seq<byte>, limit: nat)
    requires (mark == "0x" || mark == "0X") && (digits == LOWER || digits == UPPER) && v <= limit && Stops(rest)
    ensures ParsedUint(Ascii(mark) + Zeros(k) + Text(v, digits) + rest, limit) == Some((v, rest))
  {
    TextShown(v, digits, k);
    var n := Zeros(k) + Text(v, digits);
    HexPrefix(mark, n);
    hide Shown, Zeros, Stops, ParsedUint, Text, Ascii;
    UintRoundTrip(Ascii(mark) + n, v, rest, limit);
    assert Ascii(mark) + Zeros(k) + Text(v, digits) == Ascii(mark) + n;
  }

  lemma HexPrefix(mark: string, n: seq<byte>)
    requires mark == "0x" || mark == "0X"
    ensures HexMark(Ascii(mark) + n) && (Ascii(mark) + n)[2..] == n
  {}

  /** A decimal spelling is the usual one with zeros in front. */
  lemma {:induction false} ShownDecimal(text: seq<byte>, v: nat)
    requires Shown(text, v, 10)
    ensures |text| >= |Decimal(v)| && text == Zeros(|text| - |Decimal(v)|) + Decimal(v)
    decreases |text|
  {
    var n := |text| - 1;
    var init := text[..n];
    LiteralDigits(v % 10);
    assert text == init + [AsByte(LOWER[..10][v % 10])];
    if n > 0 {
      ShownDecimal(init, v / 10);
    }
    hide Shown, Shows;
    ShownTail(text, init, v);
  }

  lemma ShownTail(text: seq<byte>, init: seq<byte>, v: nat)
    requires text == init + [AsByte(LOWER[..10][v % 10])]
    requires if init == [] then v < 10
             else |init| >= |Decimal(v / 10)| && init == Zeros(|init| - |Decimal(v / 10)|) + Decimal(v / 10)
    ensures |text| >= |Decimal(v)| && text == Zeros(|text| - |Decimal(v)|) + Decimal(v)
  {
    if v < 10 {
      assert v / 10 == 0 && Decimal(0) == [AsByte(LOWER[0])];
      assert init == Zeros(|init|);
    }
  }
}
