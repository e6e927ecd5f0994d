/** Commands of the MDIO bridge (src/mdio/mdio_bridge.hpp, parse): the parser accepts exactly
    the phrases of the command language, and reads them as what they say. */
module MdioCommand {
  import opened Bytes
  import opened Cobs
  import opened MdioText

  datatype Verb = VRead | VWrite | VPrint

  datatype Command = Command(verb: Verb, phy: nat, mmd: Option<nat>, reg: nat, val: nat)

  predicate EndBlank(b: byte) { Blank(b) || EndOfLine(b) }

  function SkipWs(s: seq<byte>): seq<byte> {
    if s != [] && Blank(s[0]) then SkipWs(s[1..]) else s
  }

  function Trim(s: seq<byte>): seq<byte> {
    if s != [] && EndBlank(s[|s| - 1]) then Trim(s[..|s| - 1]) else s
  }

  // ---- the parser, as a function of what is left to read ---------------------------------------------

  function Finish(c: Command, s: seq<byte>): Option<Command> {
    if SkipWs(s) == [] then Some(c) else None
  }

  function ValueOf(c: Command, s: seq<byte>): Option<Command> {
    var w := SkipWs(s);
    if w == [] then None
    else
      match ParsedUint(w, 0xFFFF)
      case None => None
      case Some((v, rest)) => Finish(c.(val := v), rest)
  }

  function RegisterOf(c: Command, s: seq<byte>): Option<Command> {
    if s == [] || s[0] != SLASH then None
    else
      match ParsedUint(s[1..], if c.mmd.Some? then 0xFFFF else 31)
      case None => None
      case Some((reg, rest)) => if c.verb == VWrite then ValueOf(c.(reg := reg), rest) else Finish(c.(reg := reg), rest)
  }

  function TargetOf(c: Command, s: seq<byte>): Option<Command> {
    if s != [] && s[0] == COLON then
      match ParsedUint(s[1..], 31)
      case None => None
      case Some((mmd, rest)) => RegisterOf(c.(mmd := Some(mmd)), rest)
    else RegisterOf(c, s)
  }

  function ArgsOf(verb: Verb, s: seq<byte>): Option<Command> {
    if s == [] || !Blank(s[0]) then None
    else
      match ParsedUint(SkipWs(s), 31)
      case None => None
      case Some((phy, rest)) =>
        var c := Command(verb, phy, None, 0, 0);
        if verb == VPrint then Finish(c, rest) else TargetOf(c, rest)
  }

  function Word(v: Verb): seq<byte> {
    match v
    case VRead => READ
    case VWrite => WRITE
    case VPrint => PRINT
  }

  function VerbOf(s: seq<byte>): Option<Command> {
    if READ <= s then ArgsOf(VRead, s[4..])
    else if WRITE <= s then ArgsOf(VWrite, s[5..])
    else if PRINT <= s then ArgsOf(VPrint, s[5..])
    else None
  }

  function Parsed(line: seq<byte>): Option<Command> {
    var s := SkipWs(Trim(line));
    if s == [] || s[0] != BANG then None else VerbOf(s[1..])
  }

  // ---- the parser itself, moving a cursor -------------------------------------------------------------

  method SkipBlanks(s: seq<byte>, from: nat) returns (p: nat)
    requires from <= |s|
    ensures from <= p <= |s| && s[p..] == SkipWs(s[from..])
  {
    p := from;
    while p < |s| && Blank(s[p])
      invariant from <= p <= |s| && SkipWs(s[p..]) == SkipWs(s[from..])
    {
      assert s[p..][1..] == s[p + 1..];
      p := p + 1;
    }
  }

  /** verbIs: the keyword, character by character. */
  method VerbIs(s: seq<byte>, from: nat, kw: seq<byte>) returns (ok: bool, p: nat)
    requires from <= |s|
    ensures ok == (kw <= s[from..]) && p == if ok then from + |kw| else from
    ensures p <= |s|
  {
    var i := 0;
    while from + i < |s| && i < |kw| && s[from + i] == kw[i]
      invariant from + i <= |s| && i <= |kw| && forall k :: 0 <= k < i ==> s[from + k] == kw[k]
    {
      i := i + 1;
    }
    ok := i == |kw|;
    p := if ok then from + i else from;
    if ok {
      assert forall k :: 0 <= k < i ==> s[from..][k] == s[from + k];
    } else {
      assert from + |kw| <= |s| ==> s[from..][i] == s[from + i] != kw[i];
    }
  }

  method Parse(line: seq<byte>) returns (r: Option<Command>)
    ensures r == Parsed(line)
  {
    hide SkipWs, Trim, ParsedUint, Blank;
    var len := |line|;
    assert line[..len] == line;
    while len > 0 && EndBlank(line[len - 1])
      invariant len <= |line| && Trim(line[..len]) == Trim(line)
    {
      TrimStep(line, len);
      len := len - 1;
    }
    TrimStops(line, len);
    var s := line[..len];
    assert s[0..] == s;
    var p := SkipBlanks(s, 0);
    if p >= |s| || s[p] != BANG {
      return None;
    }
    p := p + 1;
    assert s[p - 1..][1..] == s[p..];
    r := ParseVerb(s, p);
  }

  lemma TrimStep(line: seq<byte>, len: nat)
    requires 0 < len <= |line| && EndBlank(line[len - 1])
    ensures Trim(line[..len]) == Trim(line[..len - 1])
  {
    assert line[..len][..len - 1] == line[..len - 1];
  }

  lemma TrimStops(line: seq<byte>, len: nat)
    requires len <= |line| && (len > 0 ==> !EndBlank(line[len - 1]))
    ensures Trim(line[..len]) == line[..len]
  {}

  method ParseVerb(s: seq<byte>, from: nat) returns (r: Option<Command>)
    requires from <= |s|
    ensures r == VerbOf(s[from..])
  {
    hide SkipWs, ParsedUint, ArgsOf;
    var ok, p := VerbIs(s, from, READ);
    if ok {
      assert s[from..][4..] == s[p..];
      r := ParseArgs(VRead, s, p);
      return;
    }
    ok, p := VerbIs(s, from, WRITE);
    if ok {
      assert s[from..][5..] == s[p..];
      r := ParseArgs(VWrite, s, p);
      return;
    }
    ok, p := VerbIs(s, from, PRINT);
    if ok {
      assert s[from..][5..] == s[p..];
      r := ParseArgs(VPrint, s, p);
      return;
    }
    return None;
  }

  method ParseArgs(verb: Verb, s: seq<byte>, from: nat) returns (r: Option<Command>)
    requires from <= |s|
    ensures r == ArgsOf(verb, s[from..])
  {
    hide SkipWs, ParsedUint, TargetOf;
    var p := from;
    if p >= |s| || (s[p] != SPACE && s[p] != TAB) {
      return None;
    }
    p := SkipBlanks(s, p);
    var v;
    v, p := ParseUint(s, p, 31);
    if v.None? {
      return None;
    }
    var c := Command(verb, v.value, None, 0, 0);
    if verb == VPrint {
      p := SkipBlanks(s, p);
      return if p == |s| then Some(c) else None;
    }
    r := ParseTarget(c, s, p);
  }

  method ParseTarget(c0: Command, s: seq<byte>, from: nat) returns (r: Option<Command>)
    requires from <= |s|
    ensures r == TargetOf(c0, s[from..])
  {
    hide SkipWs, ParsedUint;
    var p, c := from, c0;
    var v;
    if p < |s| && s[p] == COLON {
      assert s[from..][1..] == s[p + 1..];
      v, p := ParseUint(s, p + 1, 31);
      if v.None? {
        return None;
      }
      c := c.(mmd := v);
    }
    assert TargetOf(c0, s[from..]) == RegisterOf(c, s[p..]);
    if p >= |s| || s[p] != SLASH {
      return None;
    }
    assert s[p..][1..] == s[p + 1..];
    v, p := ParseUint(s, p + 1, if c.mmd.Some? then 0xFFFF else 31);
    if v.None? {
      return None;
    }
    c := c.(reg := v.value);
    if c.verb == VWrite {
      p := SkipBlanks(s, p);
      if p >= |s| {
        return None;
      }
      v, p := ParseUint(s, p, 0xFFFF);
      if v.None? {
        return None;
      }
      c := c.(val := v.value);
    }
    p := SkipBlanks(s, p);
    return if p == |s| then Some(c) else None;
  }

  // ---- the language ---------------------------------------------------------------------------------

  /** How the parts of a command are written down. */
  datatype Spelling = Spelling(lead: seq<byte>, gap: seq<byte>, phy: seq<byte>, mmd: seq<byte>, reg: seq<byte>,
                               space: seq<byte>, val: seq<byte>, trail: seq<byte>)

  predicate Blanks(s: seq<byte>) { forall k :: 0 <= k < |s| ==> Blank(s[k]) }

  /** Blanks where blanks may stand, numbers in range, in decimal or hexadecimal with any padding;
      what a command does not have is zero. */
  predicate Writes(sp: Spelling, c: Command) {
    && Blanks(sp.lead) && Blanks(sp.gap) && sp.gap != [] && Blanks(sp.space)
    && (forall k :: 0 <= k < |sp.trail| ==> EndBlank(sp.trail[k]))
    && Spells(sp.phy, c.phy) && c.phy <= 31
    && (if c.verb == VPrint then c.mmd == None && c.reg == 0
        else
          && Spells(sp.reg, c.reg) && c.reg <= (if c.mmd.Some? then 0xFFFF else 31)
          && (c.mmd.Some? ==> Spells(sp.mmd, c.mmd.value) && c.mmd.value <= 31))
    && (if c.verb == VWrite then sp.space != [] && Spells(sp.val, c.val) && c.val <= 0xFFFF else c.val == 0)
  }

  function ValuePart(sp: Spelling, c: Command): seq<byte> {
    if c.verb == VWrite then sp.space + sp.val else []
  }

  function RegisterPart(sp: Spelling, c: Command): seq<byte> { [SLASH] + sp.reg + ValuePart(sp, c) }

  function TargetPart(sp: Spelling, c: Command): seq<byte> {
    (if c.mmd.Some? then [COLON] + sp.mmd else []) + RegisterPart(sp, c)
  }

  function ArgsPart(sp: Spelling, c: Command): seq<byte> {
    sp.gap + sp.phy + if c.verb == VPrint then [] else TargetPart(sp, c)
  }

  /** The whole line. */
  function Phrase(sp: Spelling, c: Command): seq<byte> {
    sp.lead + [BANG] + Word(c.verb) + ArgsPart(sp, c) + sp.trail
  }

  lemma {:induction false} SkipOver(ws: seq<byte>, rest: seq<byte>)
    requires Blanks(ws) && (rest == [] || !Blank(rest[0]))
    ensures SkipWs(ws + rest) == rest
    decreases |ws|
  {
    if ws == [] {
      assert ws + rest == rest;
    } else {
      assert (ws + rest)[1..] == ws[1..] + rest;
      SkipOver(ws[1..], rest);
    }
  }

  lemma {:induction false} TrimOff(s: seq<byte>, trail: seq<byte>)
    requires (forall k :: 0 <= k < |trail| ==> EndBlank(trail[k])) && s != [] && !EndBlank(s[|s| - 1])
    ensures Trim(s + trail) == s
    decreases |trail|
  {
    if trail == [] {
      assert s + trail == s;
    } else {
      var t := s + trail;
      assert t[..|t| - 1] == s + trail[..|trail| - 1] && t[|t| - 1] == trail[|trail| - 1];
      TrimOff(s, trail[..|trail| - 1]);
    }
  }

  /** Numbers start and end with characters that are no blanks. */
  lemma NumberEnds(text: seq<byte>, v: nat)
    requires Spells(text, v)
    ensures text != [] && !Blank(text[0]) && !EndBlank(text[|text| - 1]) && DigitOf(text[0], 10).Some?
  {
    SpellsIs(text, v);
    hide Shown;
    if !AllDigits(text, 10) {
      assert text[2..][|text| - 3] == text[|text| - 1];
    }
    hide Digits;
  }

  lemma FinishEmpty(c: Command)
    ensures Finish(c, []) == Some(c)
  {}

  /** Reading a spelled value. */
  lemma ReadsValue(sp: Spelling, c: Command, c0: Command)
    requires Writes(sp, c) && c.verb == VWrite && c0.(val := c.val) == c
    ensures ValueOf(c0, ValuePart(sp, c)) == Some(c) && Stops(ValuePart(sp, c))
  {
    NumberEnds(sp.val, c.val);
    SkipOver(sp.space, sp.val);
    UintRoundTrip(sp.val, c.val, [], 0xFFFF);
    hide Spells, ParsedUint, SkipWs;
    assert sp.val + [] == sp.val;
    FinishEmpty(c);
  }

  lemma ReadsRegister(sp: Spelling, c: Command, c0: Command)
    requires Writes(sp, c) && c.verb != VPrint && c0.(reg := c.reg, val := c.val) == c
    requires c0.val == 0
    ensures RegisterOf(c0, RegisterPart(sp, c)) == Some(c) && Stops(RegisterPart(sp, c))
  {
    var limit := if c.mmd.Some? then 0xFFFF else 31;
    var tail := ValuePart(sp, c);
    if c.verb == VWrite {
      ReadsValue(sp, c, c0.(reg := c.reg));
    }
    UintRoundTrip(sp.reg, c.reg, tail, limit);
    var s := RegisterPart(sp, c);
    assert s[1..] == sp.reg + tail && s[0] == SLASH;
    hide Spells, ParsedUint, ValueOf;
    FinishEmpty(c);
  }

  lemma ReadsTarget(sp: Spelling, c: Command, c0: Command)
    requires Writes(sp, c) && c.verb != VPrint && c0 == Command(c.verb, c.phy, None, 0, 0)
    ensures TargetOf(c0, TargetPart(sp, c)) == Some(c) && Stops(TargetPart(sp, c))
  {
    var s, tail := TargetPart(sp, c), RegisterPart(sp, c);
    ReadsRegister(sp, c, c0.(mmd := c.mmd));
    if c.mmd.Some? {
      UintRoundTrip(sp.mmd, c.mmd.value, tail, 31);
      assert s[1..] == sp.mmd + tail && s[0] == COLON;
      hide Spells, ParsedUint, RegisterOf;
    } else {
      assert s == tail && tail[0] == SLASH;
    }
  }

  lemma ReadsArgs(sp: Spelling, c: Command)
    requires Writes(sp, c)
    ensures ArgsOf(c.verb, ArgsPart(sp, c)) == Some(c)
  {
    var c0 := Command(c.verb, c.phy, None, 0, 0);
    var tail := if c.verb == VPrint then [] else TargetPart(sp, c);
    if c.verb != VPrint {
      ReadsTarget(sp, c, c0);
    }
    NumberEnds(sp.phy, c.phy);
    SkipOver(sp.gap, sp.phy + tail);
    UintRoundTrip(sp.phy, c.phy, tail, 31);
    assert ArgsPart(sp, c) == sp.gap + (sp.phy + tail);
    hide Spells, ParsedUint, TargetOf, SkipWs;
    FinishEmpty(c);
  }

  lemma LastIsNumber(sp: Spelling, c: Command)
    requires Writes(sp, c)
    ensures var a := ArgsPart(sp, c); a != [] && !EndBlank(a[|a| - 1])
  {
    hide Spells, EndBlank;
    var number, v := LastNumber(sp, c);
    NumberEnds(number, v);
    hide *;
  }

  /** The number at the end of the arguments. */
  lemma LastNumber(sp: Spelling, c: Command) returns (number: seq<byte>, v: nat)
    requires Writes(sp, c)
    ensures Spells(number, v)
    ensures var a := ArgsPart(sp, c); number != [] ==> a != [] && a[|a| - 1] == number[|number| - 1]
  {
    hide Spells, EndBlank, Blank;
    number, v := if c.verb == VPrint then sp.phy else if c.verb == VRead then sp.reg else sp.val,
                 if c.verb == VPrint then c.phy else if c.verb == VRead then c.reg else c.val;
  }

  /** Every command, however it is written down within the language, parses back to itself. */
  lemma PhraseParses(sp: Spelling, c: Command)
    requires Writes(sp, c)
    ensures Parsed(Phrase(sp, c)) == Some(c)
  {
    hide *;
    var a := ArgsPart(sp, c);
    var body := [BANG] + Word(c.verb) + a;
    var s := sp.lead + body;
    LastIsNumber(sp, c);
    ReadsArgs(sp, c);
    WritesBlanks(sp, c);
    PhraseIs(sp, c, a);
    assert s[|s| - 1] == a[|a| - 1];
    TrimOff(s, sp.trail);
    BangIsNoBlank();
    SkipOver(sp.lead, body);
    VerbFirst(c.verb, a);
    assert body[1..] == Word(c.verb) + a;
    ParsedIs(Phrase(sp, c), body);
  }

  lemma PhraseIs(sp: Spelling, c: Command, a: seq<byte>)
    requires a == ArgsPart(sp, c)
    ensures Phrase(sp, c) == sp.lead + ([BANG] + Word(c.verb) + a) + sp.trail
  {
    hide ArgsPart, Word;
    assert sp.lead + [BANG] + Word(c.verb) + a == sp.lead + ([BANG] + Word(c.verb) + a);
  }

  lemma BangIsNoBlank()
    ensures !Blank(BANG)
  {}

  lemma ParsedIs(line: seq<byte>, body: seq<byte>)
    requires SkipWs(Trim(line)) == body && body != [] && body[0] == BANG
    ensures Parsed(line) == VerbOf(body[1..])
  {
    hide VerbOf;
  }

  lemma WritesBlanks(sp: Spelling, c: Command)
    requires Writes(sp, c)
    ensures Blanks(sp.lead) && forall k :: 0 <= k < |sp.trail| ==> EndBlank(sp.trail[k])
  {}

  lemma VerbFirst(v: Verb, a: seq<byte>)
    ensures VerbOf(Word(v) + a) == ArgsOf(v, a)
  {
    hide ArgsOf;
    var s := Word(v) + a;
    assert s[|Word(v)|..] == a && Word(v) <= s;
    assert s[0] == Word(v)[0];
    assert READ <= s ==> s[0] == READ[0];
    assert WRITE <= s ==> s[0] == WRITE[0];
  }

  // ---- the usual way to write a command --------------------------------------------------------------

  predicate InRange(c: Command) {
    && c.phy <= 31 && (c.mmd.Some? ==> c.mmd.value <= 31) && c.val <= 0xFFFF
    && c.reg <= (if c.mmd.Some? then 0xFFFF else 31)
  }

  /** What a command does not have is zero. */
  predicate Plain(c: Command) {
    (c.verb == VPrint ==> c.mmd == None && c.reg == 0) && (c.verb != VWrite ==> c.val == 0)
  }

  function Keyword(v: Verb): string {
    match v
    case VRead => "!read "
    case VWrite => "!write "
    case VPrint => "!print "
  }

  function UsualText(c: Command): seq<byte> {
    Ascii(Keyword(c.verb)) + Decimal(c.phy) +
    (if c.verb == VPrint then []
     else (if c.mmd.Some? then Ascii(":") + Decimal(c.mmd.value) else []) + Ascii("/") + Decimal(c.reg)) +
    (if c.verb == VWrite then Ascii(" ") + Decimal(c.val) else [])
  }

  /** Every command in range, written as usual with decimal numbers, parses to itself. */
  lemma UsualReads(c: Command)
    requires InRange(c) && Plain(c)
    ensures Parsed(UsualText(c)) == Some(c)
  {
    hide *;
    var mmd := if c.mmd.Some? then c.mmd.value else 0;
    var sp := Spelling([], [SPACE], Decimal(c.phy), Decimal(mmd), Decimal(c.reg), [SPACE], Decimal(c.val), []);
    DecimalSpells(c.phy);
    DecimalSpells(mmd);
    DecimalSpells(c.reg);
    DecimalSpells(c.val);
    UsualWrites(sp, c, mmd);
    PhraseParses(sp, c);
    UsualPhrase(sp, c, mmd);
  }

  lemma DecimalSpells(v: nat)
    ensures Spells(Decimal(v), v)
  {
    TextShown(v, LOWER[..10], 0);
    hide Shown, Text;
    assert Zeros(0) + Decimal(v) == Decimal(v);
  }

  lemma UsualWrites(sp: Spelling, c: Command, mmd: nat)
    requires InRange(c) && Plain(c) && mmd == (if c.mmd.Some? then c.mmd.value else 0)
    requires sp == Spelling([], [SPACE], sp.phy, sp.mmd, sp.reg, [SPACE], sp.val, [])
    requires Spells(sp.phy, c.phy) && Spells(sp.mmd, mmd) && Spells(sp.reg, c.reg) && Spells(sp.val, c.val)
    ensures Writes(sp, c)
  {
    hide Spells;
  }

  lemma UsualPhrase(sp: Spelling, c: Command, mmd: nat)
    requires mmd == (if c.mmd.Some? then c.mmd.value else 0)
    requires sp == Spelling([], [SPACE], Decimal(c.phy), Decimal(mmd), Decimal(c.reg), [SPACE], Decimal(c.val), [])
    ensures Phrase(sp, c) == UsualText(c)
  {
    hide Text, Decimal, Ascii, Word, Keyword;
    LiteralWords(c.verb);
    var w := [BANG] + Word(c.verb);
    var t := if c.mmd.Some? then [COLON] + sp.mmd else [];
    var v := if c.verb == VWrite then [SPACE] + sp.val else [];
    PhraseParts(sp, c, w, t, v);
    hide *;
    Regroup(w, [SPACE], sp.phy, t, [SLASH] + sp.reg, v);
    Regroup(w, [SPACE], sp.phy, [], [], []);
    UsualParts(c, w, t, v);
  }

  lemma PhraseParts(sp: Spelling, c: Command, w: seq<byte>, t: seq<byte>, v: seq<byte>)
    requires w == [BANG] + Word(c.verb) && sp.lead == [] && sp.trail == [] && sp.gap == [SPACE] && sp.space == [SPACE]
    requires t == if c.mmd.Some? then [COLON] + sp.mmd else []
    requires v == if c.verb == VWrite then [SPACE] + sp.val else []
    ensures Phrase(sp, c) == w + ([SPACE] + sp.phy + if c.verb == VPrint then [] else t + ([SLASH] + sp.reg + v))
  {
    hide *;
    var a := ArgsPart(sp, c);
    PhraseIs(sp, c, a);
    NothingAround(w + a);
    ArgsParts(sp, c, t, v);
  }

  lemma NothingAround(s: seq<byte>)
    ensures [] + s + [] == s
  {}

  lemma ArgsParts(sp: Spelling, c: Command, t: seq<byte>, v: seq<byte>)
    requires sp.gap == [SPACE] && sp.space == [SPACE]
    requires t == if c.mmd.Some? then [COLON] + sp.mmd else []
    requires v == if c.verb == VWrite then [SPACE] + sp.val else []
    ensures ArgsPart(sp, c) == [SPACE] + sp.phy + if c.verb == VPrint then [] else t + ([SLASH] + sp.reg + v)
  {}

  lemma UsualParts(c: Command, w: seq<byte>, t: seq<byte>, v: seq<byte>)
    requires Ascii(Keyword(c.verb)) == w + [SPACE]
    requires Ascii(":") == [COLON] && Ascii("/") == [SLASH] && Ascii(" ") == [SPACE]
    requires t == if c.mmd.Some? then [COLON] + Decimal(c.mmd.value) else []
    requires v == if c.verb == VWrite then [SPACE] + Decimal(c.val) else []
    ensures UsualText(c) == w + [SPACE] + Decimal(c.phy) +
                            (if c.verb == VPrint then [] else t + ([SLASH] + Decimal(c.reg))) + v
  {
    hide Text, Decimal, Ascii, Keyword;
    assert t + [SLASH] + Decimal(c.reg) == t + ([SLASH] + Decimal(c.reg));
  }

  lemma Regroup(a: seq<byte>, b: seq<byte>, c: seq<byte>, d: seq<byte>, e: seq<byte>, f: seq<byte>)
    ensures a + (b + c + (d + (e + f))) == a + b + c + (d + e) + f
    ensures a + (b + c + []) == a + b + c + [] + []
  {}

  lemma LiteralWords(v: Verb)
    ensures Ascii(Keyword(v)) == [BANG] + Word(v) + [SPACE]
    ensures Ascii(":") == [COLON] && Ascii("/") == [SLASH] && Ascii(" ") == [SPACE]
  {}

  // ---- and nothing else parses ------------------------------------------------------------------------

  /** What is left of a trimmed line does not end in a blank. */
  predicate Tidy(s: seq<byte>) { s == [] || !EndBlank(s[|s| - 1]) }

  lemma {:induction false} SkipSplits(s: seq<byte>) returns (ws: seq<byte>)
    ensures s == ws + SkipWs(s) && Blanks(ws)
    ensures SkipWs(s) == [] || !Blank(SkipWs(s)[0])
  {
    if s != [] && Blank(s[0]) {
      var rest := SkipSplits(s[1..]);
      ws := [s[0]] + rest;
      assert s == [s[0]] + s[1..];
    } else {
      ws := [];
    }
  }

  lemma {:induction false} TrimSplits(s: seq<byte>) returns (trail: seq<byte>)
    ensures s == Trim(s) + trail && Tidy(Trim(s)) && forall k :: 0 <= k < |trail| ==> EndBlank(trail[k])
  {
    if s != [] && EndBlank(s[|s| - 1]) {
      var rest := TrimSplits(s[..|s| - 1]);
      trail := rest + [s[|s| - 1]];
      assert s == s[..|s| - 1] + [s[|s| - 1]];
    } else {
      trail := [];
    }
  }

  lemma FinishSound(c0: Command, s: seq<byte>, c: Command)
    requires Tidy(s) && Finish(c0, s) == Some(c)
    ensures c == c0 && s == []
  {
    var ws := SkipSplits(s);
    assert ws + [] == ws == s;
  }

  /** A number is read to its last digit. */
  lemma {:induction false} NumberGreedy(s: seq<byte>, base: nat, limit: nat, v: nat, any: bool)
    requires (base == 10 || base == 16) && Number(s, base, limit, v, any).Some?
    ensures var rest := Number(s, base, limit, v, any).value.1; rest == [] || DigitOf(rest[0], 10).None?
    decreases |s|
  {
    if s != [] && DigitOf(s[0], base).Some? {
      NumberGreedy(s[1..], base, limit, v * base + DigitOf(s[0], base).value, true);
    }
  }

  lemma ReadNumber(s: seq<byte>, limit: nat) returns (text: seq<byte>, v: nat, rest: seq<byte>)
    requires ParsedUint(s, limit).Some? && Tidy(s)
    ensures ParsedUint(s, limit) == Some((v, rest)) && s == text + rest && Spells(text, v) && v <= limit
    ensures Tidy(rest) && (rest == [] || DigitOf(rest[0], 10).None?)
  {
    UintSound(s, limit);
    if HexMark(s) {
      NumberGreedy(s[2..], 16, limit, 0, false);
    } else {
      NumberGreedy(s, 10, limit, 0, false);
    }
    hide Spells, ParsedUint, Number;
    v, rest := ParsedUint(s, limit).value.0, ParsedUint(s, limit).value.1;
    text := s[..|s| - |rest|];
    if rest != [] {
      assert rest[|rest| - 1] == s[|s| - 1];
    }
  }

  lemma ValueSound(c0: Command, s: seq<byte>, c: Command) returns (space: seq<byte>, val: seq<byte>)
    requires ValueOf(c0, s) == Some(c) && Tidy(s) && (s == [] || DigitOf(s[0], 10).None?)
    ensures s == space + val && Blanks(space) && space != [] && Spells(val, c.val) && c.val <= 0xFFFF
    ensures c == c0.(val := c.val)
  {
    hide SkipWs, ParsedUint, Spells;
    space := SkipSplits(s);
    var w := SkipWs(s);
    assert w[|w| - 1] == s[|s| - 1];
    var v, rest;
    val, v, rest := ReadNumber(w, 0xFFFF);
    FinishSound(c0.(val := v), rest, c);
    assert val + [] == val;
    NumberEnds(val, v);
    assert [] + w == w;
  }

  lemma RegisterSound(c0: Command, s: seq<byte>, c: Command) returns (reg: seq<byte>, space: seq<byte>, val: seq<byte>)
    requires RegisterOf(c0, s) == Some(c) && Tidy(s) && c0.val == 0
    ensures s == [SLASH] + reg + (if c.verb == VWrite then space + val else []) && Blanks(space)
    ensures Spells(reg, c.reg) && c.reg <= (if c.mmd.Some? then 0xFFFF else 31)
    ensures if c.verb == VWrite then space != [] && Spells(val, c.val) && c.val <= 0xFFFF else c.val == 0
    ensures c == c0.(reg := c.reg, val := c.val)
  {
    hide SkipWs, ParsedUint, Spells, ValueOf;
    assert s == [SLASH] + s[1..];
    assert |s| > 1 ==> s[1..][|s| - 2] == s[|s| - 1];
    var v, rest;
    reg, v, rest := ReadNumber(s[1..], if c0.mmd.Some? then 0xFFFF else 31);
    space, val := [], [];
    if c0.verb == VWrite {
      space, val := ValueSound(c0.(reg := v), rest, c);
      assert [SLASH] + reg + (space + val) == [SLASH] + (reg + rest);
    } else {
      FinishSound(c0.(reg := v), rest, c);
      assert [SLASH] + reg + [] == [SLASH] + (reg + rest);
    }
  }

  lemma TargetSound(c0: Command, s: seq<byte>, c: Command)
    returns (mmd: seq<byte>, reg: seq<byte>, space: seq<byte>, val: seq<byte>)
    requires TargetOf(c0, s) == Some(c) && Tidy(s) && c0 == Command(c0.verb, c0.phy, None, 0, 0)
    ensures s == (if c.mmd.Some? then [COLON] + mmd else []) +
                 ([SLASH] + reg + (if c.verb == VWrite then space + val else [])) && Blanks(space)
    ensures Spells(reg, c.reg) && c.reg <= (if c.mmd.Some? then 0xFFFF else 31)
    ensures c.mmd.Some? ==> Spells(mmd, c.mmd.value) && c.mmd.value <= 31
    ensures if c.verb == VWrite then space != [] && Spells(val, c.val) && c.val <= 0xFFFF else c.val == 0
    ensures c == c0.(mmd := c.mmd, reg := c.reg, val := c.val)
  {
    hide ParsedUint, Spells, RegisterOf;
    mmd := [];
    if s != [] && s[0] == COLON {
      assert s == [COLON] + s[1..];
      assert |s| > 1 ==> s[1..][|s| - 2] == s[|s| - 1];
      var v, rest;
      mmd, v, rest := ReadNumber(s[1..], 31);
      reg, space, val := RegisterSound(c0.(mmd := Some(v)), rest, c);
      assert [COLON] + (mmd + rest) == [COLON] + mmd + rest;
    } else {
      reg, space, val := RegisterSound(c0, s, c);
      assert [] + s == s;
    }
  }

  lemma ArgsSound(verb: Verb, s: seq<byte>, c: Command) returns (sp: Spelling)
    requires ArgsOf(verb, s) == Some(c) && Tidy(s)
    ensures sp.lead == [] && sp.trail == [] && Writes(sp, c) && c.verb == verb && s == ArgsPart(sp, c)
  {
    hide *;
    ArgsCases(verb, s);
    NoBlanks();
    var gap := SkipSplits(s);
    var w := SkipWs(s);
    BlankGap(s, gap, w);
    var phy, v, rest := ReadNumber(w, 31);
    var mmd, reg, space, val: seq<byte> := [], [], [], [];
    if verb == VPrint {
      FinishSound(Command(verb, v, None, 0, 0), rest, c);
    } else {
      mmd, reg, space, val := TargetSound(Command(verb, v, None, 0, 0), rest, c);
    }
    sp := Spelling([], gap, phy, mmd, reg, space, val, []);
    assert s == gap + (phy + rest) == gap + phy + rest;
    ArgsWritten(sp, c, s, rest);
  }

  lemma ArgsCases(verb: Verb, s: seq<byte>)
    requires ArgsOf(verb, s).Some?
    ensures s != [] && Blank(s[0]) && ParsedUint(SkipWs(s), 31).Some?
    ensures var (v, rest) := ParsedUint(SkipWs(s), 31).value;
            var c := Command(verb, v, None, 0, 0);
            ArgsOf(verb, s) == if verb == VPrint then Finish(c, rest) else TargetOf(c, rest)
  {
    hide SkipWs, ParsedUint, TargetOf, Finish;
  }

  lemma NoBlanks()
    ensures Blanks([])
  {}

  lemma BlankGap(s: seq<byte>, gap: seq<byte>, w: seq<byte>)
    requires Tidy(s) && s == gap + w && s != [] && Blank(s[0]) && (w == [] || !Blank(w[0]))
    ensures gap != [] && Tidy(w)
  {
    assert [] + w == w;
    assert w != [] ==> w[|w| - 1] == s[|s| - 1];
  }

  lemma ArgsWritten(sp: Spelling, c: Command, s: seq<byte>, rest: seq<byte>)
    requires sp.lead == [] && sp.trail == [] && s == sp.gap + sp.phy + rest
    requires Blanks(sp.gap) && sp.gap != [] && Blanks(sp.space) && Spells(sp.phy, c.phy) && c.phy <= 31
    requires if c.verb == VPrint then rest == [] && c.mmd == None && c.reg == 0 && c.val == 0
             else
               && rest == (if c.mmd.Some? then [COLON] + sp.mmd else []) +
                          ([SLASH] + sp.reg + (if c.verb == VWrite then sp.space + sp.val else []))
               && Spells(sp.reg, c.reg) && c.reg <= (if c.mmd.Some? then 0xFFFF else 31)
               && (c.mmd.Some? ==> Spells(sp.mmd, c.mmd.value) && c.mmd.value <= 31)
               && if c.verb == VWrite then sp.space != [] && Spells(sp.val, c.val) && c.val <= 0xFFFF else c.val == 0
    ensures Writes(sp, c) && s == ArgsPart(sp, c)
  {
    hide Spells;
  }

  lemma VerbSound(s: seq<byte>, c: Command)
    requires VerbOf(s) == Some(c)
    ensures exists v :: Word(v) <= s && ArgsOf(v, s[|Word(v)|..]) == Some(c)
  {
    hide ArgsOf;
    if READ <= s {
      assert Word(VRead) <= s;
    } else if WRITE <= s {
      assert Word(VWrite) <= s;
    } else {
      assert Word(VPrint) <= s;
    }
  }

  lemma ParsedIsPhrase(line: seq<byte>, c: Command) returns (sp: Spelling)
    requires Parsed(line) == Some(c)
    ensures Writes(sp, c) && line == Phrase(sp, c)
  {
    var trail := TrimSplits(line);
    var t := Trim(line);
    var lead := SkipSplits(t);
    var s := SkipWs(t);
    assert s != [] && s[0] == BANG && VerbOf(s[1..]) == Some(c);
    VerbSound(s[1..], c);
    hide *;
    var v :| Word(v) <= s[1..] && ArgsOf(v, s[1..][|Word(v)|..]) == Some(c);
    var a := s[1..][|Word(v)|..];
    TidySuffix(t, lead, s, a, v);
    sp := ArgsSound(v, a, c);
    sp := sp.(lead := lead, trail := trail);
    WritesFree(sp, c, lead, trail);
    PhraseIs(sp, c, a);
  }

  lemma WritesFree(sp: Spelling, c: Command, lead: seq<byte>, trail: seq<byte>)
    requires Writes(sp.(lead := [], trail := []), c) && sp.lead == lead && sp.trail == trail
    requires Blanks(lead) && forall k :: 0 <= k < |trail| ==> EndBlank(trail[k])
    ensures Writes(sp, c) && ArgsPart(sp, c) == ArgsPart(sp.(lead := [], trail := []), c)
  {
    hide Spells;
  }

  lemma TidySuffix(t: seq<byte>, lead: seq<byte>, s: seq<byte>, a: seq<byte>, v: Verb)
    requires t == lead + s && s != [] && s[0] == BANG && Tidy(t) && Word(v) <= s[1..] && a == s[1..][|Word(v)|..]
    ensures Tidy(a) && s == [BANG] + Word(v) + a
  {
    assert s == [s[0]] + s[1..] && s[1..] == Word(v) + a;
    hide Word;
    assert [BANG] + (Word(v) + a) == [BANG] + Word(v) + a;
    if a != [] {
      assert a[|a| - 1] == t[|t| - 1];
    }
  }

  /** The parser decides the language: a line is accepted as a command exactly when it is one of
      that command's spellings. */
  lemma ParserIsTheLanguage(line: seq<byte>, c: Command)
    ensures Parsed(line) == Some(c) <==> exists sp :: Writes(sp, c) && line == Phrase(sp, c)
  {
    hide *;
    if Parsed(line) == Some(c) {
      var sp := ParsedIsPhrase(line, c);
    }
    forall sp | Writes(sp, c) && line == Phrase(sp, c)
      ensures Parsed(line) == Some(c)
    {
      PhraseParses(sp, c);
    }
  }
}
