/** A reader for the text encoder's output, and the proof that it recovers what was written. */
module TextParser {
  import opened Bytes
  import opened TextEncoding

  // ---------- unescaping (section 7 of RFC 8259) ----------

  function HexValue(b: byte): Option<nat> {
    if In(b, 0x30, 0x39) then Some(b - 0x30)
    else if In(b, 0x61, 0x66) then Some(b - 0x61 + 10)
    else if In(b, 0x41, 0x46) then Some(b - 0x41 + 10)
    else None
  }

  /** The code unit written as four hexadecimal digits at the front of `s`. */
  function CodeUnit(s: Text): (u: Option<nat>)
    ensures u.Some? ==> u.value < 0x10000
  {
    if |s| < 4 then None
    else
      match (HexValue(s[0]), HexValue(s[1]), HexValue(s[2]), HexValue(s[3]))
      case (Some(a), Some(b), Some(c), Some(d)) =>
        if a < 16 && b < 16 && c < 16 && d < 16 then Some(((a * 16 + b) * 16 + c) * 16 + d) else None
      case _ => None
  }

  /** UTF-8 (section 3 of RFC 3629) of a code point that is no surrogate. */
  function Utf8(c: nat): Text
    requires c < 0x110000
  {
    if c < 0x80 then [c]
    else if c < 0x800 then [0xC0 + c / 64, 0x80 + c % 64]
    else if c < 0x10000 then [0xE0 + c / 4096, 0x80 + c / 64 % 64, 0x80 + c % 64]
    else [0xF0 + c / 262144, 0x80 + c / 4096 % 64, 0x80 + c / 64 % 64, 0x80 + c % 64]
  }

  /** A decoded character and how many bytes wrote it. */
  datatype Char = Char(bytes: Text, size: nat)

  function SimpleEscape(b: byte): Option<Text> {
    if b == QUOTE || b == BACKSLASH || b == 0x2F then Some([b])
    else if b == 0x62 then Some([0x08])
    else if b == 0x66 then Some([0x0C])
    else if b == 0x6E then Some([0x0A])
    else if b == 0x72 then Some([0x0D])
    else if b == 0x74 then Some([0x09])
    else None
  }

  /** The character after a backslash and a `u`; a surrogate must come as the first half of a pair. */
  function UnicodeEscape(s: Text): (c: Option<Char>)
    ensures c.Some? ==> 4 <= c.value.size <= |s|
  {
    match CodeUnit(s)
    case None => None
    case Some(u) =>
      if u < 0xD800 || 0xE000 <= u then Some(Char(Utf8(u), 4))
      else if u < 0xDC00 && |s| >= 10 && s[4] == BACKSLASH && s[5] == 0x75 then
        match CodeUnit(s[6..])
        case Some(v) =>
          if 0xDC00 <= v < 0xE000 then Some(Char(Utf8(0x10000 + (u - 0xD800) * 1024 + (v - 0xDC00)), 10)) else None
        case None => None
      else None
  }

  /** The character at the front of the inside of a string; a byte above 0x7F is passed on as it is. */
  function FirstChar(s: Text): (c: Option<Char>)
    requires s != []
    ensures c.Some? ==> 0 < c.value.size <= |s|
  {
    if s[0] < 0x20 || s[0] == QUOTE then None
    else if s[0] != BACKSLASH then Some(Char([s[0]], 1))
    else if |s| < 2 then None
    else if s[1] == 0x75 then
      match UnicodeEscape(s[2..])
      case Some(c) => Some(Char(c.bytes, 2 + c.size))
      case None => None
    else
      match SimpleEscape(s[1])
      case Some(b) => Some(Char(b, 2))
      case None => None
  }

  function Prepend(a: Text, r: Option<Text>): Option<Text> {
    match r
    case Some(b) => Some(a + b)
    case None => None
  }

  function Unescape(s: Text): Option<Text>
    decreases |s|
  {
    if s == [] then Some([])
    else
      match FirstChar(s)
      case Some(c) => Prepend(c.bytes, Unescape(s[c.size..]))
      case None => None
  }

  lemma UnescapeFirst(s: Text, rest: Text, bytes: Text)
    requires s != [] && FirstChar(s + rest) == Some(Char(bytes, |s|))
    ensures Unescape(s + rest) == Prepend(bytes, Unescape(rest))
  {
    hide FirstChar;
    assert (s + rest)[|s|..] == rest;
  }

  lemma HexDigitValue(n: nat)
    requires n < 16
    ensures HexValue(HexDigit(n)) == Some(n)
  {
  }

  /** Reading back the escape of a single-byte character. */
  lemma FirstCharOfAscii(b: byte, rest: Text)
    requires b < 0x80
    ensures FirstChar(EscapeAscii(b) + rest) == Some(Char([b], |EscapeAscii(b)|))
  {
    var s := EscapeAscii(b) + rest;
    if b < 0x20 && b != 0x0A && b != 0x0D && b != 0x09 {
      HexDigitValue(b / 16);
      HexDigitValue(b % 16);
      var t := s[2..];
      assert t[0] == 0x30 && t[1] == 0x30 && t[2] == HexDigit(b / 16) && t[3] == HexDigit(b % 16);
      assert CodeUnit(t) == Some(b);
      assert Utf8(b) == [b];
    }
  }

  lemma FirstCharOfReplacement(rest: Text)
    ensures FirstChar(ESCAPED_REPLACEMENT + rest) == Some(Char(REPLACEMENT, |ESCAPED_REPLACEMENT|))
  {
    var t := (ESCAPED_REPLACEMENT + rest)[2..];
    assert t[0] == 0x66 && t[1] == 0x66 && t[2] == 0x66 && t[3] == 0x64;
    assert CodeUnit(t) == Some(0xFFFD);
  }

  lemma FirstCharOfHighByte(b: byte, rest: Text)
    requires b >= 0x80
    ensures FirstChar([b] + rest) == Some(Char([b], 1))
  {
    assert ([b] + rest)[0] == b;
  }

  /** Bytes above 0x7F are read back one by one. */
  lemma {:induction false} UnescapePlain(s: Text, rest: Text)
    requires forall i | 0 <= i < |s| :: s[i] >= 0x80
    ensures Unescape(s + rest) == Prepend(s, Unescape(rest))
  {
    hide Unescape, FirstChar;
    if s == [] {
      assert s + rest == rest;
      if Unescape(rest).Some? {
        assert [] + Unescape(rest).value == Unescape(rest).value;
      }
    } else {
      var t := s[1..];
      UnescapePlain(t, rest);
      assert s == [s[0]] + t;
      Associative([s[0]], t, rest);
      FirstCharOfHighByte(s[0], t + rest);
      UnescapeFirst([s[0]], t + rest, [s[0]]);
      if Unescape(rest).Some? {
        Associative([s[0]], t, Unescape(rest).value);
      }
    }
  }

  lemma RuneIsHigh(s: Text)
    requires s != [] && s[0] >= 0x80
    ensures forall i | 0 <= i < RuneSize(s) :: s[i] >= 0x80
  {
  }

  /** What one round of Sanitize keeps. */
  function Decoded(s: Text): Text
    requires s != []
  {
    if RuneSize(s) == 0 then REPLACEMENT else s[..RuneSize(s)]
  }

  lemma AsciiEscapes(b: byte)
    requires b < 0x80
    ensures EscapeAscii(b) != []
  {
  }

  lemma UnescapeHead(s: Text, rest: Text)
    requires s != []
    ensures Unescape(EscapeHead(s) + rest) == Prepend(Decoded(s), Unescape(rest))
  {
    hide Unescape, FirstChar, EscapeAscii;
    if s[0] < 0x80 {
      FirstCharOfAscii(s[0], rest);
      assert EscapeAscii(s[0]) != [] by {
        AsciiEscapes(s[0]);
      }
      UnescapeFirst(EscapeAscii(s[0]), rest, [s[0]]);
      assert s[..1] == [s[0]];
    } else if RuneSize(s) == 0 {
      FirstCharOfReplacement(rest);
      UnescapeFirst(ESCAPED_REPLACEMENT, rest, REPLACEMENT);
    } else {
      RuneIsHigh(s);
      UnescapePlain(s[..RuneSize(s)], rest);
    }
  }

  /** Unescaping gives the bytes back, with each byte that starts no character replaced by U+FFFD. */
  lemma {:induction false} UnescapeEscape(s: Text)
    ensures Unescape(Escape(s)) == Some(Sanitize(s))
    decreases |s|
  {
    hide EscapeHead, FirstChar;
    if s != [] {
      var tail := s[Advance(s)..];
      UnescapeEscape(tail);
      UnescapeHead(s, Escape(tail));
      assert Sanitize(s) == Decoded(s) + Sanitize(tail);
    }
  }

  // ---------- the grammar ----------

  /** What the string grammar in section 7 of RFC 8259 allows at the front of a string's inside: its size, or 0. */
  function CharSize(s: Text): (n: nat)
    requires s != []
    ensures n <= |s|
  {
    if s[0] < 0x20 || s[0] == QUOTE then 0
    else if s[0] != BACKSLASH then RuneSize(s)
    else if |s| < 2 then 0
    else if s[1] != 0x75 then (if SimpleEscape(s[1]).Some? then 2 else 0)
    else if CodeUnit(s[2..]).Some? then 6
    else 0
  }

  predicate StringBody(s: Text)
    decreases |s|
  {
    s == [] || (CharSize(s) > 0 && StringBody(s[CharSize(s)..]))
  }

  lemma StringBodyOfFirst(s: Text, rest: Text)
    requires s != [] && CharSize(s + rest) == |s|
    requires StringBody(rest)
    ensures StringBody(s + rest)
  {
    hide CharSize;
    assert (s + rest)[|s|..] == rest;
  }

  lemma CharSizeOfAscii(b: byte, rest: Text)
    requires b < 0x80
    ensures CharSize(EscapeAscii(b) + rest) == |EscapeAscii(b)|
  {
    var s := EscapeAscii(b) + rest;
    if b < 0x20 && b != 0x0A && b != 0x0D && b != 0x09 {
      HexDigitValue(b / 16);
      HexDigitValue(b % 16);
      var t := s[2..];
      assert t[0] == 0x30 && t[1] == 0x30 && t[2] == HexDigit(b / 16) && t[3] == HexDigit(b % 16);
      assert CodeUnit(t) == Some(b);
    }
  }

  lemma CharSizeOfReplacement(rest: Text)
    ensures CharSize(ESCAPED_REPLACEMENT + rest) == |ESCAPED_REPLACEMENT|
  {
    var t := (ESCAPED_REPLACEMENT + rest)[2..];
    assert t[0] == 0x66 && t[1] == 0x66 && t[2] == 0x66 && t[3] == 0x64;
  }

  lemma CharSizeOfRune(s: Text, rest: Text)
    requires s != [] && s[0] >= 0x80 && RuneSize(s) > 0
    ensures CharSize(s[..RuneSize(s)] + rest) == RuneSize(s)
  {
    var t := s[..RuneSize(s)] + rest;
    assert forall i | 0 <= i < RuneSize(s) :: t[i] == s[i];
  }

  lemma StringBodyOfHead(s: Text, rest: Text)
    requires s != [] && StringBody(rest)
    ensures StringBody(EscapeHead(s) + rest)
  {
    hide StringBody, CharSize, EscapeAscii;
    if s[0] < 0x80 {
      CharSizeOfAscii(s[0], rest);
      AsciiEscapes(s[0]);
      StringBodyOfFirst(EscapeAscii(s[0]), rest);
    } else if RuneSize(s) == 0 {
      CharSizeOfReplacement(rest);
      StringBodyOfFirst(ESCAPED_REPLACEMENT, rest);
    } else {
      CharSizeOfRune(s, rest);
      StringBodyOfFirst(s[..RuneSize(s)], rest);
    }
  }

  /** Whatever the input, the escaped text is the inside of a string of RFC 8259. */
  lemma {:induction false} EscapeIsStringBody(s: Text)
    ensures StringBody(Escape(s))
    decreases |s|
  {
    hide EscapeHead, CharSize;
    if s != [] {
      var tail := s[Advance(s)..];
      EscapeIsStringBody(tail);
      StringBodyOfHead(s, Escape(tail));
    }
  }

  // ---------- no control bytes ----------

  predicate NoControl(s: Text) {
    forall i | 0 <= i < |s| :: s[i] >= 0x20
  }

  lemma NoControlHead(s: Text)
    requires s != []
    ensures NoControl(EscapeHead(s))
  {
    if s[0] >= 0x80 {
      RuneIsHigh(s);
    }
  }

  lemma {:induction false} EscapeHasNoControl(s: Text)
    ensures NoControl(Escape(s))
    decreases |s|
  {
    hide EscapeHead;
    if s != [] {
      NoControlHead(s);
      EscapeHasNoControl(s[Advance(s)..]);
    }
  }

  lemma TokenHasNoControl(s: Text)
    ensures NoControl(Token(s))
  {
    hide Escape, NeedsQuotes;
    EscapeHasNoControl(s);
  }

  lemma SectionHasNoControl(buf: Text, body: Text)
    requires NoControl(buf) && NoControl(body)
    ensures NoControl(Section(buf, body))
  {
  }

  lemma BodyHasNoControl(p: Pair)
    ensures NoControl(Body(p))
  {
    hide Token;
    TokenHasNoControl(p.0);
    TokenHasNoControl(p.1);
  }

  lemma {:induction false} ExtendedHasNoControl(buf: Text, ps: seq<Pair>)
    requires NoControl(buf)
    ensures NoControl(Extended(buf, ps))
    decreases |ps|
  {
    hide Section, Body, NoControl;
    if ps != [] {
      BodyHasNoControl(ps[0]);
      SectionHasNoControl(buf, Body(ps[0]));
      ExtendedHasNoControl(Section(buf, Body(ps[0])), ps[1..]);
    }
  }

  lemma HeaderHasNoControl(cfg: Config, e: Entry)
    requires NoControl(e.time)
    ensures NoControl(Header(cfg, e))
  {
    hide NoControl, Token, Section;
    assert NoControl([]) by {
      EscapeHasNoControl([]);
    }
    TokenHasNoControl(e.level);
    TokenHasNoControl(e.loggerName);
    TokenHasNoControl(e.message);
    if e.caller.Some? {
      TokenHasNoControl(e.caller.value);
    }
    forall buf, body | NoControl(buf) && NoControl(body) ensures NoControl(Section(buf, body)) {
      SectionHasNoControl(buf, body);
    }
  }

  /** Whatever the message, the fields and the stack contain, an entry makes one line. */
  lemma EntryIsOneLine(cfg: Config, e: Entry, attached: seq<Pair>, ps: seq<Pair>) returns (h: Text)
    requires NoControl(e.time)
    ensures Line(cfg, e, Extended([], attached), ps) == h + Ending(cfg)
    ensures NoControl(h)
  {
    hide Header, Extended, Section, Body;
    HeaderHasNoControl(cfg, e);
    ExtendedHasNoControl([], attached);
    h := Header(cfg, e);
    var before := Extended([], attached);
    if before != [] {
      h := h + [SPACE] + before;
    }
    ExtendedHasNoControl(h, ps);
    h := Extended(h, ps);
    if e.stack != [] && cfg.stackKey != [] {
      var stack := Body((cfg.stackKey, e.stack));
      BodyHasNoControl((cfg.stackKey, e.stack));
      SectionHasNoControl(h, stack);
      h := Section(h, stack);
    }
  }

  // ---------- reading tokens ----------

  /** Where the string that starts in `s` is closed: the first quote no backslash escapes. */
  function ClosingQuote(s: Text): (n: Option<nat>)
    ensures n.Some? ==> n.value < |s| && s[n.value] == QUOTE
  {
    if s == [] then None
    else if s[0] == QUOTE then Some(0)
    else
      var step := if s[0] == BACKSLASH then 2 else 1;
      if |s| < step then None
      else
        match ClosingQuote(s[step..])
        case Some(n) => Some(step + n)
        case None => None
  }

  /** A byte that ends an unquoted token. */
  predicate Stops(b: byte) {
    ForcesQuotes(b) && b != BACKSLASH
  }

  function PlainLength(s: Text): (n: nat)
    ensures n <= |s|
  {
    if s == [] || Stops(s[0]) then 0 else 1 + PlainLength(s[1..])
  }

  datatype Read<T> = Read(value: T, rest: Text)

  /** The token at the front of `s`, quoted or not, and what follows it. */
  function ReadToken(s: Text): (r: Option<Read<Text>>)
    ensures r.Some? ==> |r.value.rest| <= |s|
  {
    if s != [] && s[0] == QUOTE then
      match ClosingQuote(s[1..])
      case Some(n) =>
        (match Unescape(s[1..][..n])
         case Some(v) => Some(Read(v, s[1..][n + 1..]))
         case None => None)
      case None => None
    else
      var n := PlainLength(s);
      match Unescape(s[..n])
      case Some(v) => Some(Read(v, s[n..]))
      case None => None
  }

  lemma ClosingQuoteStep(s: Text, rest: Text)
    requires s != [] && s[0] != QUOTE && |s| == if s[0] == BACKSLASH then 2 else 1
    requires ClosingQuote(rest).Some?
    ensures ClosingQuote(s + rest) == Some(|s| + ClosingQuote(rest).value)
  {
    assert (s + rest)[|s|..] == rest;
  }

  predicate Harmless(s: Text, from: nat) {
    forall i | from <= i < |s| :: s[i] != QUOTE && s[i] != BACKSLASH
  }

  /** Bytes that are neither quote nor backslash are passed over. */
  lemma {:induction false} ClosingQuoteAfterPlain(s: Text, rest: Text)
    requires Harmless(s, 0)
    requires ClosingQuote(rest).Some?
    ensures ClosingQuote(s + rest) == Some(|s| + ClosingQuote(rest).value)
  {
    hide ClosingQuote;
    if s == [] {
      assert s + rest == rest;
    } else {
      assert s == [s[0]] + s[1..];
      Associative([s[0]], s[1..], rest);
      ClosingQuoteAfterPlain(s[1..], rest);
      ClosingQuoteStep([s[0]], s[1..] + rest);
    }
  }

  lemma ClosingQuoteAfterEscape(s: Text, rest: Text)
    requires |s| >= 2 && s[0] == BACKSLASH && Harmless(s, 2)
    requires ClosingQuote(rest).Some?
    ensures ClosingQuote(s + rest) == Some(|s| + ClosingQuote(rest).value)
  {
    hide ClosingQuote;
    ClosingQuoteAfterPlain(s[2..], rest);
    ClosingQuoteStep(s[..2], s[2..] + rest);
    Associative(s[..2], s[2..], rest);
    assert s == s[..2] + s[2..];
  }

  /** What is written is a plain piece, or a backslash, the byte it escapes and a plain piece. */
  lemma EscapeHeadShape(s: Text)
    requires s != []
    ensures Harmless(EscapeHead(s), 0)
         || (|EscapeHead(s)| >= 2 && EscapeHead(s)[0] == BACKSLASH && Harmless(EscapeHead(s), 2))
  {
    if s[0] >= 0x80 {
      RuneIsHigh(s);
    }
  }

  lemma ClosingQuoteAfterHead(s: Text, rest: Text)
    requires s != [] && ClosingQuote(rest).Some?
    ensures ClosingQuote(EscapeHead(s) + rest) == Some(|EscapeHead(s)| + ClosingQuote(rest).value)
  {
    hide ClosingQuote, EscapeHead;
    EscapeHeadShape(s);
    if Harmless(EscapeHead(s), 0) {
      ClosingQuoteAfterPlain(EscapeHead(s), rest);
    } else {
      ClosingQuoteAfterEscape(EscapeHead(s), rest);
    }
  }

  /** No quote inside an escaped text can be taken for the closing one. */
  lemma {:induction false} ClosingQuoteIsFound(s: Text, rest: Text)
    ensures ClosingQuote(Escape(s) + ([QUOTE] + rest)) == Some(|Escape(s)|)
    decreases |s|
  {
    hide EscapeHead, Advance;
    if s == [] {
      assert Escape(s) + ([QUOTE] + rest) == [QUOTE] + rest;
    } else {
      var tail := s[Advance(s)..];
      ClosingQuoteIsFound(tail, rest);
      ClosingQuoteAfterHead(s, Escape(tail) + ([QUOTE] + rest));
      Associative(EscapeHead(s), Escape(tail), [QUOTE] + rest);
    }
  }

  predicate NothingStops(s: Text) {
    forall i | 0 <= i < |s| :: !Stops(s[i])
  }

  lemma {:induction false} PlainLengthIsFound(s: Text, rest: Text)
    requires NothingStops(s)
    requires rest == [] || Stops(rest[0])
    ensures PlainLength(s + rest) == |s|
  {
    if s == [] {
      assert s + rest == rest;
    } else {
      assert (s + rest)[1..] == s[1..] + rest;
      PlainLengthIsFound(s[1..], rest);
    }
  }

  lemma UnquotedHeadDoesNotStop(s: Text)
    requires s != [] && !ForcesQuotes(s[0])
    ensures NothingStops(EscapeHead(s))
  {
    if s[0] >= 0x80 {
      RuneIsHigh(s);
    }
  }

  lemma {:induction false} UnquotedEscapeDoesNotStop(s: Text)
    requires forall i | 0 <= i < |s| :: !ForcesQuotes(s[i])
    ensures NothingStops(Escape(s))
    decreases |s|
  {
    hide EscapeHead, Advance;
    if s != [] {
      UnquotedHeadDoesNotStop(s);
      UnquotedEscapeDoesNotStop(s[Advance(s)..]);
    }
  }

  lemma UnquotedStartsNoQuote(s: Text)
    requires NothingStops(s) && s != []
    ensures s[0] != QUOTE
  {
  }

  lemma ReadQuotedBack(s: Text, rest: Text)
    ensures ReadToken([QUOTE] + Escape(s) + [QUOTE] + rest) == Some(Read(Sanitize(s), rest))
  {
    hide Escape, Unescape, Sanitize, ClosingQuote;
    UnescapeEscape(s);
    ClosingQuoteIsFound(s, rest);
    var t := [QUOTE] + Escape(s) + [QUOTE] + rest;
    assert t[1..] == Escape(s) + ([QUOTE] + rest);
    assert t[1..][..|Escape(s)|] == Escape(s);
    assert t[1..][|Escape(s)| + 1..] == rest;
  }

  lemma ReadUnquotedBack(s: Text, rest: Text)
    requires forall i | 0 <= i < |s| :: !ForcesQuotes(s[i])
    requires rest == [] || (Stops(rest[0]) && rest[0] != QUOTE)
    ensures ReadToken(Escape(s) + rest) == Some(Read(Sanitize(s), rest))
  {
    hide Escape, Unescape, Sanitize, PlainLength, ForcesQuotes;
    UnescapeEscape(s);
    UnquotedEscapeDoesNotStop(s);
    if Escape(s) != [] {
      UnquotedStartsNoQuote(Escape(s));
    }
    PlainLengthIsFound(Escape(s), rest);
    var t := Escape(s) + rest;
    assert t[..|Escape(s)|] == Escape(s) && t[|Escape(s)|..] == rest;
  }

  /** A token is read back, with bytes that are not UTF-8 replaced, wherever something follows that ends it. */
  lemma ReadTokenBack(s: Text, rest: Text)
    requires rest == [] || (Stops(rest[0]) && rest[0] != QUOTE)
    ensures ReadToken(Token(s) + rest) == Some(Read(Sanitize(s), rest))
  {
    hide Escape, ReadToken, Sanitize, ForcesQuotes;
    if NeedsQuotes(s) {
      ReadQuotedBack(s, rest);
    } else {
      assert forall i | 0 <= i < |s| :: s[i] in s;
      ReadUnquotedBack(s, rest);
    }
  }

  // ---------- reading sections ----------

  /** What stands in a pair of brackets: a value alone, or a key and a value. */
  datatype Part = Single(value: Text) | Paired(key: Text, val: Text)

  function PartBody(p: Part): Text {
    match p
    case Single(v) => Token(v)
    case Paired(k, v) => Body((k, v))
  }

  /** The bracketed part at the front of `s`, and what follows it. */
  function ReadPart(s: Text): (r: Option<Read<Part>>)
    ensures r.Some? ==> |r.value.rest| < |s|
  {
    if s == [] || s[0] != LEFT then None
    else
      match ReadToken(s[1..])
      case Some(k) =>
        (if k.rest == [] then None
         else if k.rest[0] == RIGHT then Some(Read(Single(k.value), k.rest[1..]))
         else if k.rest[0] != EQUALS then None
         else
           match ReadToken(k.rest[1..])
           case Some(v) =>
             if v.rest == [] || v.rest[0] != RIGHT then None else Some(Read(Paired(k.value, v.value), v.rest[1..]))
           case None => None)
      case None => None
  }

  /** A list of parts, each bracketed, with one space between them. */
  function ReadParts(s: Text): Option<seq<Part>>
    decreases |s|
  {
    if s == [] then Some([])
    else
      match ReadPart(s)
      case None => None
      case Some(first) =>
        if first.rest == [] then Some([first.value])
        else if first.rest[0] != SPACE || |first.rest| == 1 then None
        else
          match ReadParts(first.rest[1..])
          case Some(others) => Some([first.value] + others)
          case None => None
  }

  function SanitizePart(p: Part): Part {
    match p
    case Single(v) => Single(Sanitize(v))
    case Paired(k, v) => Paired(Sanitize(k), Sanitize(v))
  }

  function SanitizeParts(ps: seq<Part>): (r: seq<Part>)
    ensures |r| == |ps|
    ensures forall i | 0 <= i < |ps| :: r[i] == SanitizePart(ps[i])
  {
    if ps == [] then [] else [SanitizePart(ps[0])] + SanitizeParts(ps[1..])
  }

  lemma ReadPartBack(p: Part, rest: Text)
    ensures ReadPart(Section([], PartBody(p)) + rest) == Some(Read(SanitizePart(p), rest))
  {
    hide ReadToken, Token, Sanitize;
    var s := Section([], PartBody(p)) + rest;
    assert ([RIGHT] + rest)[1..] == rest;
    match p
    case Single(v) =>
      assert s[1..] == Token(v) + ([RIGHT] + rest);
      ReadTokenBack(v, [RIGHT] + rest);
    case Paired(key, val) =>
      var k, v := Token(key), Token(val);
      assert s[1..] == k + ([EQUALS] + (v + ([RIGHT] + rest)));
      ReadTokenBack(key, [EQUALS] + (v + ([RIGHT] + rest)));
      assert ([EQUALS] + (v + ([RIGHT] + rest)))[1..] == v + ([RIGHT] + rest);
      ReadTokenBack(val, [RIGHT] + rest);
  }

  /** The sections from the left. */
  function Joined(ps: seq<Part>): (t: Text)
    requires ps != []
    ensures t != [] && t[0] == LEFT
  {
    Section([], PartBody(ps[0])) + if |ps| == 1 then [] else [SPACE] + Joined(ps[1..])
  }

  /** `buf` after sections were added to it. */
  function WithParts(buf: Text, ps: seq<Part>): Text
    decreases |ps|
  {
    if ps == [] then buf else WithParts(Section(buf, PartBody(ps[0])), ps[1..])
  }

  lemma SectionAfter(buf: Text, body: Text)
    ensures Section(buf, body) == (if buf == [] then [] else buf + [SPACE]) + Section([], body)
  {
  }

  /** Adding sections one after the other to a buffer appends them joined by spaces. */
  lemma {:induction false} WithPartsIsJoined(buf: Text, ps: seq<Part>)
    requires ps != []
    ensures WithParts(buf, ps) == (if buf == [] then [] else buf + [SPACE]) + Joined(ps)
    decreases |ps|
  {
    hide Section, PartBody;
    var start := if buf == [] then [] else buf + [SPACE];
    var first := Section([], PartBody(ps[0]));
    SectionAfter(buf, PartBody(ps[0]));
    if |ps| == 1 {
      assert ps[1..] == [];
      assert first + [] == first;
    } else {
      WithPartsIsJoined(Section(buf, PartBody(ps[0])), ps[1..]);
      Associative(start, first, [SPACE]);
      Associative(start, first + [SPACE], Joined(ps[1..]));
      Associative(first, [SPACE], Joined(ps[1..]));
    }
  }

  lemma {:induction false} WithPartsAppend(buf: Text, a: seq<Part>, b: seq<Part>)
    ensures WithParts(buf, a + b) == WithParts(WithParts(buf, a), b)
    decreases |a|
  {
    if a == [] {
      assert a + b == b;
    } else {
      assert (a + b)[0] == a[0] && (a + b)[1..] == a[1..] + b;
      WithPartsAppend(Section(buf, PartBody(a[0])), a[1..], b);
    }
  }

  lemma {:induction false} ReadJoinedBack(ps: seq<Part>)
    requires ps != []
    ensures ReadParts(Joined(ps)) == Some(SanitizeParts(ps))
    decreases |ps|
  {
    hide ReadPart, Section, PartBody, SanitizePart;
    if |ps| == 1 {
      ReadPartBack(ps[0], []);
      assert SanitizeParts(ps) == [SanitizePart(ps[0])];
    } else {
      var tail := Joined(ps[1..]);
      ReadPartBack(ps[0], [SPACE] + tail);
      assert ([SPACE] + tail)[1..] == tail;
      ReadJoinedBack(ps[1..]);
    }
  }

  // ---------- reading fields ----------

  function Fields(ps: seq<Pair>): (r: seq<Part>)
    ensures |r| == |ps|
    ensures forall i | 0 <= i < |ps| :: r[i] == Paired(ps[i].0, ps[i].1)
  {
    if ps == [] then [] else [Paired(ps[0].0, ps[0].1)] + Fields(ps[1..])
  }

  /** The parts as fields, if they all are. */
  function AsFields(ps: seq<Part>): Option<seq<Pair>> {
    if ps == [] then Some([])
    else if ps[0].Single? then None
    else
      match AsFields(ps[1..])
      case Some(others) => Some([(ps[0].key, ps[0].val)] + others)
      case None => None
  }

  /** A list of fields, each bracketed, with one space between them. */
  function ReadFields(s: Text): Option<seq<Pair>> {
    match ReadParts(s)
    case Some(ps) => AsFields(ps)
    case None => None
  }

  function SanitizeAll(ps: seq<Pair>): (r: seq<Pair>)
    ensures |r| == |ps|
    ensures forall i | 0 <= i < |ps| :: r[i] == (Sanitize(ps[i].0), Sanitize(ps[i].1))
  {
    if ps == [] then [] else [(Sanitize(ps[0].0), Sanitize(ps[0].1))] + SanitizeAll(ps[1..])
  }

  lemma {:induction false} AsFieldsOfFields(ps: seq<Pair>)
    ensures AsFields(Fields(ps)) == Some(ps)
  {
    if ps != [] {
      assert Fields(ps)[1..] == Fields(ps[1..]);
      AsFieldsOfFields(ps[1..]);
      assert ps == [ps[0]] + ps[1..];
    }
  }

  lemma {:induction false} ExtendedIsWithParts(buf: Text, ps: seq<Pair>)
    ensures Extended(buf, ps) == WithParts(buf, Fields(ps))
    decreases |ps|
  {
    hide Section, Body;
    if ps != [] {
      assert Fields(ps)[1..] == Fields(ps[1..]);
      assert PartBody(Fields(ps)[0]) == Body(ps[0]);
      ExtendedIsWithParts(Section(buf, Body(ps[0])), ps[1..]);
    }
  }

  /** The fields are read back whatever bytes they hold, those that are not UTF-8 replaced. */
  lemma FieldsAreReadBack(ps: seq<Pair>)
    ensures ReadFields(Extended([], ps)) == Some(SanitizeAll(ps))
  {
    hide Sanitize;
    ExtendedIsWithParts([], ps);
    if ps != [] {
      WithPartsIsJoined([], Fields(ps));
      assert [] + Joined(Fields(ps)) == Joined(Fields(ps));
      ReadJoinedBack(Fields(ps));
      assert SanitizeParts(Fields(ps)) == Fields(SanitizeAll(ps));
      AsFieldsOfFields(SanitizeAll(ps));
    }
  }

  predicate AllValid(ps: seq<Pair>) {
    forall i | 0 <= i < |ps| :: ValidUtf8(ps[i].0) && ValidUtf8(ps[i].1)
  }

  lemma SanitizeAllKeepsValid(ps: seq<Pair>)
    requires AllValid(ps)
    ensures SanitizeAll(ps) == ps
  {
    forall i | 0 <= i < |ps| ensures SanitizeAll(ps)[i] == ps[i] {
      SanitizeKeepsValid(ps[i].0);
      SanitizeKeepsValid(ps[i].1);
    }
  }

  /** Fields in valid UTF-8 come back as they were. */
  lemma FieldsRoundTrip(ps: seq<Pair>)
    requires AllValid(ps)
    ensures ReadFields(Extended([], ps)) == Some(ps)
  {
    FieldsAreReadBack(ps);
    SanitizeAllKeepsValid(ps);
  }

  /** Lists of fields written alike agree once sanitized; in valid UTF-8 they are the same list. */
  lemma UniquelyDecodable(ps: seq<Pair>, qs: seq<Pair>)
    ensures Extended([], ps) == Extended([], qs) ==> SanitizeAll(ps) == SanitizeAll(qs)
    ensures AllValid(ps) && AllValid(qs) ==> (Extended([], ps) == Extended([], qs) <==> ps == qs)
  {
    FieldsAreReadBack(ps);
    FieldsAreReadBack(qs);
    if AllValid(ps) && AllValid(qs) {
      SanitizeAllKeepsValid(ps);
      SanitizeAllKeepsValid(qs);
    }
  }
}
