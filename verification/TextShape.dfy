/** What the text encoder's output looks like, byte for byte, and how it falls apart at its spaces. */
module TextShape {
  import opened Bytes
  import opened TextEncoding
  import opened TextParser
  import TextEncoder
  import TextLine

  /** The bytes of a text in ASCII. */
  function Ascii(s: string): (t: Text)
    requires forall i | 0 <= i < |s| :: s[i] < 128 as char
    ensures |t| == |s| && forall i | 0 <= i < |s| :: t[i] == s[i] as int
  {
    seq(|s|, i requires 0 <= i < |s| => s[i] as int)
  }

  // ---------- which bytes are characters ----------

  /** A Unicode scalar value: any code point but the surrogates. */
  predicate IsScalar(c: int) {
    0 <= c < 0x110000 && !(0xD800 <= c < 0xE000)
  }

  /** Six more bits. */
  function More(n: nat, b: byte): nat
    requires b >= 0x80
  {
    n * 64 + (b as int - 0x80)
  }

  lemma MoreIsLess(n: nat, b: byte)
    requires 0x80 <= b < 0xC0
    ensures More(n, b) / 64 == n && 0x80 + More(n, b) % 64 == b
  {
  }

  lemma DivisionsCompose(c: nat)
    ensures c / 4096 == c / 64 / 64 && c / 262144 == c / 64 / 64 / 64
  {
  }

  /** The code point written by the sequence that `s` starts with. */
  function Rune(s: Text): nat
    requires s != [] && RuneSize(s) > 0
  {
    var n, b := RuneSize(s), s[0] as int;
    if n == 1 then b
    else if n == 2 then More(b - 0xC0, s[1])
    else if n == 3 then More(More(b - 0xE0, s[1]), s[2])
    else More(More(More(b - 0xF0, s[1]), s[2]), s[3])
  }

  lemma RuneIsScalar(s: Text)
    requires s != [] && RuneSize(s) > 0
    ensures IsScalar(Rune(s)) && Utf8(Rune(s)) == s[..RuneSize(s)]
  {
    var n, b, c := RuneSize(s), s[0] as int, Rune(s);
    DivisionsCompose(c);
    if n == 2 {
      MoreIsLess(b - 0xC0, s[1]);
    } else if n == 3 {
      var m := More(b - 0xE0, s[1]);
      MoreIsLess(b - 0xE0, s[1]);
      MoreIsLess(m, s[2]);
    } else if n == 4 {
      var m1 := More(b - 0xF0, s[1]);
      var m2 := More(m1, s[2]);
      MoreIsLess(b - 0xF0, s[1]);
      MoreIsLess(m1, s[2]);
      MoreIsLess(m2, s[3]);
    }
  }

  /** The groups of six bits a code point is cut into. */
  lemma Groups(c: nat)
    requires c < 0x110000
    ensures var x, y := c / 64, c / 4096;
      && c == 64 * x + c % 64 && x == 64 * y + x % 64 && y == 64 * (c / 262144) + y % 64
  {
    DivisionsCompose(c);
  }

  lemma OneByteRune(c: nat, rest: Text)
    requires c < 0x80
    ensures RuneSize([c] + rest) == 1
  {
  }

  lemma TwoByteRune(c: nat, rest: Text)
    requires 0x80 <= c < 0x800
    ensures RuneSize(Utf8(c) + rest) == 2
  {
    Groups(c);
    var s := Utf8(c) + rest;
    assert s[0] == 0xC0 + c / 64 && s[1] == 0x80 + c % 64;
  }

  lemma ThreeByteRune(c: nat, rest: Text)
    requires 0x800 <= c < 0x10000 && IsScalar(c)
    ensures RuneSize(Utf8(c) + rest) == 3
  {
    Groups(c);
    var s := Utf8(c) + rest;
    assert s[0] == 0xE0 + c / 4096 && s[1] == 0x80 + c / 64 % 64 && s[2] == 0x80 + c % 64;
  }

  lemma FourByteRune(c: nat, rest: Text)
    requires 0x10000 <= c < 0x110000
    ensures RuneSize(Utf8(c) + rest) == 4
  {
    Groups(c);
    var s := Utf8(c) + rest;
    assert s[0] == 0xF0 + c / 262144 && s[1] == 0x80 + c / 4096 % 64;
    assert s[2] == 0x80 + c / 64 % 64 && s[3] == 0x80 + c % 64;
  }

  lemma ScalarIsRune(c: nat, rest: Text)
    requires IsScalar(c)
    ensures RuneSize(Utf8(c) + rest) == |Utf8(c)|
  {
    hide RuneSize;
    if c < 0x80 {
      assert RuneSize([c] + rest) == 1 by {
        OneByteRune(c, rest);
      }
    } else if c < 0x800 {
      TwoByteRune(c, rest);
    } else if c < 0x10000 {
      ThreeByteRune(c, rest);
    } else {
      FourByteRune(c, rest);
    }
  }

  /** The encoder takes exactly the UTF-8 of scalar values for characters (section 3 of RFC 3629). */
  lemma RuneSizeIff(s: Text, n: nat)
    requires s != [] && n > 0
    ensures RuneSize(s) == n <==> exists c :: IsScalar(c) && Utf8(c) <= s && |Utf8(c)| == n
  {
    if RuneSize(s) == n {
      RuneIsScalar(s);
      assert Utf8(Rune(s)) <= s;
    }
    forall c | IsScalar(c) && Utf8(c) <= s && |Utf8(c)| == n ensures RuneSize(s) == n {
      ScalarIsRune(c, s[n..]);
      assert s == Utf8(c) + s[n..];
    }
  }

  // ---------- which texts are quoted ----------

  /** Blanks and control characters, and the bytes `\`, `"`, `[`, `]` and `=`. */
  predicate Marked(s: Text) {
    exists i | 0 <= i < |s| :: s[i] <= 0x20 || s[i] in {0x5C, 0x22, 0x5B, 0x5D, 0x3D}
  }

  /** A text is written between quotes exactly if it has one of these bytes. */
  lemma TokenIsQuotedIff(s: Text)
    ensures Marked(s) <==> Token(s) != [] && Token(s)[0] == 0x22
    ensures Token(s) == if Marked(s) then Ascii("\"") + Escape(s) + Ascii("\"") else Escape(s)
  {
    hide Escape;
    assert Ascii("\"") == [QUOTE];
    if NeedsQuotes(s) {
      var b :| b in s && ForcesQuotes(b);
      var i :| 0 <= i < |s| && s[i] == b;
    } else {
      assert forall i | 0 <= i < |s| :: s[i] in s;
      UnquotedEscapeDoesNotStop(s);
      if Escape(s) != [] {
        UnquotedStartsNoQuote(Escape(s));
      }
    }
  }

  // ---------- which texts are escaped ----------

  /** No control characters, backslashes or quotes. */
  predicate Clean(s: Text) {
    forall i | 0 <= i < |s| :: s[i] >= 0x20 && s[i] != 0x5C && s[i] != 0x22
  }

  lemma EscapeHeadLength(s: Text)
    requires s != []
    ensures |EscapeHead(s)| >= Advance(s)
    ensures |EscapeHead(s)| == Advance(s) <==> RuneSize(s) > 0 && Clean(s[..Advance(s)])
    ensures |EscapeHead(s)| == Advance(s) ==> EscapeHead(s) == s[..Advance(s)]
  {
    if s[0] >= 0x80 {
      RuneIsHigh(s);
    }
  }

  lemma CleanParts(a: Text, b: Text)
    ensures Clean(a + b) <==> Clean(a) && Clean(b)
    ensures Clean([])
  {
    assert forall i | 0 <= i < |b| :: b[i] == (a + b)[|a| + i];
    assert forall i | 0 <= i < |a| :: a[i] == (a + b)[i];
  }

  /** Escaping never makes a text shorter. It leaves exactly the texts in valid UTF-8 alone that have no control
      character, backslash or quote, and makes every other one longer. */
  lemma {:induction false} EscapeIsIdentityIff(s: Text)
    ensures |Escape(s)| >= |s|
    ensures |Escape(s)| == |s| <==> ValidUtf8(s) && Clean(s)
    ensures Escape(s) == s <==> ValidUtf8(s) && Clean(s)
    decreases |s|
  {
    hide EscapeHead, RuneSize, Clean;
    if s == [] {
      assert Clean(s) by {
        CleanParts([], []);
      }
    } else {
      var head, tail := s[..Advance(s)], s[Advance(s)..];
      assert s == head + tail;
      EscapeHeadLength(s);
      EscapeIsIdentityIff(tail);
      CleanParts(head, tail);
    }
  }

  const HEX := "0123456789abcdef"

  /** How a single-byte character is spelled. */
  function Spelling(b: byte): (s: string)
    requires b < 0x80
    ensures forall i | 0 <= i < |s| :: s[i] < 128 as char
  {
    match b
    case 0x22 => "\\\""
    case 0x5C => "\\\\"
    case 0x0A => "\\n"
    case 0x0D => "\\r"
    case 0x09 => "\\t"
    case _ => if b < 0x20 then "\\u00" + [HEX[b / 16], HEX[b % 16]] else [b as char]
  }

  lemma SpelledAsEscaped(b: byte)
    requires b < 0x80
    ensures Ascii(Spelling(b)) == EscapeAscii(b)
  {
  }

  lemma AsciiEscapesFirst(b: byte, rest: Text)
    requires b < 0x80
    ensures Escape([b] + rest) == EscapeAscii(b) + Escape(rest)
  {
    hide EscapeAscii;
    assert ([b] + rest)[1..] == rest;
  }

  /** Every single-byte character, wherever it stands, is written as it is spelled. */
  lemma CharactersAreSpelled(b: byte, rest: Text)
    requires b < 0x80
    ensures Escape([b] + rest) == Ascii(Spelling(b)) + Escape(rest)
  {
    hide Spelling, Escape;
    SpelledAsEscaped(b);
    AsciiEscapesFirst(b, rest);
  }

  // ---------- falling apart at spaces ----------

  /** `p` in front of the first of some pieces. */
  function Glued(p: Text, ws: seq<Text>): seq<Text>
    requires ws != []
  {
    [p + ws[0]] + ws[1..]
  }

  /** The pieces between the spaces that stand outside quotes. */
  function Split(s: Text): (ws: seq<Text>)
    ensures ws != []
    decreases |s|
  {
    if s == [] then [[]]
    else if s[0] == 0x20 then [[]] + Split(s[1..])
    else
      var n := if s[0] != 0x22 then 1 else match ClosingQuote(s[1..]) case Some(k) => k + 2 case None => 1;
      Glued(s[..n], Split(s[n..]))
  }

  lemma GluedTwice(p: Text, q: Text, ws: seq<Text>)
    requires ws != []
    ensures Glued(p, Glued(q, ws)) == Glued(p + q, ws)
  {
    Associative(p, q, ws[0]);
  }

  lemma SplitAfterOne(b: byte, rest: Text)
    requires b != 0x20 && b != 0x22
    ensures Split([b] + rest) == Glued([b], Split(rest))
  {
    var s := [b] + rest;
    assert s[..1] == [b] && s[1..] == rest;
  }

  lemma {:induction false} SplitAfterPlain(s: Text, rest: Text)
    requires forall i | 0 <= i < |s| :: s[i] != 0x20 && s[i] != 0x22
    ensures Split(s + rest) == Glued(s, Split(rest))
    decreases |s|
  {
    hide Split;
    if s == [] {
      assert s + rest == rest && [] + Split(rest)[0] == Split(rest)[0];
    } else {
      var t := s[1..];
      SplitAfterPlain(t, rest);
      SplitAfterOne(s[0], t + rest);
      GluedTwice([s[0]], t, Split(rest));
      assert [s[0]] + t == s && [s[0]] + (t + rest) == s + rest;
    }
  }

  lemma SplitAfterQuoted(v: Text, rest: Text)
    ensures Split([QUOTE] + Escape(v) + [QUOTE] + rest) == Glued([QUOTE] + Escape(v) + [QUOTE], Split(rest))
  {
    hide Escape, ClosingQuote;
    var q := [QUOTE] + Escape(v) + [QUOTE];
    var s := q + rest;
    assert s[1..] == Escape(v) + ([QUOTE] + rest);
    ClosingQuoteIsFound(v, rest);
    assert s[..|q|] == q && s[|q|..] == rest;
  }

  lemma SplitAfterToken(v: Text, rest: Text)
    ensures Split(Token(v) + rest) == Glued(Token(v), Split(rest))
  {
    hide Escape, Split;
    if NeedsQuotes(v) {
      SplitAfterQuoted(v, rest);
    } else {
      assert forall i | 0 <= i < |v| :: v[i] in v;
      UnquotedEscapeDoesNotStop(v);
      SplitAfterPlain(Escape(v), rest);
    }
  }

  lemma SplitAfterBody(p: Part, rest: Text)
    ensures Split(PartBody(p) + rest) == Glued(PartBody(p), Split(rest))
  {
    hide Token, Split;
    match p
    case Single(v) => SplitAfterToken(v, rest);
    case Paired(key, val) =>
      var k, v := Token(key), Token(val);
      assert PartBody(p) + rest == k + ([EQUALS] + (v + rest));
      SplitAfterToken(val, rest);
      SplitAfterOne(EQUALS, v + rest);
      SplitAfterToken(key, [EQUALS] + (v + rest));
      GluedTwice([EQUALS], v, Split(rest));
      GluedTwice(k, [EQUALS] + v, Split(rest));
      assert k + ([EQUALS] + v) == PartBody(p);
  }

  /** The part in its brackets. */
  function Bracketed(p: Part): Text {
    Ascii("[") + PartBody(p) + Ascii("]")
  }

  lemma SplitAfterPart(p: Part, rest: Text)
    ensures Split(Bracketed(p) + rest) == Glued(Bracketed(p), Split(rest))
  {
    hide PartBody, Split;
    assert Ascii("[") == [LEFT] && Ascii("]") == [RIGHT];
    var b := PartBody(p);
    assert Bracketed(p) + rest == [LEFT] + (b + ([RIGHT] + rest));
    SplitAfterOne(RIGHT, rest);
    SplitAfterBody(p, [RIGHT] + rest);
    SplitAfterOne(LEFT, b + ([RIGHT] + rest));
    GluedTwice(b, [RIGHT], Split(rest));
    GluedTwice([LEFT], b + [RIGHT], Split(rest));
    assert [LEFT] + (b + [RIGHT]) == Bracketed(p);
  }

  function Pieces(ps: seq<Part>): (ws: seq<Text>)
    ensures |ws| == |ps| && forall i | 0 <= i < |ps| :: ws[i] == Bracketed(ps[i])
  {
    seq(|ps|, i requires 0 <= i < |ps| => Bracketed(ps[i]))
  }

  lemma BracketedIsSection(p: Part)
    ensures Section([], PartBody(p)) == Bracketed(p)
  {
    hide PartBody;
    assert Ascii("[") == [LEFT] && Ascii("]") == [RIGHT];
  }

  lemma NothingToSplit()
    ensures Split([]) == [[]]
  {
  }

  lemma SplitAtSpace(s: Text)
    ensures Split([SPACE] + s) == [[]] + Split(s)
  {
    assert ([SPACE] + s)[1..] == s;
  }

  /** No section has a space outside quotes, so the spaces outside quotes are those between the sections. */
  lemma {:induction false} SectionsFallApart(ps: seq<Part>)
    requires ps != []
    ensures Split(Joined(ps)) == Pieces(ps)
    decreases |ps|
  {
    hide Bracketed, PartBody, Split;
    var first := Bracketed(ps[0]);
    assert Section([], PartBody(ps[0])) == first by {
      BracketedIsSection(ps[0]);
    }
    if |ps| == 1 {
      SplitAfterPart(ps[0], []);
      NothingToSplit();
      assert first + [] == first;
      assert Pieces(ps) == [first];
    } else {
      var tail := Joined(ps[1..]);
      SectionsFallApart(ps[1..]);
      SplitAfterPart(ps[0], [SPACE] + tail);
      SplitAtSpace(tail);
      assert first + [] == first;
      assert Pieces(ps) == [first] + Pieces(ps[1..]);
    }
  }

  lemma BracketBytes()
    ensures Ascii(" ") == [SPACE] && Ascii("[") == [LEFT] && Ascii("] ") == [RIGHT, SPACE]
  {
  }

  lemma TimeComesFirst(cfg: Config, e: Entry, ps: seq<Part>)
    requires ps != []
    ensures WithParts(TextLine.TimeStart(cfg, e), ps)
         == (if cfg.timeKey != [] then Ascii("[") + e.time + Ascii("] ") else []) + Joined(ps)
  {
    hide Joined, WithParts, Ascii;
    BracketBytes();
    WithPartsIsJoined(TextLine.TimeStart(cfg, e), ps);
    assert [LEFT] + e.time + [RIGHT] + [SPACE] == [LEFT] + e.time + [RIGHT, SPACE];
  }

  /** A whole line: after its time, if there is one, splitting at the spaces outside quotes gives its sections. */
  lemma LineFallsApart(cfg: Config, e: Entry, attached: seq<Pair>, fields: seq<Pair>) returns (lead: Text, body: Text)
    requires TextLine.LineParts(cfg, e, attached + fields) != []
    ensures Line(cfg, e, Extended([], attached), fields) == lead + body + Ending(cfg)
    ensures lead == (if TextLine.Indents(cfg, e, attached) then Ascii(" ") else [])
                    + if cfg.timeKey != [] then Ascii("[") + e.time + Ascii("] ") else []
    ensures Split(body) == Pieces(TextLine.LineParts(cfg, e, attached + fields))
  {
    hide Line, Ending, TextLine.LineParts, TextLine.Indents, Joined, WithParts, Extended, Split, Ascii;
    var ps := TextLine.LineParts(cfg, e, attached + fields);
    var indent := if TextLine.Indents(cfg, e, attached) then Ascii(" ") else [];
    var time := if cfg.timeKey != [] then Ascii("[") + e.time + Ascii("] ") else [];
    lead, body := indent + time, Joined(ps);
    BracketBytes();
    TextLine.LineIsIndented(cfg, e, attached, fields);
    TimeComesFirst(cfg, e, ps);
    Associative(indent, time, body);
    Associative(indent, time + body, Ending(cfg));
    SectionsFallApart(ps);
  }

  // ---------- a typical line ----------

  /** Printable ASCII without blanks that needs no quotes. */
  predicate Bare(s: Text) {
    forall i | 0 <= i < |s| :: 0x20 < s[i] < 0x7F && s[i] !in {0x5C, 0x22, 0x5B, 0x5D, 0x3D}
  }

  /** Printable ASCII with a blank in it. */
  predicate Sentence(s: Text) {
    && (forall i | 0 <= i < |s| :: 0x20 <= s[i] < 0x7F && s[i] !in {0x5C, 0x22})
    && exists i | 0 <= i < |s| :: s[i] == 0x20
  }

  lemma {:induction false} AsciiIsValid(s: Text)
    requires forall i | 0 <= i < |s| :: s[i] < 0x80
    ensures ValidUtf8(s)
    decreases |s|
  {
    if s != [] {
      AsciiIsValid(s[1..]);
    }
  }

  lemma BareIsWritten(s: Text)
    requires Bare(s)
    ensures Token(s) == s
  {
    hide Escape, Token;
    AsciiIsValid(s);
    EscapeIsIdentityIff(s);
    TokenIsQuotedIff(s);
  }

  lemma SentenceIsQuoted(s: Text)
    requires Sentence(s)
    ensures Token(s) == Ascii("\"") + s + Ascii("\"")
  {
    hide Escape, Token;
    AsciiIsValid(s);
    EscapeIsIdentityIff(s);
    TokenIsQuotedIff(s);
  }

  lemma SentenceIsSomething(s: Text)
    requires Sentence(s)
    ensures s != []
  {
  }

  lemma TwoSections(a: Text, b: Text)
    ensures Section(Section([], a), Ascii("\"") + b + Ascii("\""))
         == Ascii("[") + a + Ascii("] [\"") + b + Ascii("\"]")
  {
    assert Ascii("\"") == [QUOTE] && Ascii("[") == [LEFT];
    assert Ascii("] [\"") == [RIGHT, SPACE, LEFT, QUOTE] && Ascii("\"]") == [QUOTE, RIGHT];
    hide Ascii;
    assert [LEFT] + a + [RIGHT] + [SPACE] + [LEFT] + ([QUOTE] + b + [QUOTE]) + [RIGHT]
        == [LEFT] + a + [RIGHT, SPACE, LEFT, QUOTE] + b + [QUOTE, RIGHT];
  }

  lemma TypicalHeader(cfg: Config, e: Entry)
    requires cfg.timeKey == [] && cfg.levelKey != [] && e.loggerName == [] && e.caller.None?
    requires Bare(e.level) && Sentence(e.message)
    ensures Header(cfg, e) == Ascii("[") + e.level + Ascii("] [\"") + e.message + Ascii("\"]")
  {
    hide Token, Sentence, Bare, Section, Ascii;
    assert e.message != [] by {
      SentenceIsSomething(e.message);
    }
    assert Header(cfg, e) == Section(Section([], Token(e.level)), Token(e.message));
    BareIsWritten(e.level);
    SentenceIsQuoted(e.message);
    TwoSections(e.level, e.message);
  }

  lemma TypicalField(h: Text, key: Text, val: Text)
    requires h != [] && Bare(key) && Bare(val)
    ensures Section(h, Body((key, val))) + NEWLINE == h + Ascii(" [") + key + Ascii("=") + val + Ascii("]\n")
  {
    hide Token, Bare;
    BareIsWritten(key);
    BareIsWritten(val);
  }

  lemma OneFieldLine(cfg: Config, e: Entry, p: Pair)
    requires e.stack == [] && cfg.lineEnding == []
    ensures Line(cfg, e, [], [p]) == Section(Header(cfg, e), Body(p)) + NEWLINE
  {
    hide Section, Body, Header;
    TextEncoder.ExtendedByOne(Header(cfg, e), p);
  }

  lemma HeaderIsSomething(cfg: Config, e: Entry)
    requires cfg.levelKey != []
    ensures Header(cfg, e) != []
  {
    hide Token;
  }

  lemma BetweenSections(a: Text, b: Text)
    ensures a + Ascii("\"]") + (Ascii(" [") + b) == a + Ascii("\"] [") + b
  {
  }

  /** The line of a message with a field, as the tests of the encoder show it. */
  lemma TypicalLine(cfg: Config, e: Entry, key: Text, val: Text)
    requires cfg.timeKey == [] && cfg.levelKey != [] && cfg.lineEnding == []
    requires e.loggerName == [] && e.caller.None? && e.stack == []
    requires Bare(e.level) && Sentence(e.message) && Bare(key) && Bare(val)
    ensures Line(cfg, e, [], [(key, val)])
         == Ascii("[") + e.level + Ascii("] [\"") + e.message + Ascii("\"] [") + key + Ascii("=") + val + Ascii("]\n")
  {
    hide Line, Header, Section, Body, Sentence, Bare, Ascii;
    OneFieldLine(cfg, e, (key, val));
    TypicalHeader(cfg, e);
    var h := Header(cfg, e);
    assert h != [] by {
      HeaderIsSomething(cfg, e);
    }
    TypicalField(h, key, val);
    var start, end := Ascii("[") + e.level + Ascii("] [\"") + e.message, key + Ascii("=") + val + Ascii("]\n");
    assert h + Ascii(" [") + key + Ascii("=") + val + Ascii("]\n") == h + (Ascii(" [") + end);
    BetweenSections(start, end);
    assert start + Ascii("\"] [") + end
        == start + Ascii("\"] [") + key + Ascii("=") + val + Ascii("]\n");
  }

  // ---------- a line with everything on it ----------

  lemma NextSection(buf: Text, body: Text)
    requires buf != []
    ensures Section(buf, body) == buf + Ascii(" [") + body + Ascii("]")
  {
  }

  lemma FirstSection(body: Text)
    ensures Section([], body) == Ascii("[") + body + Ascii("]")
  {
  }

  /** The order of the sections: time, level, logger name, caller, message, fields, stack, ending. */
  lemma FullLine(cfg: Config, e: Entry, p: Pair)
    requires cfg.timeKey != [] && cfg.levelKey != [] && cfg.nameKey != [] && cfg.callerKey != [] && cfg.stackKey != []
    requires cfg.lineEnding != [] && e.loggerName != [] && e.caller.Some? && e.message != [] && e.stack != []
    ensures Line(cfg, e, [], [p])
         == Ascii("[") + e.time + Ascii("]")
            + Ascii(" [") + Token(e.level) + Ascii("]")
            + Ascii(" [") + Token(e.loggerName) + Ascii("]")
            + Ascii(" [") + Token(e.caller.value) + Ascii("]")
            + Ascii(" [") + Token(e.message) + Ascii("]")
            + Ascii(" [") + (Token(p.0) + Ascii("=") + Token(p.1)) + Ascii("]")
            + Ascii(" [") + (Token(cfg.stackKey) + Ascii("=") + Token(e.stack)) + Ascii("]")
            + cfg.lineEnding
  {
    assert Ascii("=") == [EQUALS];
    hide Token, Section, Ascii;
    var s1 := Section([], e.time);
    var s2 := Section(s1, Token(e.level));
    var s3 := Section(s2, Token(e.loggerName));
    var s4 := Section(s3, Token(e.caller.value));
    var s5 := Section(s4, Token(e.message));
    var s6 := Section(s5, Body(p));
    var s7 := Section(s6, Body((cfg.stackKey, e.stack)));
    assert Header(cfg, e) == s5;
    TextEncoder.ExtendedByOne(s5, p);
    assert Line(cfg, e, [], [p]) == s7 + cfg.lineEnding;
    FirstSection(e.time);
    NextSection(s1, Token(e.level));
    NextSection(s2, Token(e.loggerName));
    NextSection(s3, Token(e.caller.value));
    NextSection(s4, Token(e.message));
    NextSection(s5, Body(p));
    NextSection(s6, Body((cfg.stackKey, e.stack)));
  }

  // ---------- error fields ----------

  /** A reader finds an error as one field with its message and, unless that is disabled or says the same, one more
      with the long form, under the key followed by "Verbose". */
  lemma ErrorIsReadBack(f: Field, disableErrorVerbose: bool)
    requires f.ErrorField? && AllValid(PairsOf(f, disableErrorVerbose))
    ensures var twice := !disableErrorVerbose && f.verbose.Some? && f.verbose.value != f.basic;
      ReadFields(Extended([], AllPairs([f], disableErrorVerbose)))
        == Some([(f.key, f.basic)] + if twice then [(f.key + Ascii("Verbose"), f.verbose.value)] else [])
  {
    hide ReadFields, Extended;
    assert Ascii("Verbose") == VERBOSE;
    var ps := PairsOf(f, disableErrorVerbose);
    assert [f][1..] == [] && ps + [] == ps && AllPairs([f], disableErrorVerbose) == ps;
    FieldsRoundTrip(ps);
  }
}
