/** What the text encoder writes, as functions: escaping, quoting, fields and whole lines. */
module TextEncoding {
  import opened Bytes

  type Text = seq<byte>

  const QUOTE: byte := 0x22
  const BACKSLASH: byte := 0x5C
  const LEFT: byte := 0x5B
  const RIGHT: byte := 0x5D
  const EQUALS: byte := 0x3D
  const SPACE: byte := 0x20
  const COMMA: byte := 0x2C

  // ---------- UTF-8 ----------

  predicate In(b: byte, lo: int, hi: int) {
    lo <= b <= hi
  }

  /** The length of the well-formed UTF-8 sequence (section 4 of RFC 3629) that `s` starts with; 0 if there is none. */
  function RuneSize(s: Text): (n: nat)
    requires s != []
    ensures n <= 4 && n <= |s|
  {
    var b := s[0];
    if b < 0x80 then 1
    else if In(b, 0xC2, 0xDF) then
      if |s| >= 2 && In(s[1], 0x80, 0xBF) then 2 else 0
    else if In(b, 0xE0, 0xEF) then
      var lo := if b == 0xE0 then 0xA0 else 0x80;
      var hi := if b == 0xED then 0x9F else 0xBF;
      if |s| >= 3 && In(s[1], lo, hi) && In(s[2], 0x80, 0xBF) then 3 else 0
    else if In(b, 0xF0, 0xF4) then
      var lo := if b == 0xF0 then 0x90 else 0x80;
      var hi := if b == 0xF4 then 0x8F else 0xBF;
      if |s| >= 4 && In(s[1], lo, hi) && In(s[2], 0x80, 0xBF) && In(s[3], 0x80, 0xBF) then 4 else 0
    else 0
  }

  /** How many bytes a decoder moves on: the whole sequence, or one byte that starts none. */
  function Advance(s: Text): (n: nat)
    requires s != []
    ensures 0 < n <= |s|
  {
    if RuneSize(s) == 0 then 1 else RuneSize(s)
  }

  predicate ValidUtf8(s: Text)
    decreases |s|
  {
    s == [] || (RuneSize(s) > 0 && ValidUtf8(s[RuneSize(s)..]))
  }

  /** U+FFFD in UTF-8. */
  const REPLACEMENT: Text := [0xEF, 0xBF, 0xBD]

  /** Every byte that starts no well-formed sequence becomes U+FFFD. */
  function Sanitize(s: Text): Text
    decreases |s|
  {
    if s == [] then []
    else (if RuneSize(s) == 0 then REPLACEMENT else s[..RuneSize(s)]) + Sanitize(s[Advance(s)..])
  }

  lemma {:induction false} SanitizeKeepsValid(s: Text)
    requires ValidUtf8(s)
    ensures Sanitize(s) == s
    decreases |s|
  {
    if s != [] {
      SanitizeKeepsValid(s[RuneSize(s)..]);
    }
  }

  // ---------- escaping ----------

  function HexDigit(n: nat): byte
    requires n < 16
  {
    if n < 10 then 0x30 + n else 0x61 + n - 10
  }

  /** What tryAddRuneSelf writes for a byte below 0x80. */
  function EscapeAscii(b: byte): Text {
    if 0x20 <= b && b != BACKSLASH && b != QUOTE then [b]
    else if b == BACKSLASH || b == QUOTE then [BACKSLASH, b]
    else if b == 0x0A then [BACKSLASH, 0x6E]
    else if b == 0x0D then [BACKSLASH, 0x72]
    else if b == 0x09 then [BACKSLASH, 0x74]
    else [BACKSLASH, 0x75, 0x30, 0x30, HexDigit(b / 16), HexDigit(b % 16)]
  }

  /** The six characters \ufffd. */
  const ESCAPED_REPLACEMENT: Text := [BACKSLASH, 0x75, 0x66, 0x66, 0x66, 0x64]

  /** What one round of safeAddString writes. */
  function EscapeHead(s: Text): Text
    requires s != []
  {
    if s[0] < 0x80 then EscapeAscii(s[0])
    else if RuneSize(s) == 0 then ESCAPED_REPLACEMENT
    else s[..RuneSize(s)]
  }

  function Escape(s: Text): Text
    decreases |s|
  {
    if s == [] then [] else EscapeHead(s) + Escape(s[Advance(s)..])
  }

  predicate ForcesQuotes(b: byte) {
    b <= 0x20 || b == BACKSLASH || b == QUOTE || b == LEFT || b == RIGHT || b == EQUALS
  }

  predicate NeedsQuotes(s: Text) {
    exists b :: b in s && ForcesQuotes(b)
  }

  function Token(s: Text): Text {
    if NeedsQuotes(s) then [QUOTE] + Escape(s) + [QUOTE] else Escape(s)
  }

  // ---------- fields and lines ----------

  /** A string field, or an error with its message and - when it formats itself at length - the long form. */
  datatype Field = StringField(key: Text, val: Text) | ErrorField(key: Text, basic: Text, verbose: Option<Text>)

  type Pair = (Text, Text)

  const VERBOSE: Text := [0x56, 0x65, 0x72, 0x62, 0x6F, 0x73, 0x65]

  function PairsOf(f: Field, disableErrorVerbose: bool): seq<Pair> {
    match f
    case StringField(k, v) => [(k, v)]
    case ErrorField(k, basic, verbose) =>
      [(k, basic)] +
      if !disableErrorVerbose && verbose.Some? && verbose.value != basic then [(k + VERBOSE, verbose.value)] else []
  }

  function AllPairs(fs: seq<Field>, disableErrorVerbose: bool): seq<Pair> {
    if fs == [] then [] else PairsOf(fs[0], disableErrorVerbose) + AllPairs(fs[1..], disableErrorVerbose)
  }

  /** A bracketed section, set off by a space from what is there. */
  function Section(buf: Text, body: Text): (r: Text)
    ensures r != []
  {
    (if buf == [] then [] else buf + [SPACE]) + [LEFT] + body + [RIGHT]
  }

  function Body(p: Pair): Text {
    Token(p.0) + [EQUALS] + Token(p.1)
  }

  /** `buf` after fields were added to it. */
  function Extended(buf: Text, ps: seq<Pair>): Text
    decreases |ps|
  {
    if ps == [] then buf else Extended(Section(buf, Body(ps[0])), ps[1..])
  }

  datatype Config = Config(
    timeKey: Text, levelKey: Text, nameKey: Text, callerKey: Text, stackKey: Text, lineEnding: Text,
    disableErrorVerbose: bool)

  datatype Entry = Entry(
    time: Text, level: Text, loggerName: Text, caller: Option<Text>, message: Text, stack: Text)

  const NEWLINE: Text := [0x0A]

  /** The sections before the fields. The formatted time is written as it is. */
  function Header(cfg: Config, e: Entry): Text {
    var h := if cfg.timeKey != [] then Section([], e.time) else [];
    var h := if cfg.levelKey != [] then Section(h, Token(e.level)) else h;
    var h := if e.loggerName != [] && cfg.nameKey != [] then Section(h, Token(e.loggerName)) else h;
    var h := if e.caller.Some? && cfg.callerKey != [] then Section(h, Token(e.caller.value)) else h;
    if e.message != [] then Section(h, Token(e.message)) else h
  }

  /** What is there before the fields of the call: the header and the fields already attached. */
  function Start(h: Text, attached: Text): Text {
    if attached != [] then h + [SPACE] + attached else h
  }

  function Ending(cfg: Config): Text {
    if cfg.lineEnding != [] then cfg.lineEnding else NEWLINE
  }

  /** The stack and the line ending, after the fields. */
  function Finish(cfg: Config, e: Entry, h: Text): Text {
    (if e.stack != [] && cfg.stackKey != [] then Section(h, Body((cfg.stackKey, e.stack))) else h) + Ending(cfg)
  }

  /** The line for an entry, the fields already attached to the encoder, and those of the call. */
  function Line(cfg: Config, e: Entry, attached: Text, ps: seq<Pair>): Text {
    Finish(cfg, e, Extended(Start(Header(cfg, e), attached), ps))
  }
}
