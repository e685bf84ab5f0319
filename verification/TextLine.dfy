/** A reader for whole lines: the time, the values that stand alone and the fields are told apart. */
module TextLine {
  import opened Bytes
  import opened TextEncoding
  import opened TextParser
  import TextCore

  /** The sections of a header after the time. */
  function HeaderParts(cfg: Config, e: Entry): (ps: seq<Part>)
    ensures forall i | 0 <= i < |ps| :: ps[i].Single?
  {
    (if cfg.levelKey != [] then [Single(e.level)] else [])
    + (if e.loggerName != [] && cfg.nameKey != [] then [Single(e.loggerName)] else [])
    + (if e.caller.Some? && cfg.callerKey != [] then [Single(e.caller.value)] else [])
    + (if e.message != [] then [Single(e.message)] else [])
  }

  function StackParts(cfg: Config, e: Entry): seq<Part> {
    if e.stack != [] && cfg.stackKey != [] then [Paired(cfg.stackKey, e.stack)] else []
  }

  /** Everything on a line but its time, in order. */
  function LineParts(cfg: Config, e: Entry, fields: seq<Pair>): seq<Part> {
    HeaderParts(cfg, e) + Fields(fields) + StackParts(cfg, e)
  }

  datatype Record = Record(time: Option<Text>, parts: seq<Part>)

  /** The first right bracket. */
  function Closing(s: Text): (n: nat)
    ensures n <= |s|
  {
    if s == [] || s[0] == RIGHT then 0 else 1 + Closing(s[1..])
  }

  function ReadRest(time: Option<Text>, s: Text): Option<Record> {
    match ReadParts(s)
    case Some(ps) => Some(Record(time, ps))
    case None => None
  }

  /** A line without its ending; the time is what the first brackets hold. */
  function ReadBody(cfg: Config, s: Text): Option<Record> {
    if cfg.timeKey == [] then ReadRest(None, s)
    else if s == [] || s[0] != LEFT || Closing(s) == |s| then None
    else
      var time, rest := s[1..Closing(s)], s[Closing(s) + 1..];
      if rest == [] then Some(Record(Some(time), []))
      else if rest[0] != SPACE || |rest| == 1 then None
      else ReadRest(Some(time), rest[1..])
  }

  /** The configuration tells the ending; one space in front is passed over. */
  function ReadLine(cfg: Config, line: Text): Option<Record> {
    var end := Ending(cfg);
    if |line| < |end| || line[|line| - |end|..] != end then None
    else
      var s := line[..|line| - |end|];
      ReadBody(cfg, if s != [] && s[0] == SPACE then s[1..] else s)
  }

  lemma {:induction false} ClosingIsFound(s: Text, rest: Text)
    requires RIGHT !in s
    ensures Closing(s + [RIGHT] + rest) == |s|
  {
    var t := s + [RIGHT] + rest;
    if s == [] {
      assert t[0] == RIGHT;
    } else {
      assert t[1..] == s[1..] + [RIGHT] + rest;
      ClosingIsFound(s[1..], rest);
    }
  }

  // ---------- a line is its parts ----------

  function TimeStart(cfg: Config, e: Entry): Text {
    if cfg.timeKey != [] then Section([], e.time) else []
  }

  lemma WithNone(buf: Text)
    ensures WithParts(buf, []) == buf
  {
  }

  lemma WithOne(buf: Text, p: Part)
    ensures WithParts(buf, [p]) == Section(buf, PartBody(p))
  {
    hide Section, PartBody;
    assert [p][1..] == [];
  }

  /** A section that may be there, after others. */
  lemma WithOptional(buf: Text, ps: seq<Part>, present: bool, v: Text)
    ensures WithParts(buf, ps + if present then [Single(v)] else [])
         == if present then Section(WithParts(buf, ps), Token(v)) else WithParts(buf, ps)
  {
    hide Section, Token;
    if present {
      WithPartsAppend(buf, ps, [Single(v)]);
      WithOne(WithParts(buf, ps), Single(v));
    } else {
      assert ps + [] == ps;
    }
  }

  lemma HeaderIsParts(cfg: Config, e: Entry)
    ensures Header(cfg, e) == WithParts(TimeStart(cfg, e), HeaderParts(cfg, e))
  {
    hide Section, Token, WithParts;
    var t := TimeStart(cfg, e);
    var p1 := if cfg.levelKey != [] then [Single(e.level)] else [];
    var hasName, hasCaller := e.loggerName != [] && cfg.nameKey != [], e.caller.Some? && cfg.callerKey != [];
    var p2 := p1 + if hasName then [Single(e.loggerName)] else [];
    var p3 := p2 + if hasCaller then [Single(e.caller.value)] else [];
    WithNone(t);
    assert [] + p1 == p1;
    WithOptional(t, [], cfg.levelKey != [], e.level);
    WithOptional(t, p1, hasName, e.loggerName);
    if hasCaller {
      WithOptional(t, p2, true, e.caller.value);
    } else {
      assert p2 + [] == p2;
    }
    WithOptional(t, p3, e.message != [], e.message);
  }

  /** A line whose fields all come with the call is its time, its parts and its ending. */
  lemma LineIsParts(cfg: Config, e: Entry, fields: seq<Pair>)
    ensures Line(cfg, e, [], fields) == WithParts(TimeStart(cfg, e), LineParts(cfg, e, fields)) + Ending(cfg)
  {
    hide Section, Body, Header, Extended, WithParts, HeaderParts, TimeStart;
    var t := TimeStart(cfg, e);
    HeaderIsParts(cfg, e);
    ExtendedIsWithParts(Header(cfg, e), fields);
    WithPartsAppend(t, HeaderParts(cfg, e), Fields(fields));
    var before := HeaderParts(cfg, e) + Fields(fields);
    WithPartsAppend(t, before, StackParts(cfg, e));
    var h := WithParts(t, before);
    if e.stack != [] && cfg.stackKey != [] {
      WithOne(h, Paired(cfg.stackKey, e.stack));
    } else {
      WithNone(h);
    }
  }

  // ---------- reading it back ----------

  lemma ReadPartsBack(time: Option<Text>, ps: seq<Part>)
    requires ps != []
    ensures ReadRest(time, Joined(ps)) == Some(Record(time, SanitizeParts(ps)))
  {
    ReadJoinedBack(ps);
  }

  lemma NothingToRead()
    ensures ReadRest(None, []) == Some(Record(None, [])) && SanitizeParts([]) == []
  {
  }

  lemma ReadBodyBack(cfg: Config, e: Entry, ps: seq<Part>)
    requires cfg.timeKey != [] ==> RIGHT !in e.time
    ensures var s := WithParts(TimeStart(cfg, e), ps);
      && ReadBody(cfg, s) == Some(Record(if cfg.timeKey != [] then Some(e.time) else None, SanitizeParts(ps)))
      && (s == [] || s[0] == LEFT)
  {
    hide ReadRest, SanitizeParts, Joined, WithParts, Closing;
    var t := TimeStart(cfg, e);
    var s := WithParts(t, ps);
    if cfg.timeKey == [] {
      if ps == [] {
        WithNone(t);
        NothingToRead();
      } else {
        WithPartsIsJoined(t, ps);
        assert [] + Joined(ps) == Joined(ps);
        ReadPartsBack(None, ps);
      }
    } else {
      var more := if ps == [] then [] else [SPACE] + Joined(ps);
      assert s == [LEFT] + e.time + [RIGHT] + more by {
        if ps == [] {
          WithNone(t);
        } else {
          WithPartsIsJoined(t, ps);
        }
      }
      assert s == ([LEFT] + e.time) + [RIGHT] + more;
      ClosingIsFound([LEFT] + e.time, more);
      assert s[1..1 + |e.time|] == e.time && s[2 + |e.time|..] == more;
      if ps == [] {
        NothingToRead();
      } else {
        assert more[1..] == Joined(ps);
        ReadPartsBack(Some(e.time), ps);
      }
    }
  }

  /**
   * A whole line is read back, whatever the message, the fields and the stack hold: the time as it was formatted, the
   * values that stand alone, and the fields, attached ones first. A message can never be taken for a field, nor a
   * field for a message.
   */
  lemma LineIsReadBack(cfg: Config, e: Entry, attached: seq<Pair>, fields: seq<Pair>)
    requires cfg.timeKey != [] ==> RIGHT !in e.time
    ensures ReadLine(cfg, Line(cfg, e, Extended([], attached), fields))
         == Some(Record(if cfg.timeKey != [] then Some(e.time) else None,
                        SanitizeParts(LineParts(cfg, e, attached + fields))))
  {
    hide Line, LineParts, ReadBody, WithParts, TimeStart, Extended, Ending, SanitizeParts, TextCore.NoSections;
    var ps := LineParts(cfg, e, attached + fields);
    var s := WithParts(TimeStart(cfg, e), ps);
    var line := Line(cfg, e, Extended([], attached), fields);
    LineIsParts(cfg, e, attached + fields);
    ReadBodyBack(cfg, e, ps);
    TextCore.AttachingIsTransparentIff(cfg, e, [], attached, fields);
    var lead := if line == s + Ending(cfg) then [] else [SPACE];
    assert line == lead + s + Ending(cfg);
    assert line[..|line| - |Ending(cfg)|] == lead + s && line[|line| - |Ending(cfg)|..] == Ending(cfg);
    assert lead != [] ==> (lead + s)[1..] == s;
    assert lead == [] ==> lead + s == s;
  }

  // ---------- lines that are alike ----------

  /** The fields and the stack of an entry, which are written alike. */
  function FieldsAndStack(cfg: Config, e: Entry, fields: seq<Pair>): seq<Pair> {
    fields + if e.stack != [] && cfg.stackKey != [] then [(cfg.stackKey, e.stack)] else []
  }

  /** Whether a line begins with a space of its own. */
  predicate Indents(cfg: Config, e: Entry, attached: seq<Pair>) {
    TextCore.NoSections(cfg, e) && attached != []
  }

  predicate ValidPart(p: Part) {
    match p
    case Single(v) => ValidUtf8(v)
    case Paired(k, v) => ValidUtf8(k) && ValidUtf8(v)
  }

  /** Everything an entry writes but its time is valid UTF-8. */
  predicate ValidLine(cfg: Config, e: Entry, fields: seq<Pair>) {
    forall i | 0 <= i < |LineParts(cfg, e, fields)| :: ValidPart(LineParts(cfg, e, fields)[i])
  }

  lemma SanitizeKeepsParts(ps: seq<Part>)
    requires forall i | 0 <= i < |ps| :: ValidPart(ps[i])
    ensures SanitizeParts(ps) == ps
  {
    forall i | 0 <= i < |ps| ensures SanitizeParts(ps)[i] == ps[i] {
      match ps[i] {
        case Single(v) => SanitizeKeepsValid(v);
        case Paired(k, v) =>
          SanitizeKeepsValid(k);
          SanitizeKeepsValid(v);
      }
    }
  }

  lemma PartsAreSinglesThenPairs(cfg: Config, e: Entry, fields: seq<Pair>)
    ensures LineParts(cfg, e, fields) == HeaderParts(cfg, e) + Fields(FieldsAndStack(cfg, e, fields))
  {
    hide HeaderParts;
  }

  /** Singles followed by pairs fall apart in one way only. */
  lemma SinglesThenPairs(a: seq<Part>, b: seq<Part>, ps: seq<Pair>, qs: seq<Pair>)
    requires forall i | 0 <= i < |a| :: a[i].Single?
    requires forall i | 0 <= i < |b| :: b[i].Single?
    ensures a + Fields(ps) == b + Fields(qs) <==> a == b && ps == qs
  {
    if a + Fields(ps) == b + Fields(qs) {
      var t := a + Fields(ps);
      assert |a| < |t| ==> t[|a|].Paired?;
      assert |b| < |t| ==> t[|b|] == (b + Fields(qs))[|b|];
      assert forall i | 0 <= i < |b| :: t[i] == b[i];
      assert |a| == |b| && a == t[..|a|] == b;
      assert Fields(ps) == t[|a|..] == Fields(qs);
      AsFieldsOfFields(ps);
      AsFieldsOfFields(qs);
    }
  }

  /** A line is its time and parts, after a space of its own or not. */
  lemma LineIsIndented(cfg: Config, e: Entry, attached: seq<Pair>, fields: seq<Pair>)
    ensures var s := WithParts(TimeStart(cfg, e), LineParts(cfg, e, attached + fields)) + Ending(cfg);
      Line(cfg, e, Extended([], attached), fields) == (if Indents(cfg, e, attached) then [SPACE] else []) + s
  {
    hide Line, LineParts, WithParts, TimeStart, Extended, Ending, TextCore.NoSections;
    LineIsParts(cfg, e, attached + fields);
    TextCore.AttachingIsTransparentIff(cfg, e, [], attached, fields);
    var s := WithParts(TimeStart(cfg, e), LineParts(cfg, e, attached + fields)) + Ending(cfg);
    assert [] + s == s;
  }

  /**
   * When two entries make the same line: exactly when they have the same time, the same values that stand alone, one
   * after the other, and the same fields and stack, one after the other - so that a last field under the stack's key
   * is taken for a stack - and both lines are indented or neither is.
   */
  lemma LinesAlikeIff(cfg: Config, e: Entry, xs: seq<Pair>, ps: seq<Pair>, f: Entry, ys: seq<Pair>, qs: seq<Pair>)
    requires cfg.timeKey != [] ==> RIGHT !in e.time && RIGHT !in f.time
    requires ValidLine(cfg, e, xs + ps) && ValidLine(cfg, f, ys + qs)
    ensures Line(cfg, e, Extended([], xs), ps) == Line(cfg, f, Extended([], ys), qs)
       <==> && (cfg.timeKey != [] ==> e.time == f.time)
            && HeaderParts(cfg, e) == HeaderParts(cfg, f)
            && FieldsAndStack(cfg, e, xs + ps) == FieldsAndStack(cfg, f, ys + qs)
            && Indents(cfg, e, xs) == Indents(cfg, f, ys)
  {
    hide Line, LineParts, HeaderParts, FieldsAndStack, Fields, ReadLine, Extended, SanitizeParts, TextCore.NoSections;
    LineIsReadBack(cfg, e, xs, ps);
    LineIsReadBack(cfg, f, ys, qs);
    SanitizeKeepsParts(LineParts(cfg, e, xs + ps));
    SanitizeKeepsParts(LineParts(cfg, f, ys + qs));
    PartsAreSinglesThenPairs(cfg, e, xs + ps);
    PartsAreSinglesThenPairs(cfg, f, ys + qs);
    SinglesThenPairs(HeaderParts(cfg, e), HeaderParts(cfg, f),
                     FieldsAndStack(cfg, e, xs + ps), FieldsAndStack(cfg, f, ys + qs));
    LineIsIndented(cfg, e, xs, ps);
    LineIsIndented(cfg, f, ys, qs);
  }
}
