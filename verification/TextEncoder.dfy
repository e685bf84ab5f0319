/** The text encoder: everything it does is appending to one buffer, mostly byte by byte. */
module TextEncoder {
  import opened Bytes
  import opened TextEncoding

  /** The byte after which no element separator is needed: one of { [ : , space = */
  predicate OpensElement(b: byte) {
    b in {0x7B, 0x5B, 0x3A, 0x2C, 0x20, 0x3D}
  }

  function Separated(buf: Text): Text {
    if buf == [] || OpensElement(buf[|buf| - 1]) then buf else buf + [COMMA]
  }

  lemma ExtendedByOne(buf: Text, p: Pair)
    ensures Extended(buf, [p]) == Section(buf, Body(p))
  {
    hide Section, Body;
    assert [p][1..] == [];
  }

  lemma {:induction false} ExtendedAppend(buf: Text, a: seq<Pair>, b: seq<Pair>)
    ensures Extended(buf, a + b) == Extended(Extended(buf, a), b)
    decreases |a|
  {
    if a == [] {
      assert a + b == b;
    } else {
      assert (a + b)[0] == a[0] && (a + b)[1..] == a[1..] + b;
      ExtendedAppend(Section(buf, Body(a[0])), a[1..], b);
    }
  }

  class Encoder {
    const cfg: Config
    var buf: Text

    constructor (cfg: Config)
      ensures this.cfg == cfg && buf == []
    {
      this.cfg, buf := cfg, [];
    }

    method AppendByte(b: byte)
      modifies this
      ensures buf == old(buf) + [b]
    {
      buf := buf + [b];
    }

    method AppendBytes(s: Text)
      modifies this
      ensures buf == old(buf) + s
    {
      buf := buf + s;
    }

    /** Writes a single-byte character, escaped if need be; leaves other bytes to the caller. */
    method TryAddRuneSelf(b: byte) returns (added: bool)
      modifies this
      ensures added <==> b < 0x80
      ensures buf == old(buf) + if added then EscapeAscii(b) else []
    {
      if b >= 0x80 {
        return false;
      }
      if 0x20 <= b && b != BACKSLASH && b != QUOTE {
        AppendByte(b);
        return true;
      }
      AppendByte(BACKSLASH);
      if b == BACKSLASH || b == QUOTE {
        AppendByte(b);
      } else if b == 0x0A {
        AppendByte(0x6E);
      } else if b == 0x0D {
        AppendByte(0x72);
      } else if b == 0x09 {
        AppendByte(0x74);
      } else {
        AppendBytes([0x75, 0x30, 0x30]);
        AppendByte(HexDigit(b / 16));
        AppendByte(HexDigit(b % 16));
      }
      return true;
    }

    /** One round of the escaping loop: the character at `i`, and where the next one starts. */
    method AddRune(s: Text, i: nat) returns (next: nat)
      requires i < |s|
      modifies this
      ensures next == i + Advance(s[i..])
      ensures buf == old(buf) + EscapeHead(s[i..])
    {
      var added := TryAddRuneSelf(s[i]);
      if added {
        return i + 1;
      }
      var size := RuneSize(s[i..]);
      if size == 0 {
        AppendBytes(ESCAPED_REPLACEMENT);
        return i + 1;
      }
      assert s[i..][..size] == s[i..i + size];
      AppendBytes(s[i..i + size]);
      return i + size;
    }

    /** Escapes and appends a string. */
    method SafeAddString(s: Text)
      modifies this
      ensures buf == old(buf) + Escape(s)
    {
      hide EscapeHead, Advance;
      var i := 0;
      assert s[i..] == s;
      while i < |s|
        invariant 0 <= i <= |s|
        invariant buf + Escape(s[i..]) == old(buf) + Escape(s)
      {
        ghost var before := buf;
        var next := AddRune(s, i);
        assert s[i..][next - i..] == s[next..];
        Associative(before, EscapeHead(s[i..]), Escape(s[next..]));
        i := next;
      }
      assert buf + Escape(s[i..]) == buf;
    }

    method NeedDoubleQuotes(s: Text) returns (need: bool)
      ensures need <==> NeedsQuotes(s)
      ensures need <==> exists i | 0 <= i < |s| :: s[i] <= 0x20 || s[i] in {0x5C, 0x22, 0x5B, 0x5D, 0x3D}
    {
      var i := 0;
      while i < |s|
        invariant 0 <= i <= |s|
        invariant forall j | 0 <= j < i :: !ForcesQuotes(s[j])
      {
        var b := s[i];
        assert b in s;
        if b <= 0x20 {
          return true;
        }
        if b == BACKSLASH || b == QUOTE || b == LEFT || b == RIGHT || b == EQUALS {
          return true;
        }
        i := i + 1;
      }
      return false;
    }

    method SafeAddStringWithQuote(s: Text)
      modifies this
      ensures buf == old(buf) + Token(s)
    {
      hide Escape, ForcesQuotes, NeedsQuotes;
      var need := NeedDoubleQuotes(s);
      if !need {
        SafeAddString(s);
        return;
      }
      AppendByte(QUOTE);
      SafeAddString(s);
      Associative(old(buf), [QUOTE], Escape(s));
      AppendByte(QUOTE);
      Associative(old(buf), [QUOTE] + Escape(s), [QUOTE]);
    }

    /** A comma, unless nothing is there or one of the characters {, [, :, a comma, a space or = is. */
    method AddElementSeparator()
      modifies this
      ensures buf == Separated(old(buf))
      ensures var opens := old(buf) == [] || old(buf[|buf| - 1]) in {0x7B, 0x5B, 0x3A, 0x2C, 0x20, 0x3D};
        buf == if opens then old(buf) else old(buf) + [0x2C]
    {
      var last := |buf| - 1;
      if last < 0 {
        return;
      }
      if !OpensElement(buf[last]) {
        AppendByte(COMMA);
      }
    }

    method AppendString(val: Text)
      modifies this
      ensures buf == Separated(old(buf)) + Token(val)
    {
      AddElementSeparator();
      SafeAddStringWithQuote(val);
    }

    method AddKey(key: Text)
      modifies this
      ensures buf == Separated(old(buf)) + Token(key) + [EQUALS]
    {
      AddElementSeparator();
      SafeAddStringWithQuote(key);
      AppendByte(EQUALS);
    }

    method AddString(key: Text, val: Text)
      modifies this
      ensures buf == Separated(old(buf)) + Body((key, val))
    {
      hide Token;
      AddKey(key);
      ghost var start := Separated(old(buf));
      assert buf[|buf| - 1] == EQUALS;
      AppendString(val);
      Associative(start, Token(key), [EQUALS]);
      Associative(start, Token(key) + [EQUALS], Token(val));
    }

    method BeginQuoteField()
      modifies this
      ensures buf == (if old(buf) == [] then [] else old(buf) + [SPACE]) + [LEFT]
    {
      if |buf| > 0 {
        AppendByte(SPACE);
      }
      AppendByte(LEFT);
    }

    method EndQuoteField()
      modifies this
      ensures buf == old(buf) + [RIGHT]
    {
      AppendByte(RIGHT);
    }

    /** One bracketed string. */
    method AddSection(val: Text)
      modifies this
      ensures buf == Section(old(buf), Token(val))
    {
      BeginQuoteField();
      AppendString(val);
      EndQuoteField();
    }

    method AddPair(key: Text, val: Text)
      modifies this
      ensures buf == Section(old(buf), Body((key, val)))
    {
      BeginQuoteField();
      AddString(key, val);
      EndQuoteField();
    }

    method EncodeError(f: Field)
      requires f.ErrorField?
      modifies this
      ensures buf == Extended(old(buf), PairsOf(f, cfg.disableErrorVerbose))
    {
      hide Section, Body;
      AddPair(f.key, f.basic);
      ghost var ps := PairsOf(f, cfg.disableErrorVerbose);
      assert ps[0] == (f.key, f.basic) && buf == Section(old(buf), Body(ps[0]));
      assert Extended(old(buf), ps) == Extended(buf, ps[1..]);
      if cfg.disableErrorVerbose {
        assert |ps| == 1;
        return;
      }
      if f.verbose.Some? && f.verbose.value != f.basic {
        ghost var before, last := buf, ps[1];
        assert ps[1..] == [last];
        AddPair(f.key + VERBOSE, f.verbose.value);
        ExtendedByOne(before, last);
      } else {
        assert |ps| == 1;
      }
    }

    method AddFields(fields: seq<Field>)
      modifies this
      ensures buf == Extended(old(buf), AllPairs(fields, cfg.disableErrorVerbose))
    {
      hide Section, Body;
      var i := 0;
      while i < |fields|
        invariant 0 <= i <= |fields|
        invariant Extended(buf, AllPairs(fields[i..], cfg.disableErrorVerbose))
               == Extended(old(buf), AllPairs(fields, cfg.disableErrorVerbose))
      {
        ghost var before, ps, rest := buf, PairsOf(fields[i], cfg.disableErrorVerbose),
                                      AllPairs(fields[i + 1..], cfg.disableErrorVerbose);
        assert fields[i..][1..] == fields[i + 1..];
        ExtendedAppend(before, ps, rest);
        match fields[i] {
          case ErrorField(_, _, _) => EncodeError(fields[i]);
          case StringField(key, val) =>
            AddPair(key, val);
            ExtendedByOne(before, (key, val));
        }
        i := i + 1;
      }
    }

    /** A new encoder with the same bytes. */
    method Clone() returns (c: Encoder)
      ensures fresh(c) && c.cfg == cfg && c.buf == buf
    {
      c := new Encoder(cfg);
      c.AppendBytes(buf);
    }

    method AddTime(time: Text)
      modifies this
      ensures buf == Section(old(buf), time)
    {
      BeginQuoteField();
      AppendBytes(time);
      EndQuoteField();
    }

    /** The sections before the fields; called on an empty encoder. */
    method AddHeader(e: Entry)
      requires buf == []
      modifies this
      ensures buf == Header(cfg, e)
    {
      hide Section, Token;
      if cfg.timeKey != [] {
        AddTime(e.time);
      }
      if cfg.levelKey != [] {
        AddSection(e.level);
      }
      if e.loggerName != [] && cfg.nameKey != [] {
        AddSection(e.loggerName);
      }
      if e.caller.Some? && cfg.callerKey != [] {
        AddSection(e.caller.value);
      }
      if |e.message| > 0 {
        AddSection(e.message);
      }
    }

    /** The line of an entry; this encoder is left as it is. */
    method EncodeEntry(e: Entry, fields: seq<Field>) returns (line: Text)
      ensures line == Line(cfg, e, buf, AllPairs(fields, cfg.disableErrorVerbose))
    {
      hide Section, Body, Header, Extended, AllPairs;
      var final := new Encoder(cfg);
      final.AddHeader(e);
      if |buf| > 0 {
        final.AppendByte(SPACE);
        final.AppendBytes(buf);
      }
      final.AddFields(fields);
      if e.stack != [] && cfg.stackKey != [] {
        final.AddPair(cfg.stackKey, e.stack);
      }
      if cfg.lineEnding != [] {
        final.AppendBytes(cfg.lineEnding);
      } else {
        final.AppendBytes(NEWLINE);
      }
      return final.buf;
    }
  }
}
