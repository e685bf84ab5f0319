/** The logging core: attaching fields makes an independent copy, and attaching is as good as passing along. */
module TextCore {
  import opened Bytes
  import opened TextEncoding
  import opened TextEncoder
  import opened Streams

  class Core {
    const enc: Encoder
    const out: Sink

    constructor (enc: Encoder, out: Sink)
      ensures this.enc == enc && this.out == out
    {
      this.enc, this.out := enc, out;
    }

    method Clone() returns (c: Core)
      ensures fresh(c) && fresh(c.enc) && c.out == out && c.enc.cfg == enc.cfg && c.enc.buf == enc.buf
    {
      var e := enc.Clone();
      c := new Core(e, out);
    }

    /** A core with more fields attached; this one and every other existing one is left alone. */
    method With(fields: seq<Field>) returns (c: Core)
      ensures fresh(c) && fresh(c.enc) && c.out == out && c.enc.cfg == enc.cfg
      ensures c.enc.buf == Extended(enc.buf, AllPairs(fields, enc.cfg.disableErrorVerbose))
    {
      c := Clone();
      c.enc.AddFields(fields);
    }

    /** Writes the line of an entry; a severe entry that was written is also flushed. */
    method Write(e: Entry, severe: bool, fields: seq<Field>) returns (err: Outcome)
      modifies out
      ensures err == if Willing(old(out.replies)) then NoError else Failed
      ensures out.accepted == old(out.accepted)
        + Taken(old(out.replies), Line(enc.cfg, e, enc.buf, AllPairs(fields, enc.cfg.disableErrorVerbose)))
      ensures out.replies == Later(old(out.replies))
      ensures out.syncs == old(out.syncs) + if err == NoError && severe then 1 else 0
    {
      var line := enc.EncodeEntry(e, fields);
      var m;
      m, err := out.Write(line);
      if err != NoError {
        return;
      }
      if severe {
        out.Sync();
      }
    }
  }

  // ---------- fields attached or passed along ----------

  lemma {:induction false} AllPairsAppend(a: seq<Field>, b: seq<Field>, d: bool)
    ensures AllPairs(a + b, d) == AllPairs(a, d) + AllPairs(b, d)
    decreases |a|
  {
    if a == [] {
      assert a + b == b;
    } else {
      assert (a + b)[1..] == a[1..] + b;
      AllPairsAppend(a[1..], b, d);
    }
  }

  /** A buffer that is not empty only ever grows at its end. */
  lemma {:induction false} ExtendedShift(pre: Text, buf: Text, ps: seq<Pair>)
    requires buf != []
    ensures Extended(pre + buf, ps) == pre + Extended(buf, ps)
    ensures Extended(buf, ps) != []
    decreases |ps|
  {
    hide Body;
    if ps != [] {
      var next := Section(buf, Body(ps[0]));
      assert Section(pre + buf, Body(ps[0])) == pre + next;
      ExtendedShift(pre, next, ps[1..]);
    }
  }

  lemma FinishShift(cfg: Config, e: Entry, pre: Text, h: Text)
    requires h != []
    ensures Finish(cfg, e, pre + h) == pre + Finish(cfg, e, h)
  {
    hide Body;
    if e.stack != [] && cfg.stackKey != [] {
      var b := Body((cfg.stackKey, e.stack));
      assert Section(pre + h, b) == pre + Section(h, b);
    }
  }

  /** The entries without any section before the fields. */
  predicate NoSections(cfg: Config, e: Entry) {
    && cfg.timeKey == [] && cfg.levelKey == []
    && (e.loggerName == [] || cfg.nameKey == [])
    && (e.caller.None? || cfg.callerKey == [])
    && e.message == []
  }

  lemma HeaderIsEmptyIff(cfg: Config, e: Entry)
    ensures Header(cfg, e) == [] <==> NoSections(cfg, e)
  {
    hide Token;
  }

  lemma SectionAfterText(h: Text, body: Text)
    requires h != []
    ensures Section(h, body) == h + [SPACE] + Section([], body)
  {
  }

  /** Attaching pairs to a start with something in it is the same as adding them after it. */
  lemma StartAbsorbs(h: Text, attached: Text, ps: seq<Pair>)
    requires h != [] || attached != []
    ensures Start(h, Extended(attached, ps)) == Extended(Start(h, attached), ps)
    decreases |ps|
  {
    hide Section, Body;
    if ps == [] {
    } else if attached != [] {
      ExtendedShift(h + [SPACE], attached, ps);
    } else {
      var first := Section([], Body(ps[0]));
      assert Section(h, Body(ps[0])) == h + [SPACE] + first by {
        SectionAfterText(h, Body(ps[0]));
      }
      ExtendedShift(h + [SPACE], first, ps[1..]);
    }
  }

  /** Without anything before them, attached fields come with a space that added ones do not have. */
  lemma StartIndents(ps: seq<Pair>)
    requires ps != []
    ensures Extended([], ps) != []
    ensures Start([], Extended([], ps)) == [SPACE] + Extended([], ps)
  {
    hide Body;
    ExtendedShift([], Section([], Body(ps[0])), ps[1..]);
    assert [] + [SPACE] == [SPACE];
  }

  lemma NothingAdded(buf: Text)
    ensures Extended(buf, []) == buf
  {
  }

  lemma AttachingIsTransparent(cfg: Config, e: Entry, attached: Text, ps: seq<Pair>, qs: seq<Pair>)
    requires Header(cfg, e) != [] || attached != [] || ps == []
    ensures Line(cfg, e, Extended(attached, ps), qs) == Line(cfg, e, attached, ps + qs)
  {
    hide Header, Finish, Extended, Start;
    var h := Header(cfg, e);
    ExtendedAppend(Start(h, attached), ps, qs);
    if ps == [] {
      assert Extended(attached, ps) == attached && ps + qs == qs by {
        NothingAdded(attached);
      }
    } else {
      StartAbsorbs(h, attached, ps);
    }
  }

  lemma AttachingIndents(cfg: Config, e: Entry, ps: seq<Pair>, qs: seq<Pair>)
    requires Header(cfg, e) == [] && ps != []
    ensures Line(cfg, e, Extended([], ps), qs) == [SPACE] + Line(cfg, e, [], ps + qs)
  {
    hide Header, Finish, Extended;
    var b := Extended([], ps);
    ExtendedAppend([], ps, qs);
    StartIndents(ps);
    ExtendedShift([SPACE], b, qs);
    FinishShift(cfg, e, [SPACE], Extended(b, qs));
  }

  /**
   * Fields attached beforehand give the line that passing them along gives, exactly if something else is written
   * before them; otherwise the line starts with a space of its own.
   */
  lemma AttachingIsTransparentIff(cfg: Config, e: Entry, attached: Text, ps: seq<Pair>, qs: seq<Pair>)
    ensures Line(cfg, e, Extended(attached, ps), qs) == Line(cfg, e, attached, ps + qs)
       <==> (!NoSections(cfg, e) || attached != [] || ps == [])
    ensures NoSections(cfg, e) && attached == [] && ps != [] ==>
      Line(cfg, e, Extended(attached, ps), qs) == [SPACE] + Line(cfg, e, attached, ps + qs)
  {
    hide Line, Header, NoSections;
    HeaderIsEmptyIff(cfg, e);
    if NoSections(cfg, e) && attached == [] && ps != [] {
      AttachingIndents(cfg, e, ps, qs);
      assert |[SPACE] + Line(cfg, e, [], ps + qs)| == 1 + |Line(cfg, e, [], ps + qs)|;
    } else {
      AttachingIsTransparent(cfg, e, attached, ps, qs);
    }
  }

  lemma NoPairsIff(fs: seq<Field>, d: bool)
    ensures AllPairs(fs, d) == [] <==> fs == []
  {
    if fs != [] {
      assert PairsOf(fs[0], d) != [];
    }
  }

  /** Any chain of With calls and then a write: the line of all the fields at once, indented in the one case above. */
  method WriteThrough(core: Core, groups: seq<seq<Field>>, e: Entry, severe: bool, fields: seq<Field>)
    returns (err: Outcome)
    modifies core.out
    ensures err == if Willing(old(core.out.replies)) then NoError else Failed
    ensures var d := core.enc.cfg.disableErrorVerbose;
      var all := Line(core.enc.cfg, e, core.enc.buf, AllPairs(Flatten(groups) + fields, d));
      var indented := NoSections(core.enc.cfg, e) && core.enc.buf == [] && Flatten(groups) != [];
      var line := if indented then [SPACE] + all else all;
      core.out.accepted == old(core.out.accepted) + Taken(old(core.out.replies), line)
  {
    hide Line, Header, NoSections, Extended, PairsOf;
    ghost var cfg := core.enc.cfg;
    ghost var d := cfg.disableErrorVerbose;
    ghost var ps := AllPairs(Flatten(groups), d);
    var c, i := core, 0;
    assert groups[i..] == groups;
    while i < |groups|
      invariant 0 <= i <= |groups|
      invariant c.out == core.out && c.enc.cfg == cfg
      invariant Extended(c.enc.buf, AllPairs(Flatten(groups[i..]), d)) == Extended(core.enc.buf, ps)
      invariant unchanged(core.out)
    {
      assert groups[i..][1..] == groups[i + 1..];
      AllPairsAppend(groups[i], Flatten(groups[i + 1..]), d);
      ExtendedAppend(c.enc.buf, AllPairs(groups[i], d), AllPairs(Flatten(groups[i + 1..]), d));
      c := c.With(groups[i]);
      i := i + 1;
    }
    NothingAdded(c.enc.buf);
    AllPairsAppend(Flatten(groups), fields, d);
    AttachingIsTransparentIff(cfg, e, core.enc.buf, ps, AllPairs(fields, d));
    NoPairsIff(Flatten(groups), d);
    err := c.Write(e, severe, fields);
  }

  /** Attaching fields to a core, and writing through the copy, leaves what the core itself writes as it was. */
  method ParentIsUnaffected(core: Core, more: seq<Field>, e: Entry, severe: bool, fields: seq<Field>)
    returns (child: Core)
    requires core.out.replies == []
    modifies core.out
    ensures fresh(child) && fresh(child.enc)
    ensures var d := core.enc.cfg.disableErrorVerbose;
      core.out.accepted == old(core.out.accepted)
        + Line(core.enc.cfg, e, Extended(core.enc.buf, AllPairs(more, d)), AllPairs(fields, d))
        + Line(core.enc.cfg, e, old(core.enc.buf), AllPairs(fields, d))
  {
    hide Line, Extended, AllPairs;
    child := core.With(more);
    var err := child.Write(e, severe, fields);
    err := core.Write(e, severe, fields);
  }
}
