/** The wire format of a frame: a header of 32 bytes and the payload whose size the header tells. */
module Frames {
  import opened Bytes

  type Data = seq<byte>

  datatype Header = Header(op: uint32, number: uint64, size: uint32, flags: uint64, timestamp: int64)

  const HEADER_SIZE := 32
  const DEFAULT_MAX: uint32 := 16 * 1024 * 1024

  // ---------- integers of fixed width ----------

  /** The unsigned reading of a signed integer in two's complement. */
  function Unsigned(t: int64): uint64 {
    if t < 0 then t + 0x1_0000_0000_0000_0000 else t
  }

  function Signed(n: uint64): int64 {
    if n >= 0x8000_0000_0000_0000 then n - 0x1_0000_0000_0000_0000 else n
  }

  function Put32(n: uint32): (s: Data)
    ensures |s| == 4
  {
    BigEndian(n, 4)
  }

  function Put64(n: uint64): (s: Data)
    ensures |s| == 8
  {
    BigEndian(n, 8)
  }

  lemma Widths()
    ensures Pow256(4) == 0x1_0000_0000 && Pow256(8) == 0x1_0000_0000_0000_0000
  {
  }

  function Get32(s: Data): uint32
    requires |s| == 4
  {
    Widths();
    FromBigEndian(s)
  }

  function Get64(s: Data): uint64
    requires |s| == 8
  {
    Widths();
    FromBigEndian(s)
  }

  lemma Get32Put32(n: uint32)
    ensures Get32(Put32(n)) == n
  {
    Widths();
    BigEndianRoundTrip(n, 4);
  }

  lemma Get64Put64(n: uint64)
    ensures Get64(Put64(n)) == n
  {
    Widths();
    BigEndianRoundTrip(n, 8);
  }

  // ---------- headers ----------

  function HeaderBytes(h: Header): (s: Data)
    ensures |s| == HEADER_SIZE
  {
    Put32(h.op) + Put64(h.number) + Put32(h.size) + Put64(h.flags) + Put64(Unsigned(h.timestamp))
  }

  function HeaderOf(s: Data): Header
    requires |s| == HEADER_SIZE
  {
    Header(Get32(s[0..4]), Get64(s[4..12]), Get32(s[12..16]), Get64(s[16..24]), Signed(Get64(s[24..32])))
  }

  lemma HeaderFields(h: Header)
    ensures var s := HeaderBytes(h);
      && s[0..4] == Put32(h.op) && s[4..12] == Put64(h.number) && s[12..16] == Put32(h.size)
      && s[16..24] == Put64(h.flags) && s[24..32] == Put64(Unsigned(h.timestamp))
  {
    hide Put32, Put64;
  }

  lemma HeaderRoundTrip(h: Header)
    ensures HeaderOf(HeaderBytes(h)) == h
  {
    hide Put32, Put64, Get32, Get64, HeaderBytes;
    HeaderFields(h);
    Get32Put32(h.op);
    Get64Put64(h.number);
    Get32Put32(h.size);
    Get64Put64(h.flags);
    Get64Put64(Unsigned(h.timestamp));
  }

  /** The number four bytes stand for, the most significant first. */
  function Word(s: Data, at: nat): nat
    requires at + 4 <= |s|
  {
    s[at] as int * 0x100_0000 + s[at + 1] as int * 0x1_0000 + s[at + 2] as int * 0x100 + s[at + 3] as int
  }

  lemma LastByte(s: Data, n: nat)
    requires 0 < n <= |s|
    ensures FromBigEndian(s[..n]) == 256 * FromBigEndian(s[..n - 1]) + s[n - 1]
  {
    assert s[..n][..n - 1] == s[..n - 1];
  }

  /** Four more bytes. */
  lemma WordMore(s: Data, at: nat)
    requires at + 4 <= |s|
    ensures FromBigEndian(s[..at + 4]) == FromBigEndian(s[..at]) * 0x1_0000_0000 + Word(s, at)
  {
    hide FromBigEndian;
    LastByte(s, at + 4);
    LastByte(s, at + 3);
    LastByte(s, at + 2);
    LastByte(s, at + 1);
  }

  lemma WordsAreBigEndian(s: Data)
    requires |s| == 4 || |s| == 8
    ensures FromBigEndian(s) == if |s| == 4 then Word(s, 0) else Word(s, 0) * 0x1_0000_0000 + Word(s, 4)
  {
    WordMore(s, 0);
    assert s[..0] == [];
    if |s| == 8 {
      WordMore(s, 4);
      assert s[..8] == s;
    } else {
      assert s[..4] == s;
    }
  }

  lemma WordsOfPart(s: Data, lo: nat, hi: nat)
    requires lo + 4 <= hi <= |s|
    ensures Word(s[lo..hi], 0) == Word(s, lo)
    ensures hi - lo >= 8 ==> Word(s[lo..hi], 4) == Word(s, lo + 4)
  {
  }

  /** Where the fields of a header are on the wire, and in which order their bytes come; the timestamp is in two's
      complement. */
  lemma HeaderLayout(h: Header)
    ensures var s := HeaderBytes(h);
      && h.op == Word(s, 0)
      && h.number == Word(s, 4) * 0x1_0000_0000 + Word(s, 8)
      && h.size == Word(s, 12)
      && h.flags == Word(s, 16) * 0x1_0000_0000 + Word(s, 20)
      && h.timestamp % 0x1_0000_0000_0000_0000 == Word(s, 24) * 0x1_0000_0000 + Word(s, 28)
  {
    hide BigEndian, FromBigEndian, HeaderBytes, Word;
    var s := HeaderBytes(h);
    HeaderFields(h);
    Get32Put32(h.op);
    Get64Put64(h.number);
    Get32Put32(h.size);
    Get64Put64(h.flags);
    Get64Put64(Unsigned(h.timestamp));
    WordsAreBigEndian(s[0..4]);
    WordsAreBigEndian(s[4..12]);
    WordsAreBigEndian(s[12..16]);
    WordsAreBigEndian(s[16..24]);
    WordsAreBigEndian(s[24..32]);
    WordsOfPart(s, 0, 4);
    WordsOfPart(s, 4, 12);
    WordsOfPart(s, 12, 16);
    WordsOfPart(s, 16, 24);
    WordsOfPart(s, 24, 32);
  }

  lemma BytesRoundTrip(s: Data)
    requires |s| == HEADER_SIZE
    ensures HeaderBytes(HeaderOf(s)) == s
  {
    hide BigEndian, FromBigEndian;
    FromBigEndianRoundTrip(s[0..4]);
    FromBigEndianRoundTrip(s[4..12]);
    FromBigEndianRoundTrip(s[12..16]);
    FromBigEndianRoundTrip(s[16..24]);
    FromBigEndianRoundTrip(s[24..32]);
  }

  // ---------- frames ----------

  function Frame(h: Header, payload: Data): Data
    requires |payload| < 0x1_0000_0000
  {
    HeaderBytes(h.(size := |payload|)) + payload
  }

  datatype FrameError =
    | NilEnvelope
    | HeaderCut
    | TooLarge
    | PayloadCut
    | HeaderNotWritten
    | PayloadNotWritten
    | PayloadCutShort

  /** What reading one frame gives, and the bytes left unread. */
  datatype Decoded = Accepted(header: Header, payload: Data, rest: Data) | Rejected(error: FrameError, rest: Data)

  function Decode(s: Data, max: uint32): Decoded {
    if |s| < HEADER_SIZE then Rejected(HeaderCut, [])
    else
      var h, body := HeaderOf(s[..HEADER_SIZE]), s[HEADER_SIZE..];
      if h.size > max then Rejected(TooLarge, body)
      else if |body| < h.size then Rejected(PayloadCut, [])
      else Accepted(h, body[..h.size], body[h.size..])
  }

  /** A frame is accepted exactly within the limit, and read back with the size put right. */
  lemma DecodeFrame(h: Header, payload: Data, rest: Data, max: uint32)
    requires |payload| < 0x1_0000_0000
    ensures Decode(Frame(h, payload) + rest, max)
         == if |payload| <= max then Accepted(h.(size := |payload|), payload, rest)
            else Rejected(TooLarge, payload + rest)
  {
    hide HeaderBytes, HeaderOf;
    var h' := h.(size := |payload|);
    HeaderRoundTrip(h');
    var s := Frame(h, payload) + rest;
    assert s[..HEADER_SIZE] == HeaderBytes(h');
    assert s[HEADER_SIZE..] == payload + rest;
  }

  /** What is accepted is a frame: encoding it again gives the bytes that were read. */
  lemma FrameDecoded(s: Data, max: uint32)
    requires Decode(s, max).Accepted?
    ensures var d := Decode(s, max);
      |d.payload| == d.header.size <= max && Frame(d.header, d.payload) + d.rest == s
  {
    hide HeaderBytes, HeaderOf;
    BytesRoundTrip(s[..HEADER_SIZE]);
  }

  /** Nothing that is cut short is accepted. */
  lemma NoPrefixIsAccepted(s: Data, k: nat, max: uint32)
    requires Decode(s, max).Accepted? && Decode(s, max).rest == [] && k < |s|
    ensures Decode(s[..k], max) == Rejected(if k < HEADER_SIZE then HeaderCut else PayloadCut, [])
  {
    hide HeaderOf;
    if k >= HEADER_SIZE {
      assert s[..k][..HEADER_SIZE] == s[..HEADER_SIZE];
    }
  }

  // ---------- streams of frames ----------

  type Item = (Header, Data)

  predicate Within(items: seq<Item>, max: uint32) {
    forall i | 0 <= i < |items| :: |items[i].1| <= max
  }

  function Stream(items: seq<Item>, max: uint32): Data
    requires Within(items, max)
  {
    if items == [] then [] else Frame(items[0].0, items[0].1) + Stream(items[1..], max)
  }

  /** Reading `k` frames one after the other. */
  function DecodeMany(s: Data, k: nat, max: uint32): Option<(seq<Item>, Data)> {
    if k == 0 then Some(([], s))
    else
      match Decode(s, max)
      case Rejected(_, _) => None
      case Accepted(h, p, rest) =>
        match DecodeMany(rest, k - 1, max)
        case None => None
        case Some(others) => Some(([(h, p)] + others.0, others.1))
  }

  predicate SizesRight(items: seq<Item>) {
    forall i | 0 <= i < |items| :: items[i].0.size == |items[i].1|
  }

  function Normalised(items: seq<Item>, max: uint32): (r: seq<Item>)
    requires Within(items, max)
    ensures |r| == |items| && Within(r, max) && SizesRight(r)
    ensures forall i | 0 <= i < |items| :: r[i] == (items[i].0.(size := |items[i].1|), items[i].1)
  {
    if items == [] then []
    else [(items[0].0.(size := |items[0].1|), items[0].1)] + Normalised(items[1..], max)
  }

  /** As many reads as frames were written give those frames, and leave what comes after them. */
  lemma {:induction false} StreamRoundTrip(items: seq<Item>, rest: Data, max: uint32)
    requires Within(items, max)
    ensures DecodeMany(Stream(items, max) + rest, |items|, max) == Some((Normalised(items, max), rest))
    decreases |items|
  {
    hide Decode, Frame;
    if items == [] {
      assert Stream(items, max) + rest == rest;
    } else {
      var first, tail := Frame(items[0].0, items[0].1), Stream(items[1..], max);
      Associative(first, tail, rest);
      DecodeFrame(items[0].0, items[0].1, tail + rest, max);
      StreamRoundTrip(items[1..], rest, max);
    }
  }

  /** The other way round: whatever was read is, frame by frame, the bytes it was read from. */
  lemma {:induction false} StreamDecoded(s: Data, k: nat, max: uint32)
    requires DecodeMany(s, k, max).Some?
    ensures var (items, rest) := DecodeMany(s, k, max).value;
      |items| == k && Within(items, max) && SizesRight(items) && Stream(items, max) + rest == s
    decreases k
  {
    hide Decode, Frame;
    if k > 0 {
      var d := Decode(s, max);
      FrameDecoded(s, max);
      StreamDecoded(d.rest, k - 1, max);
      var (items, rest) := DecodeMany(d.rest, k - 1, max).value;
      var all := [(d.header, d.payload)] + items;
      assert all[1..] == items;
      Associative(Frame(d.header, d.payload), Stream(items, max), rest);
    }
  }

  /** Different lists of frames, sizes put right, are different bytes. */
  lemma {:induction false} StreamsDiffer(a: seq<Item>, b: seq<Item>, max: uint32)
    requires Within(a, max) && Within(b, max)
    requires Stream(a, max) == Stream(b, max)
    ensures Normalised(a, max) == Normalised(b, max)
    decreases |a|
  {
    hide Decode, HeaderBytes;
    if a != [] && b != [] {
      DecodeFrame(a[0].0, a[0].1, Stream(a[1..], max), max);
      DecodeFrame(b[0].0, b[0].1, Stream(b[1..], max), max);
      StreamsDiffer(a[1..], b[1..], max);
    }
  }
}
