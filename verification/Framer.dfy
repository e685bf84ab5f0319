/** The framer: envelopes are objects, a frame goes out in two writes and comes in through a pooled buffer. */
module Framer {
  import opened Bytes
  import opened Frames
  import opened Streams

  class MessageHeader {
    var op: uint32
    var number: uint64
    var size: uint32
    var flags: uint64
    var timestamp: int64

    constructor ()
      ensures Value() == Header(0, 0, 0, 0, 0)
    {
      op, number, size, flags, timestamp := 0, 0, 0, 0, 0;
    }

    function Value(): Header
      reads this
    {
      Header(op, number, size, flags, timestamp)
    }
  }

  class Envelope {
    var header: MessageHeader?
    var payload: array?<byte>

    constructor (header: MessageHeader?, payload: array?<byte>)
      ensures this.header == header && this.payload == payload
    {
      this.header, this.payload := header, payload;
    }

    /** The payload's bytes; none at all counts as empty. */
    function Bytes(): Data
      reads this, payload
    {
      if payload == null then [] else payload[..]
    }

    /** No part of this envelope can be written to through `memory`. */
    ghost predicate Apart(memory: set<object>)
      reads this
    {
      && this !in memory
      && (header != null ==> header !in memory)
      && (payload != null ==> payload !in memory)
    }

    /** The header and payload this envelope carries. */
    predicate Shows(item: Item)
      reads this, header, payload
    {
      header != null && header.Value() == item.0 && Bytes() == item.1
    }
  }

  // ---------- header bytes in an array ----------

  method PutUint(buf: array<byte>, at: nat, n: nat, width: nat)
    requires at + width <= buf.Length
    modifies buf
    ensures buf[at..at + width] == BigEndian(n, width)
    ensures forall i | 0 <= i < buf.Length && !(at <= i < at + width) :: buf[i] == old(buf[i])
  {
    Copy(buf, at, BigEndian(n, width));
  }

  method PutHeader(buf: array<byte>, h: Header)
    requires buf.Length == HEADER_SIZE
    modifies buf
    ensures buf[..] == HeaderBytes(h)
  {
    hide BigEndian;
    PutUint(buf, 0, h.op, 4);
    PutUint(buf, 4, h.number, 8);
    PutUint(buf, 12, h.size, 4);
    PutUint(buf, 16, h.flags, 8);
    PutUint(buf, 24, Unsigned(h.timestamp), 8);
    assert buf[0..4] == Put32(h.op) && buf[4..12] == Put64(h.number) && buf[12..16] == Put32(h.size);
    assert buf[16..24] == Put64(h.flags) && buf[24..32] == Put64(Unsigned(h.timestamp));
    assert buf[..] == buf[0..4] + buf[4..12] + buf[12..16] + buf[16..24] + buf[24..32];
  }

  // ---------- reading in full ----------

  /** Reads until `n` bytes are there or the reader is done, however the reader portions them. */
  method ReadFull(r: Source, buf: array<byte>, n: nat) returns (ok: bool)
    requires n <= buf.Length
    modifies r`chunks, buf
    ensures ok <==> n <= |Flatten(old(r.chunks))|
    ensures ok ==> buf[..n] == Flatten(old(r.chunks))[..n] && Flatten(r.chunks) == Flatten(old(r.chunks))[n..]
    ensures !ok ==> Flatten(r.chunks) == []
  {
    hide Delivery, Remaining;
    ghost var all := Flatten(r.chunks);
    var got := 0;
    var err := NoError;
    while got < n && err == NoError
      invariant 0 <= got <= n
      invariant buf[..got] + Flatten(r.chunks) == all
      invariant err != NoError ==> r.chunks == []
      decreases err == NoError, Weight(r.chunks)
    {
      ghost var before, done := r.chunks, buf[..got];
      var m;
      m, err := r.Read(buf, got, n);
      ReadConserves(before, n - got);
      Associative(done, Delivery(before, n - got), Flatten(r.chunks));
      assert buf[..got + m] == done + Delivery(before, n - got);
      got := got + m;
    }
    ok := got == n;
    ghost var here := buf[..got];
    assert (here + Flatten(r.chunks))[got..] == Flatten(r.chunks);
  }

  // ---------- the buffer pool ----------

  class ByteBuffer {
    var b: array<byte>

    constructor ()
      ensures fresh(b)
    {
      b := new byte[0];
    }
  }

  /** A pool of buffers; it may forget a buffer whenever it likes. */
  class BufferPool {
    var free: seq<ByteBuffer>
    /** Everything a user of the pool may write to: the pool, its buffers and their arrays, lent out or not. */
    ghost var memory: set<object>

    ghost predicate Valid()
      reads this, memory
    {
      && this in memory
      && forall i | 0 <= i < |free| :: free[i] in memory && free[i].b in memory
    }

    constructor ()
      ensures Valid() && fresh(memory)
    {
      free, memory := [], {this};
    }

    method Get() returns (x: ByteBuffer)
      requires Valid()
      modifies this
      ensures Valid() && fresh(memory - old(memory)) && old(memory) <= memory
      ensures x in memory && x.b in memory
    {
      if * {
        x := new ByteBuffer();
        memory := memory + {x, x.b};
      } else if free == [] {
        x := new ByteBuffer();
        memory := memory + {x, x.b};
      } else {
        x := free[0];
        free := free[1..];
      }
    }

    method Put(x: ByteBuffer)
      requires Valid() && x in memory && x.b in memory
      modifies this
      ensures Valid() && memory == old(memory)
    {
      if * {
        free := free + [x];
      }
    }
  }

  /** What a writer with the given replies gets of a frame, and what it makes the framer report. */
  function Sent(replies: seq<Reply>, header: Data, payload: Data): (Data, Option<FrameError>) {
    var first := Taken(replies, header);
    if !Willing(replies) then (first, Some(HeaderNotWritten))
    else if payload == [] then (first, None)
    else
      var second := Taken(Later(replies), payload);
      (first + second,
       if !Willing(Later(replies)) then Some(PayloadNotWritten)
       else if |second| < |payload| then Some(PayloadCutShort)
       else None)
  }

  class LengthPrefixedFramer {
    const maxFrameSize: uint32

    constructor (maxFrameSize: uint32)
      ensures Max() == if maxFrameSize == 0 then 16 * 1024 * 1024 else maxFrameSize
    {
      this.maxFrameSize := if maxFrameSize == 0 then DEFAULT_MAX else maxFrameSize;
    }

    function Max(): (max: uint32)
      ensures max > 0
    {
      if maxFrameSize == 0 then DEFAULT_MAX else maxFrameSize
    }

    /** The header in fixed width and the payload, each in a write of its own. */
    method Send(w: Sink, h: Header, payload: Data) returns (err: Option<FrameError>)
      modifies w
      ensures w.accepted == old(w.accepted) + Sent(old(w.replies), HeaderBytes(h), payload).0
      ensures err == Sent(old(w.replies), HeaderBytes(h), payload).1
      ensures w.replies == if !Willing(old(w.replies)) || payload == [] then Later(old(w.replies))
                           else Later(Later(old(w.replies)))
    {
      hide HeaderBytes, Taken, Willing, Later;
      var header := new byte[HEADER_SIZE];
      PutHeader(header, h);
      var n, out := w.Write(header[..]);
      if out != NoError {
        return Some(HeaderNotWritten);
      }
      if |payload| == 0 {
        return None;
      }
      n, out := w.Write(payload);
      if out != NoError {
        return Some(PayloadNotWritten);
      }
      if n != |payload| {
        return Some(PayloadCutShort);
      }
      return None;
    }

    /** The two writes of a frame; the second is left out for an empty payload. */
    method WriteFrame(w: Sink, env: Envelope?) returns (err: Option<FrameError>)
      modifies w, env, if env == null then null else env.header
      ensures env == null ==> err == Some(NilEnvelope) && unchanged(w)
      ensures env != null ==> env.header != null && env.payload == old(env.payload)
      ensures env != null && old(env.header) != null ==> env.header == old(env.header)
      ensures env != null && |env.Bytes()| > Max() ==>
        && err == Some(TooLarge) && unchanged(w)
        && env.header.Value() == if old(env.header) == null then Header(0, 0, 0, 0, 0) else old(env.header.Value())
      ensures env != null && |env.Bytes()| <= Max() ==>
        var h := if old(env.header) == null then Header(0, 0, 0, 0, 0) else old(env.header.Value());
        && env.header.Value() == h.(size := |env.Bytes()|)
        && w.accepted == old(w.accepted) + Sent(old(w.replies), HeaderBytes(env.header.Value()), env.Bytes()).0
        && err == Sent(old(w.replies), HeaderBytes(env.header.Value()), env.Bytes()).1
        && w.replies == if !Willing(old(w.replies)) || env.Bytes() == [] then Later(old(w.replies))
                        else Later(Later(old(w.replies)))
    {
      hide HeaderBytes, Taken, Willing, Later;
      if env == null {
        return Some(NilEnvelope);
      }
      if env.header == null {
        env.header := new MessageHeader();
      }
      if env.payload != null {
        if env.payload.Length > Max() {
          return Some(TooLarge);
        }
        env.header.size := env.payload.Length;
      } else {
        env.header.size := 0;
      }
      err := Send(w, env.header.Value(), env.Bytes());
    }

    method ReadPayload(r: Source, pool: BufferPool, size: nat) returns (payload: array?<byte>)
      requires pool.Valid() && r !in pool.memory
      modifies r`chunks, pool.memory
      ensures pool.Valid() && fresh(pool.memory - old(pool.memory)) && r !in pool.memory
      ensures payload == null <==> |Flatten(old(r.chunks))| < size
      ensures payload == null ==> Flatten(r.chunks) == []
      ensures payload != null ==>
        && fresh(payload) && payload !in pool.memory
        && payload[..] == Flatten(old(r.chunks))[..size] && Flatten(r.chunks) == Flatten(old(r.chunks))[size..]
    {
      hide Flatten;
      var buf := pool.Get();
      if buf.b.Length < size {
        buf.b := new byte[size];
        pool.memory := pool.memory + {buf.b};
      }
      var ok := ReadFull(r, buf.b, size);
      if !ok {
        pool.Put(buf);
        return null;
      }
      payload := new byte[size];
      Copy(payload, 0, buf.b[..size]);
      assert payload[..] == buf.b[..size];
      pool.Put(buf);
    }

    method ParseHeader(buf: array<byte>) returns (h: MessageHeader)
      requires buf.Length == HEADER_SIZE
      ensures fresh(h) && h.Value() == HeaderOf(buf[..])
    {
      hide Get32, Get64;
      h := new MessageHeader();
      var s := buf[..];
      h.op := Get32(buf[0..4]);
      h.number := Get64(buf[4..12]);
      h.size := Get32(buf[12..16]);
      h.flags := Get64(buf[16..24]);
      h.timestamp := Signed(Get64(buf[24..32]));
      assert s[0..4] == buf[0..4] && s[4..12] == buf[4..12] && s[12..16] == buf[12..16];
      assert s[16..24] == buf[16..24] && s[24..32] == buf[24..32];
    }

    /** Reads a frame; the payload is copied out of the pooled buffer before that goes back to the pool. */
    method ReadFrame(r: Source, pool: BufferPool) returns (env: Envelope?, err: Option<FrameError>)
      requires pool.Valid() && r !in pool.memory
      modifies r`chunks, pool.memory
      ensures pool.Valid() && fresh(pool.memory - old(pool.memory)) && r !in pool.memory
      ensures match Decode(Flatten(old(r.chunks)), Max())
        case Accepted(h, p, rest) =>
          && err == None && env != null && fresh(env) && env.header != null && fresh(env.header)
          && (env.payload != null ==> fresh(env.payload)) && env.Apart(pool.memory)
          && env.Shows((h, p)) && Flatten(r.chunks) == rest
        case Rejected(e, rest) => err == Some(e) && env == null && Flatten(r.chunks) == rest
    {
      hide HeaderOf, Flatten;
      var header := new byte[HEADER_SIZE];
      var ok := ReadFull(r, header, HEADER_SIZE);
      if !ok {
        return null, Some(HeaderCut);
      }
      var h := ParseHeader(header);
      assert header[..] == header[..HEADER_SIZE];
      env := new Envelope(h, null);
      if h.size > Max() {
        return null, Some(TooLarge);
      }
      var size := h.size;
      if size == 0 {
        return env, None;
      }
      var payload := ReadPayload(r, pool, size);
      if payload == null {
        return null, Some(PayloadCut);
      }
      env.payload := payload;
      return env, None;
    }
  }

  /** What was read earlier, put before what is read next. */
  function Glue(done: seq<Item>, next: Option<(seq<Item>, Data)>): Option<(seq<Item>, Data)> {
    match next
    case Some(n) => Some((done + n.0, n.1))
    case None => None
  }

  lemma DecodeOneMore(done: seq<Item>, s: Data, k: nat, max: uint32)
    requires k > 0
    ensures Glue(done, DecodeMany(s, k, max))
         == match Decode(s, max)
            case Accepted(h, p, rest) => Glue(done + [(h, p)], DecodeMany(rest, k - 1, max))
            case Rejected(_, _) => None
  {
    hide Decode;
    match Decode(s, max)
    case Accepted(h, p, rest) =>
      match DecodeMany(rest, k - 1, max) {
        case Some(n) => assert done + ([(h, p)] + n.0) == done + [(h, p)] + n.0;
        case None =>
      }
    case Rejected(_, _) =>
  }

  lemma GlueNothing(next: Option<(seq<Item>, Data)>)
    ensures Glue([], next) == next
  {
    if next.Some? {
      assert [] + next.value.0 == next.value.0;
    }
  }

  lemma DecodeNone(s: Data, max: uint32)
    ensures DecodeMany(s, 0, max) == Some(([], s))
  {
  }

  /** `k` reads in a row. In the end every envelope still shows what was read into it: no later read touched it. */
  method ReadFrames(f: LengthPrefixedFramer, r: Source, pool: BufferPool, k: nat)
    returns (envs: seq<Envelope>, err: Option<FrameError>)
    requires pool.Valid() && r !in pool.memory
    modifies r`chunks, pool.memory
    ensures err == None <==> DecodeMany(Flatten(old(r.chunks)), k, f.Max()).Some?
    ensures err == None ==>
      var (items, rest) := DecodeMany(Flatten(old(r.chunks)), k, f.Max()).value;
      |envs| == |items| == k && Flatten(r.chunks) == rest && forall i | 0 <= i < k :: envs[i].Shows(items[i])
  {
    hide Decode, Flatten, DecodeMany;
    ghost var all, done := Flatten(r.chunks), [];
    envs, err := [], None;
    assert Glue(done, DecodeMany(all, k, f.Max())) == DecodeMany(all, k, f.Max()) by {
      GlueNothing(DecodeMany(all, k, f.Max()));
    }
    while |envs| < k
      invariant |envs| == |done| <= k
      invariant pool.Valid() && r !in pool.memory && fresh(pool.memory - old(pool.memory))
      invariant DecodeMany(all, k, f.Max()) == Glue(done, DecodeMany(Flatten(r.chunks), k - |envs|, f.Max()))
      invariant forall i | 0 <= i < |envs| :: envs[i].Shows(done[i]) && envs[i].Apart(pool.memory)
      invariant err == None
    {
      ghost var s := Flatten(r.chunks);
      DecodeOneMore(done, s, k - |envs|, f.Max());
      var env;
      env, err := f.ReadFrame(r, pool);
      if env == null {
        return;
      }
      ghost var d := Decode(s, f.Max());
      done := done + [(d.header, d.payload)];
      envs := envs + [env];
    }
    assert DecodeMany(Flatten(r.chunks), 0, f.Max()) == Some(([], Flatten(r.chunks))) by {
      DecodeNone(Flatten(r.chunks), f.Max());
    }
    assert done + [] == done;
  }

  /** A writer as io.Writer has it: one that takes less than it is given says so. */
  predicate Honest(replies: seq<Reply>, p: Data) {
    Willing(replies) ==> Taken(replies, p) == p
  }

  /**
   * No error means the whole frame was sent, exactly if the header went out whole: a short write of the payload is
   * noticed, one of the header is not. With an honest writer nothing but the start of a frame is ever sent. A write
   * that fails is always reported, the one that came first.
   */
  lemma SentIsFrame(replies: seq<Reply>, h: Header, payload: Data)
    requires |payload| < 0x1_0000_0000
    ensures var header := HeaderBytes(h.(size := |payload|));
      var (bytes, err) := Sent(replies, header, payload);
      && (err == Some(HeaderNotWritten) <==> !Willing(replies))
      && (err == Some(PayloadNotWritten) <==> Willing(replies) && payload != [] && !Willing(Later(replies)))
      && (err == Some(PayloadCutShort) <==>
            Willing(replies) && Willing(Later(replies)) && |Taken(Later(replies), payload)| < |payload|)
      && (err == None ==> (bytes == Frame(h, payload) <==> Taken(replies, header) == header))
      && (Honest(replies, header) ==> bytes <= Frame(h, payload) && (err == None ==> bytes == Frame(h, payload)))
  {
    hide HeaderBytes;
    var header := HeaderBytes(h.(size := |payload|));
    var (bytes, err) := Sent(replies, header, payload);
    if err == None {
      assert bytes == Taken(replies, header) + payload;
    }
  }
}
