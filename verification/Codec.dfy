/** The codec: messages to frames and back, with the caller's header updated on the way. */
module Codec {
  import opened Bytes
  import opened Frames
  import opened Framer
  import opened Pipeline
  import opened Streams

  datatype Serializer<!M> = Serializer(marshal: M -> Option<Data>, unmarshal: Data -> Option<M>)

  class Codec<M> {
    const framer: LengthPrefixedFramer
    const serializer: Serializer<M>
    const parts: Parts

    constructor (framer: LengthPrefixedFramer, serializer: Serializer<M>, parts: Parts)
      ensures this.framer == framer && this.serializer == serializer && this.parts == parts
    {
      this.framer, this.serializer, this.parts := framer, serializer, parts;
    }

    /** How the stages and the writer leave the header and the stream. */
    twostate predicate Written(w: Sink, header: MessageHeader, body: Data, random: Data, new err: Option<CodecError>)
      reads w, header
    {
      var (h, out) := Outgoing(parts, old(header.Value()), body, random);
      match out
      case Err(e) => err == Some(e) && unchanged(w) && header.Value() == h
      case Ok(payload) =>
        header.Value() == h.(size := |payload| % 0x1_0000_0000)
        && if |payload| > framer.Max() then err == Some(WriteFailed(TooLarge)) && unchanged(w)
           else
             var (bytes, e) := Sent(old(w.replies), HeaderBytes(header.Value()), payload);
             && w.accepted == old(w.accepted) + bytes
             && err == match e case None => None case Some(f) => Some(WriteFailed(f))
    }

    method SetFlag(header: MessageHeader, k: nat, on: bool)
      requires k < 64
      modifies header
      ensures header.Value() == Flag(old(header.Value()), k, on)
    {
      header.flags := Flagged(header.flags, k, on);
    }

    /** The last step: the size, and the frame. */
    method WriteOut(w: Sink, header: MessageHeader, body: Data) returns (err: Option<CodecError>)
      modifies w, header
      ensures header.Value() == old(header.Value()).(size := |body| % 0x1_0000_0000)
      ensures |body| > framer.Max() ==> err == Some(WriteFailed(TooLarge)) && unchanged(w)
      ensures |body| <= framer.Max() ==>
        var (bytes, e) := Sent(old(w.replies), HeaderBytes(header.Value()), body);
        && w.accepted == old(w.accepted) + bytes
        && err == match e case None => None case Some(f) => Some(WriteFailed(f))
    {
      hide HeaderBytes, Sent;
      header.size := |body| % 0x1_0000_0000;
      var payload := new byte[|body|];
      Copy(payload, 0, body);
      assert payload[..] == body;
      var env := new Envelope(header, payload);
      var e := framer.WriteFrame(w, env);
      match e
      case Some(f) => return Some(WriteFailed(f));
      case None => return None;
    }

    method WriteBody(w: Sink, header: MessageHeader, marshalled: Data, random: Data) returns (err: Option<CodecError>)
      modifies w, header
      ensures Written(w, header, marshalled, random, err)
    {
      hide HeaderBytes, Sent, WithBit, Aad;
      var body := marshalled;
      SetFlag(header, parts.bits.0, false);
      SetFlag(header, parts.bits.1, false);
      if parts.compress && |body| > 0 {
        match parts.deflate(body)
        case None => return Some(CompressFailed);
        case Some(compressed) =>
          body := compressed;
          SetFlag(header, parts.bits.0, true);
      }
      if parts.encrypt && |body| > 0 {
        match parts.seal(body, Aad(header.Value()), random)
        case None => return Some(EncryptFailed);
        case Some(packet) =>
          body := packet;
          SetFlag(header, parts.bits.1, true);
      }
      err := WriteOut(w, header, body);
    }

    /** Serializes, compresses, encrypts and writes a message; `header` ends up as the frame has it. */
    method Encode(w: Sink?, header: MessageHeader?, msg: Option<M>, random: Data) returns (err: Option<CodecError>)
      modifies w, header
      ensures w == null ==> err == Some(NilWriter)
      ensures w != null && msg == None ==> err == Some(NilMessage) && unchanged(w)
      ensures w != null && msg.Some? && header == null ==> err == Some(NilHeader) && unchanged(w)
      ensures w != null && msg.Some? && header != null ==>
        match serializer.marshal(msg.value)
        case None => err == Some(MarshalFailed) && unchanged(w) && unchanged(header)
        case Some(body) => Written(w, header, body, random, err)
    {
      hide Outgoing, HeaderBytes;
      if w == null {
        return Some(NilWriter);
      }
      if msg == None {
        return Some(NilMessage);
      }
      if header == null {
        return Some(NilHeader);
      }
      match serializer.marshal(msg.value)
      case None => return Some(MarshalFailed);
      case Some(body) => err := WriteBody(w, header, body, random);
    }

    /** Reads a frame and undoes encryption and compression. A body that comes out of a frame marked as encrypted or
        compressed went through that stage. */
    method DecodeRaw(r: Source?, pool: BufferPool) returns (res: Result<(MessageHeader, Data)>)
      requires pool.Valid() && r !in pool.memory
      modifies if r == null then {} else {r}, pool.memory
      ensures r == null ==> res == Err(NilReader)
      ensures r != null ==>
        var (want, rest) := Received(parts, Flatten(old(r.chunks)), framer.Max());
        && Flatten(r.chunks) == rest
        && match want
           case Err(e) => res == Err(e)
           case Ok(v) => res.Ok? && fresh(res.value.0) && res.value.0.Value() == v.0 && res.value.1 == v.1
      ensures res.Ok? ==>
        var frame, h := Frames.Decode(Flatten(old(r.chunks)), framer.Max()), res.value.0.Value();
        && frame.Accepted? && h == frame.header
        && exists mid :: DecryptsTo(parts, h, frame.payload, mid) && InflatesTo(parts, h, mid, res.value.1)
    {
      hide Frames.Decode, HasBit, Aad;
      if r == null {
        return Err(NilReader);
      }
      var env, err := framer.ReadFrame(r, pool);
      if err.Some? {
        return Err(ReadFailed(err.value));
      }
      var header := env.header;
      var data := env.Bytes();
      ghost var payload := data;
      if HasBit(header.flags, parts.bits.1) {
        if !parts.encrypt {
          return Err(EncryptionDisabled);
        }
        if |data| == 0 {
          return Err(EncryptedIsEmpty);
        }
        match parts.open(data, Aad(header.Value()))
        case None => return Err(DecryptFailed);
        case Some(plain) => data := plain;
      }
      ghost var mid := data;
      assert DecryptsTo(parts, header.Value(), payload, mid);
      if HasBit(header.flags, parts.bits.0) {
        if !parts.compress {
          return Err(CompressionDisabled);
        }
        if |data| == 0 {
          return Err(CompressedIsEmpty);
        }
        match parts.inflate(data)
        case None => return Err(DecompressFailed);
        case Some(plain) => data := plain;
      }
      assert InflatesTo(parts, header.Value(), mid, data);
      return Ok((header, data));
    }

    /** As DecodeRaw, and the message the body stands for; an empty body stands for none. */
    method Decode(r: Source?, pool: BufferPool, wanted: bool) returns (res: Result<(MessageHeader, Option<M>)>)
      requires pool.Valid() && r !in pool.memory
      modifies if r == null then {} else {r}, pool.memory
      ensures r != null ==>
        match Received(parts, Flatten(old(r.chunks)), framer.Max()).0
        case Err(e) => res == Err(e)
        case Ok((h, data)) =>
          if wanted && data != [] && serializer.unmarshal(data).None? then res == Err(UnmarshalFailed)
          else (res.Ok? && res.value.0.Value() == h
                && res.value.1 == if wanted && data != [] then serializer.unmarshal(data) else None)
    {
      hide Received;
      var raw := DecodeRaw(r, pool);
      match raw
      case Err(e) => return Err(e);
      case Ok((header, data)) =>
        if wanted && |data| > 0 {
          var msg := serializer.unmarshal(data);
          if msg == None {
            return Err(UnmarshalFailed);
          }
          return Ok((header, msg));
        }
        return Ok((header, None));
    }
  }

  /** A writer that takes everything gets the whole frame. */
  lemma AllIsSent(h: Header, payload: Data)
    requires |payload| < 0x1_0000_0000
    ensures Sent([], HeaderBytes(h.(size := |payload|)), payload) == (Frame(h, payload), None)
  {
    hide HeaderBytes;
    var header := HeaderBytes(h.(size := |payload|));
    assert header + [] == header;
  }

  /**
   * From one end of a connection to the other, however the connection portions the bytes: unless the compressor or
   * the encryptor fails or the payload is too large, the message's bytes arrive with the header as it was sent.
   */
  method Loopback<M>(c: Codec<M>, header: MessageHeader, msg: M, random: Data, pool: BufferPool,
          portions: Data -> seq<Data>)
    returns (res: Result<(MessageHeader, Data)>)
    requires c.parts.CompressorIsLawful() && c.parts.SealsToSomething() && c.parts.EncryptorIgnoresAad()
    requires forall x :: Flatten(portions(x)) == x
    requires pool.Valid() && header !in pool.memory
    modifies header, pool.memory
    ensures match c.serializer.marshal(msg)
      case None => res == Err(MarshalFailed)
      case Some(body) =>
        var out := Outgoing(c.parts, old(header.Value()), body, random).1;
        match out
        case Err(e) => res == Err(e)
        case Ok(payload) =>
          if |payload| > c.framer.Max() then res == Err(WriteFailed(TooLarge))
          else res.Ok? && res.value.1 == body && res.value.0 != header && res.value.0.Value() == header.Value()
  {
    hide Outgoing, Received, Sent, Frame, HeaderBytes, Flatten;
    ghost var sent := header.Value();
    var w := new Sink([]);
    var err := c.Encode(w, header, Some(msg), random);
    ghost var body := c.serializer.marshal(msg);
    if body.Some? {
      ghost var (h, out) := Outgoing(c.parts, sent, body.value, random);
      if out.Ok? && |out.value| <= c.framer.Max() {
        AllIsSent(h, out.value);
        PipelineRoundTrip(c.parts, sent, body.value, random, [], c.framer.Max());
        assert w.accepted == Frame(h, out.value) + [];
      }
    }
    if err.Some? {
      return Err(err.value);
    }
    var r := new Source(portions(w.accepted), false, false);
    res := c.DecodeRaw(r, pool);
  }
}
