/** What the codec does to a body between the serializer and the wire, and back. */
module Pipeline {
  import opened Bytes
  import opened Frames
  import AeadHmac

  datatype CodecError =
    | NilWriter | NilMessage | NilHeader | NilReader
    | MarshalFailed | UnmarshalFailed
    | CompressFailed | EncryptFailed | WriteFailed(write: FrameError)
    | ReadFailed(read: FrameError)
    | EncryptionDisabled | EncryptedIsEmpty | DecryptFailed
    | CompressionDisabled | CompressedIsEmpty | DecompressFailed

  datatype Result<T> = Ok(value: T) | Err(error: CodecError)

  /** The positions of the two flags in a header: any two different ones. */
  type Bits = b: (nat, nat) | b.0 < 64 && b.1 < 64 && b.0 != b.1 witness (0, 1)

  /** The pluggable parts. Encrypting takes the random bytes it uses as its last argument. */
  datatype Parts = Parts(
    compress: bool,
    encrypt: bool,
    bits: Bits,
    deflate: Data -> Option<Data>,
    inflate: Data -> Option<Data>,
    seal: (Data, Data, Data) -> Option<Data>,
    open: (Data, Data) -> Option<Data>)
  {
    /** Decompressing undoes compressing, and something never becomes nothing. */
    ghost predicate CompressorIsLawful() {
      forall x :: deflate(x).Some? ==> inflate(deflate(x).value) == Some(x) && (x != [] ==> deflate(x).value != [])
    }

    ghost predicate SealsToSomething() {
      forall x, a, n :: seal(x, a, n).Some? && x != [] ==> seal(x, a, n).value != []
    }

    /** An encryptor that takes no notice of the associated data and inverts. */
    ghost predicate EncryptorIgnoresAad() {
      forall x, a, n, a' :: seal(x, a, n).Some? ==> open(seal(x, a, n).value, a') == Some(x)
    }
  }

  /** What stands in for a compressor and an encryptor that were not given. */
  function Nop(compress: bool, encrypt: bool, bits: Bits): Parts {
    Parts(compress, encrypt, bits, x => Some(x), x => Some(x), (x, a, n) => Some(x), (y, a) => Some(y))
  }

  lemma NopIsLawful(compress: bool, encrypt: bool, bits: Bits)
    ensures var parts := Nop(compress, encrypt, bits);
      parts.CompressorIsLawful() && parts.SealsToSomething() && parts.EncryptorIgnoresAad()
  {
  }

  // ---------- flags and associated data ----------

  /** Powers of two by bytes. */
  lemma {:induction false} Pow2OfBytes(k: nat)
    ensures Pow2(8 * k) == Pow256(k)
  {
    if k > 0 {
      Pow2OfBytes(k - 1);
      var m := 8 * (k - 1);
      assert Pow2(m + 2) == 4 * Pow2(m);
      assert Pow2(m + 4) == 4 * Pow2(m + 2);
      assert Pow2(m + 6) == 4 * Pow2(m + 4);
      assert Pow2(m + 8) == 4 * Pow2(m + 6);
    }
  }

  lemma Width64()
    ensures Pow2(64) == 0x1_0000_0000_0000_0000
  {
    Pow2OfBytes(8);
    Widths();
  }

  function Flagged(flags: uint64, k: nat, on: bool): uint64
    requires k < 64
  {
    Width64();
    WithBitFits(flags, k, on, 64);
    WithBit(flags, k, on)
  }

  function Flag(h: Header, k: nat, on: bool): Header
    requires k < 64
  {
    h.(flags := Flagged(h.flags, k, on))
  }

  /** The part of a header that encryption protects; the size is left out. */
  function Aad(h: Header): Data {
    Put32(h.op) + Put64(h.number) + Put64(h.flags) + Put64(Unsigned(h.timestamp))
  }

  /** It is the header as it goes over the wire, without the four bytes of the size. */
  lemma AadIsHeaderWithoutSize(h: Header)
    ensures Aad(h) == HeaderBytes(h)[..12] + HeaderBytes(h)[16..]
  {
    hide Put32, Put64;
  }

  /** Associated data determines everything in the header but the size. */
  lemma AadIsExact(h: Header, g: Header)
    ensures Aad(h) == Aad(g) <==> h.(size := 0) == g.(size := 0)
  {
    hide Put32, Put64, Get32, Get64;
    if Aad(h) == Aad(g) {
      assert Put32(h.op) == Aad(h)[0..4] == Aad(g)[0..4] == Put32(g.op);
      assert Put64(h.number) == Aad(h)[4..12] == Aad(g)[4..12] == Put64(g.number);
      assert Put64(h.flags) == Aad(h)[12..20] == Aad(g)[12..20] == Put64(g.flags);
      assert Put64(Unsigned(h.timestamp)) == Aad(h)[20..28] == Aad(g)[20..28] == Put64(Unsigned(g.timestamp));
      Get32Put32(h.op);
      Get32Put32(g.op);
      Get64Put64(h.number);
      Get64Put64(g.number);
      Get64Put64(h.flags);
      Get64Put64(g.flags);
      Get64Put64(Unsigned(h.timestamp));
      Get64Put64(Unsigned(g.timestamp));
    }
  }

  // ---------- writing out ----------

  /** The header and body after a stage; the header keeps what was set before a stage that failed. */
  type Stage = (Header, Result<Data>)

  function Compressed(parts: Parts, h: Header, body: Data): Stage {
    var h := Flag(Flag(h, parts.bits.0, false), parts.bits.1, false);
    if !parts.compress || body == [] then (h, Ok(body))
    else
      match parts.deflate(body)
      case Some(c) => (Flag(h, parts.bits.0, true), Ok(c))
      case None => (h, Err(CompressFailed))
  }

  function Encrypted(parts: Parts, s: Stage, random: Data): Stage {
    if s.1.Err? || !parts.encrypt || s.1.value == [] then s
    else
      match parts.seal(s.1.value, Aad(s.0), random)
      case Some(p) => (Flag(s.0, parts.bits.1, true), Ok(p))
      case None => (s.0, Err(EncryptFailed))
  }

  /** The header and the payload that go into the frame. */
  function Outgoing(parts: Parts, h: Header, body: Data, random: Data): Stage {
    Encrypted(parts, Compressed(parts, h, body), random)
  }

  // ---------- reading in ----------

  function Decrypted(parts: Parts, h: Header, data: Data): Result<Data> {
    if !HasBit(h.flags, parts.bits.1) then Ok(data)
    else if !parts.encrypt then Err(EncryptionDisabled)
    else if data == [] then Err(EncryptedIsEmpty)
    else
      match parts.open(data, Aad(h))
      case Some(p) => Ok(p)
      case None => Err(DecryptFailed)
  }

  function Decompressed(parts: Parts, h: Header, data: Data): Result<Data> {
    if !HasBit(h.flags, parts.bits.0) then Ok(data)
    else if !parts.compress then Err(CompressionDisabled)
    else if data == [] then Err(CompressedIsEmpty)
    else
      match parts.inflate(data)
      case Some(p) => Ok(p)
      case None => Err(DecompressFailed)
  }

  function Incoming(parts: Parts, h: Header, data: Data): Result<Data> {
    match Decrypted(parts, h, data)
    case Ok(d) => Decompressed(parts, h, d)
    case Err(e) => Err(e)
  }

  /** What is read from the stream `s`: the header and the body, and the bytes left. */
  function Received(parts: Parts, s: Data, max: uint32): (Result<(Header, Data)>, Data) {
    match Decode(s, max)
    case Rejected(e, rest) => (Err(ReadFailed(e)), rest)
    case Accepted(h, p, rest) =>
      match Incoming(parts, h, p)
      case Ok(d) => (Ok((h, d)), rest)
      case Err(e) => (Err(e), rest)
  }

  // ---------- what is accepted ----------

  /** `mid` is what decryption leaves of `data`: the data itself if the header does not call it encrypted, and otherwise
      what the encryptor, which must be on, makes of data that is there. */
  predicate DecryptsTo(parts: Parts, h: Header, data: Data, mid: Data) {
    if HasBit(h.flags, parts.bits.1) then parts.encrypt && data != [] && parts.open(data, Aad(h)) == Some(mid)
    else mid == data
  }

  predicate InflatesTo(parts: Parts, h: Header, mid: Data, body: Data) {
    if HasBit(h.flags, parts.bits.0) then parts.compress && mid != [] && parts.inflate(mid) == Some(body)
    else body == mid
  }

  /** The exact condition of every outcome of decoding. Nothing that the header calls encrypted or compressed comes out
      unless that stage is on, there was something to work on, and it succeeded. */
  lemma IncomingMeans(parts: Parts, h: Header, data: Data, body: Data)
    ensures Incoming(parts, h, data) == Ok(body)
       <==> exists mid :: DecryptsTo(parts, h, data, mid) && InflatesTo(parts, h, mid, body)
    ensures Incoming(parts, h, data) == Err(EncryptionDisabled) <==> HasBit(h.flags, parts.bits.1) && !parts.encrypt
    ensures Incoming(parts, h, data) in {Err(EncryptedIsEmpty), Err(DecryptFailed)}
       <==> HasBit(h.flags, parts.bits.1) && parts.encrypt && forall mid :: !DecryptsTo(parts, h, data, mid)
    ensures Incoming(parts, h, data) == Err(EncryptedIsEmpty)
       <==> HasBit(h.flags, parts.bits.1) && parts.encrypt && data == []
    ensures Incoming(parts, h, data) == Err(CompressionDisabled)
       <==> HasBit(h.flags, parts.bits.0) && !parts.compress && exists mid :: DecryptsTo(parts, h, data, mid)
    ensures Incoming(parts, h, data) == Err(CompressedIsEmpty)
       <==> HasBit(h.flags, parts.bits.0) && parts.compress && DecryptsTo(parts, h, data, [])
    ensures Incoming(parts, h, data) == Err(DecompressFailed)
       <==> && HasBit(h.flags, parts.bits.0) && parts.compress
            && exists mid :: mid != [] && DecryptsTo(parts, h, data, mid) && parts.inflate(mid) == None
  {
    hide HasBit, Aad;
    if Decrypted(parts, h, data).Ok? {
      assert DecryptsTo(parts, h, data, Decrypted(parts, h, data).value);
    }
  }

  // ---------- what the flags say ----------

  predicate IsCompressed(parts: Parts, body: Data) {
    parts.compress && body != []
  }

  /** Whether what the compressor makes of the body is encrypted. */
  predicate IsEncrypted(parts: Parts, s: Stage) {
    s.1.Ok? && parts.encrypt && s.1.value != []
  }

  /** After encoding, the two flags tell what was done; every other bit and field is the caller's. */
  lemma FlagsAreExact(parts: Parts, h: Header, body: Data, random: Data, j: nat)
    requires Outgoing(parts, h, body, random).1.Ok?
    ensures var h' := Outgoing(parts, h, body, random).0;
      && HasBit(h'.flags, j) == (if j == parts.bits.0 then IsCompressed(parts, body)
                                 else if j == parts.bits.1 then IsEncrypted(parts, Compressed(parts, h, body))
                                 else HasBit(h.flags, j))
      && h'.(flags := 0) == h.(flags := 0)
  {
    hide HasBit, WithBit;
    var (c, e) := parts.bits;
    var f0 := h.flags;
    var f1 := Flagged(f0, c, false);
    var f2 := Flagged(f1, e, false);
    var f3 := Flagged(f2, c, true);
    WithBitIsExact(f0, c, false, j);
    WithBitIsExact(f1, e, false, j);
    WithBitIsExact(f2, c, true, j);
    WithBitIsExact(f2, e, true, j);
    WithBitIsExact(f3, e, true, j);
  }

  /** When encoding fails, and what it leaves in the header: no encrypted flag, the compressed flag exactly if
      compression was done, and every other bit and field as it was. */
  lemma OutgoingFails(parts: Parts, h: Header, body: Data, random: Data, j: nat)
    ensures var (h', out) := Outgoing(parts, h, body, random);
      && (out == Err(CompressFailed) <==> parts.compress && body != [] && parts.deflate(body) == None)
      && (out.Err? ==> out.error in {CompressFailed, EncryptFailed} && h'.(flags := 0) == h.(flags := 0)
                       && HasBit(h'.flags, j) == (if j == parts.bits.0 then out.error == EncryptFailed && parts.compress
                                                  else j != parts.bits.1 && HasBit(h.flags, j)))
      && (out == Err(EncryptFailed) <==>
            && parts.encrypt && body != []
            && var mid := if parts.compress then parts.deflate(body) else Some(body);
               mid.Some? && mid.value != []
               && parts.seal(mid.value, Aad(Compressed(parts, h, body).0), random) == None)
  {
    hide HasBit, WithBit, Aad;
    var (c, e) := parts.bits;
    var f1 := Flagged(h.flags, c, false);
    var f2 := Flagged(f1, e, false);
    WithBitIsExact(h.flags, c, false, j);
    WithBitIsExact(f1, e, false, j);
    WithBitIsExact(f2, c, true, j);
  }

  // ---------- round trips ----------

  /** With a lawful compressor, what comes out of decryption as it went into encryption decodes to the body. */
  lemma InflatesBack(parts: Parts, h: Header, body: Data, random: Data)
    requires parts.CompressorIsLawful()
    requires Outgoing(parts, h, body, random).1.Ok?
    ensures Decompressed(parts, Outgoing(parts, h, body, random).0, Compressed(parts, h, body).1.value) == Ok(body)
  {
    hide HasBit, WithBit, Aad;
    FlagsAreExact(parts, h, body, random, parts.bits.0);
  }

  /** What is decoded if decryption gives `z`. */
  predicate Recovers(parts: Parts, h: Header, z: Option<Data>, body: Data) {
    z.Some? && Decompressed(parts, h, z.value) == Ok(body)
  }

  /** Only one input decompresses to `body`. */
  ghost predicate InflatesFromOne(parts: Parts, body: Data) {
    forall y, z :: y != [] && z != [] && parts.inflate(y) == Some(body) == parts.inflate(z) ==> y == z
  }

  /**
   * Decoding what was encoded. Without encryption it gives the body back. With encryption it does exactly if
   * decrypting the packet - under the associated data of the finished header - gives back what was encrypted.
   */
  lemma DecodesIff(parts: Parts, h: Header, body: Data, random: Data)
    requires parts.CompressorIsLawful() && parts.SealsToSomething()
    requires Outgoing(parts, h, body, random).1.Ok?
    ensures var s := Compressed(parts, h, body);
      var (h', out) := Outgoing(parts, h, body, random);
      var z := parts.open(out.value, Aad(h'));
      if !IsEncrypted(parts, s) then Incoming(parts, h', out.value) == Ok(body)
      else
        && (z.None? ==> Incoming(parts, h', out.value) == Err(DecryptFailed))
        && (z == Some(s.1.value) ==> Incoming(parts, h', out.value) == Ok(body))
        && (Incoming(parts, h', out.value) == Ok(body) <==> Recovers(parts, h', z, body))
        && (InflatesFromOne(parts, body) ==>
              (Incoming(parts, h', out.value) == Ok(body) <==> z == Some(s.1.value)))
  {
    hide HasBit, WithBit, Aad;
    FlagsAreExact(parts, h, body, random, parts.bits.0);
    FlagsAreExact(parts, h, body, random, parts.bits.1);
    InflatesBack(parts, h, body, random);
  }

  /**
   * Two ends that agree on everything but on which stages are on. What was encrypted is refused by a receiver that does
   * not encrypt, what was compressed by one that does not compress, and everything else is understood.
   */
  lemma EndsAgree(sender: Parts, compress: bool, encrypt: bool, h: Header, body: Data, random: Data)
    requires sender.CompressorIsLawful() && sender.SealsToSomething() && sender.EncryptorIgnoresAad()
    requires Outgoing(sender, h, body, random).1.Ok?
    ensures var receiver := sender.(compress := compress, encrypt := encrypt);
      var (h', out) := Outgoing(sender, h, body, random);
      Incoming(receiver, h', out.value)
        == if IsEncrypted(sender, Compressed(sender, h, body)) && !encrypt then Err(EncryptionDisabled)
           else if IsCompressed(sender, body) && !compress then Err(CompressionDisabled)
           else Ok(body)
  {
    hide HasBit, WithBit, Aad;
    var (h', out) := Outgoing(sender, h, body, random);
    var s := Compressed(sender, h, body);
    FlagsAreExact(sender, h, body, random, sender.bits.0);
    FlagsAreExact(sender, h, body, random, sender.bits.1);
    InflatesBack(sender, h, body, random);
    if IsEncrypted(sender, s) {
      assert sender.seal(s.1.value, Aad(s.0), random) == Some(out.value);
    }
  }

  /**
   * The associated data the decoder uses is never what the encoder used: between the two, the encrypted flag is set.
   * That bit is all they differ in.
   */
  lemma AadDiffersInOneBit(parts: Parts, h: Header, body: Data, random: Data, j: nat)
    requires Outgoing(parts, h, body, random).1.Ok?
    requires IsEncrypted(parts, Compressed(parts, h, body))
    ensures var before, after := Compressed(parts, h, body).0, Outgoing(parts, h, body, random).0;
      && after.(flags := 0) == before.(flags := 0)
      && HasBit(after.flags, j) == (j == parts.bits.1 || HasBit(before.flags, j))
      && !HasBit(before.flags, parts.bits.1)
      && Aad(after) != Aad(before)
  {
    hide HasBit, WithBit, Aad;
    var (c, e) := parts.bits;
    var before, after := Compressed(parts, h, body).0, Outgoing(parts, h, body, random).0;
    var f := Flagged(Flagged(h.flags, c, false), e, false);
    WithBitIsExact(Flagged(h.flags, c, false), e, false, e);
    WithBitIsExact(f, c, true, e);
    WithBitIsExact(before.flags, e, true, j);
    WithBitIsExact(before.flags, e, true, e);
    AadIsExact(after, before);
  }

  /** The encryptor that packs, encrypts and signs. */
  ghost predicate UsesAead(parts: Parts, prims: AeadHmac.Primitives) {
    && (forall x, a, n :: parts.seal(x, a, n) == Some(AeadHmac.Packet(prims, n, x, a)))
    && (forall y, a :: parts.open(y, a)
          == match AeadHmac.Opened(prims, y, a) case Plain(p) => Some(p) case _ => None)
  }

  /**
   * With that encryptor, decoding gets past the signature only if the MAC takes the same value on two different
   * inputs; with any other MAC everything encrypted is refused.
   */
  lemma SignedDecodesIff(parts: Parts, h: Header, body: Data, nonce: Data, prims: AeadHmac.Primitives)
    requires parts.CompressorIsLawful() && UsesAead(parts, prims) && prims.Lawful() && |nonce| == prims.nonceSize
    requires Outgoing(parts, h, body, nonce).1.Ok?
    requires IsEncrypted(parts, Compressed(parts, h, body))
    ensures var s := Compressed(parts, h, body);
      var (h', out) := Outgoing(parts, h, body, nonce);
      var c := prims.seal(nonce, s.1.value, Aad(s.0));
      var made, checked := nonce + c + Aad(s.0), nonce + c + Aad(h');
      && made != checked
      && (Incoming(parts, h', out.value) == Err(DecryptFailed)
          <==> (prims.mac(made) != prims.mac(checked) || prims.open(nonce, c, Aad(h')).None?))
  {
    hide HasBit, WithBit, Aad;
    var s := Compressed(parts, h, body);
    var (h', out) := Outgoing(parts, h, body, nonce);
    var c := prims.seal(nonce, s.1.value, Aad(s.0));
    AadDiffersInOneBit(parts, h, body, nonce, 0);
    assert (nonce + c + Aad(s.0))[|nonce + c|..] == Aad(s.0);
    assert (nonce + c + Aad(h'))[|nonce + c|..] == Aad(h');
    AeadHmac.OpenPacket(prims, nonce, s.1.value, Aad(s.0), Aad(h'));
    AeadHmac.PacketInParts(prims, nonce, s.1.value, Aad(s.0));
    FlagsAreExact(parts, h, body, nonce, parts.bits.1);
  }

  /** The size field takes no part in decoding. */
  lemma SizeIsNotUsed(parts: Parts, h: Header, data: Data, size: uint32)
    ensures Incoming(parts, h.(size := size), data) == Incoming(parts, h, data)
  {
  }

  /** Over the wire: reading the frame that was written is decoding what was encoded, and reads no further. */
  lemma ReceivedIsIncoming(parts: Parts, h: Header, payload: Data, rest: Data, max: uint32)
    requires |payload| <= max
    ensures Received(parts, Frame(h, payload) + rest, max)
         == match Incoming(parts, h, payload)
            case Ok(d) => (Ok((h.(size := |payload|), d)), rest)
            case Err(e) => (Err(e), rest)
  {
    hide Decode, Frame, Incoming;
    DecodeFrame(h, payload, rest, max);
    SizeIsNotUsed(parts, h, payload, |payload|);
  }

  /** The round trip of the whole pipeline, for every lawful compressor and every encryptor that ignores the header. */
  lemma PipelineRoundTrip(parts: Parts, h: Header, body: Data, random: Data, rest: Data, max: uint32)
    requires parts.CompressorIsLawful() && parts.SealsToSomething() && parts.EncryptorIgnoresAad()
    requires Outgoing(parts, h, body, random).1.Ok? && |Outgoing(parts, h, body, random).1.value| <= max
    ensures var (h', out) := Outgoing(parts, h, body, random);
      Received(parts, Frame(h', out.value) + rest, max) == (Ok((h'.(size := |out.value|), body)), rest)
  {
    hide HasBit, Aad, Incoming, Received, Decompressed, Compressed;
    var (h', out) := Outgoing(parts, h, body, random);
    var s := Compressed(parts, h, body);
    DecodesIff(parts, h, body, random);
    if IsEncrypted(parts, s) {
      assert parts.seal(s.1.value, Aad(s.0), random) == Some(out.value);
    }
    ReceivedIsIncoming(parts, h', out.value, rest, max);
  }
}
