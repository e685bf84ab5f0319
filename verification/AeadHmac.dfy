/** Packets that are encrypted and signed: nonce, ciphertext and MAC in a row. The primitives are parameters. */
module AeadHmac {
  import opened Bytes

  type Data = seq<byte>

  const MAC_SIZE := 32

  /** The cipher and the keyed hash that a codec was built with. */
  datatype Primitives = Primitives(
    nonceSize: nat,
    seal: (Data, Data, Data) -> Data,
    open: (Data, Data, Data) -> Option<Data>,
    mac: Data -> Data)
  {
    /** What HMAC-SHA256 and an AEAD cipher promise of sizes and of opening what was sealed. */
    ghost predicate Lawful() {
      && (forall x :: |mac(x)| == MAC_SIZE)
      && (forall n, p, a :: open(n, seal(n, p, a), a) == Some(p))
    }
  }

  datatype Plain = Plain(plaintext: Data) | PacketTooShort | InvalidMac | NotOpened

  /** A hash that takes its input in pieces. */
  class Hash {
    const mac: Data -> Data
    var fed: Data

    constructor (mac: Data -> Data)
      ensures this.mac == mac && fed == []
    {
      this.mac, fed := mac, [];
    }

    method Write(p: Data)
      modifies this
      ensures fed == old(fed) + p
    {
      fed := fed + p;
    }

    method Sum() returns (d: Data)
      ensures d == mac(fed)
    {
      return mac(fed);
    }
  }

  function Packet(prims: Primitives, nonce: Data, plaintext: Data, aad: Data): Data {
    var c := prims.seal(nonce, plaintext, aad);
    nonce + c + prims.mac(nonce + c + aad)
  }

  function Opened(prims: Primitives, packet: Data, aad: Data): Plain {
    if |packet| < prims.nonceSize + MAC_SIZE then PacketTooShort
    else
      var at := |packet| - MAC_SIZE;
      var nonce, c := packet[..prims.nonceSize], packet[prims.nonceSize..at];
      if prims.mac(nonce + c + aad) != packet[at..] then InvalidMac
      else
        match prims.open(nonce, c, aad)
        case Some(p) => Plain(p)
        case None => NotOpened
  }

  /** A packet with these parts, signed for this associated data. */
  predicate Signed(prims: Primitives, packet: Data, nonce: Data, c: Data, aad: Data) {
    |nonce| == prims.nonceSize && packet == nonce + c + prims.mac(nonce + c + aad)
  }

  /** The parts a packet is taken apart into are the only ones it can have. */
  lemma PartsAreUnique(prims: Primitives, packet: Data, nonce: Data, c: Data, aad: Data)
    requires prims.Lawful() && Signed(prims, packet, nonce, c, aad)
    ensures |packet| >= prims.nonceSize + MAC_SIZE
    ensures nonce == packet[..prims.nonceSize] && c == packet[prims.nonceSize..|packet| - MAC_SIZE]
    ensures prims.mac(nonce + c + aad) == packet[|packet| - MAC_SIZE..]
  {
    assert |prims.mac(nonce + c + aad)| == MAC_SIZE;
  }

  /**
   * What opening a packet tells. It yields a plaintext exactly if the packet is a nonce, a ciphertext and the right
   * MAC in a row and the cipher opens to that plaintext; with such parts that the cipher refuses it is not opened;
   * and without them it is too short or its MAC is wrong.
   */
  lemma OpenedMeans(prims: Primitives, packet: Data, aad: Data, p: Data)
    requires prims.Lawful()
    ensures Opened(prims, packet, aad) == Plain(p)
       <==> exists n, c :: Signed(prims, packet, n, c, aad) && prims.open(n, c, aad) == Some(p)
    ensures Opened(prims, packet, aad) == NotOpened
       <==> exists n, c :: Signed(prims, packet, n, c, aad) && prims.open(n, c, aad) == None
    ensures Opened(prims, packet, aad) == InvalidMac
       <==> |packet| >= prims.nonceSize + MAC_SIZE && forall n, c :: !Signed(prims, packet, n, c, aad)
  {
    forall n, c | Signed(prims, packet, n, c, aad)
      ensures Opened(prims, packet, aad)
           == match prims.open(n, c, aad) case Some(q) => Plain(q) case None => NotOpened
    {
      PartsAreUnique(prims, packet, n, c, aad);
    }
    if |packet| >= prims.nonceSize + MAC_SIZE {
      var at := |packet| - MAC_SIZE;
      var n, c := packet[..prims.nonceSize], packet[prims.nonceSize..at];
      assert packet == n + c + packet[at..];
      assert prims.mac(n + c + aad) == packet[at..] ==> Signed(prims, packet, n, c, aad);
    }
  }

  method EncryptAndSign(prims: Primitives, nonce: Data, plaintext: Data, aad: Data) returns (packet: Data)
    requires |nonce| == prims.nonceSize
    ensures packet == Packet(prims, nonce, plaintext, aad)
  {
    var ciphertext := prims.seal(nonce, plaintext, aad);
    var m := new Hash(prims.mac);
    m.Write(nonce);
    m.Write(ciphertext);
    m.Write(aad);
    assert m.fed == nonce + ciphertext + aad;
    var mac := m.Sum();
    packet := [];
    packet := packet + nonce;
    packet := packet + ciphertext;
    packet := packet + mac;
    assert [] + nonce == nonce;
  }

  /** Gives a plaintext only for a packet of the right parts, and whenever there are such parts that the cipher
      opens. */
  method VerifyAndDecrypt(prims: Primitives, packet: Data, aad: Data) returns (r: Plain)
    ensures r == Opened(prims, packet, aad)
    ensures prims.Lawful() && r.Plain? ==>
      exists n, c :: Signed(prims, packet, n, c, aad) && prims.open(n, c, aad) == Some(r.plaintext)
    ensures prims.Lawful() && !r.Plain? ==>
      forall n, c :: Signed(prims, packet, n, c, aad) ==> prims.open(n, c, aad) == None
  {
    if prims.Lawful() {
      forall p: Data {
        OpenedMeans(prims, packet, aad, p);
      }
    }
    if |packet| < prims.nonceSize + MAC_SIZE {
      return PacketTooShort;
    }
    var macOffset := |packet| - MAC_SIZE;
    var nonce := packet[..prims.nonceSize];
    var ciphertext := packet[prims.nonceSize..macOffset];
    var m := new Hash(prims.mac);
    m.Write(nonce);
    m.Write(ciphertext);
    m.Write(aad);
    assert m.fed == nonce + ciphertext + aad;
    var expected := m.Sum();
    if expected != packet[macOffset..] {
      return InvalidMac;
    }
    match prims.open(nonce, ciphertext, aad)
    case Some(p) => return Plain(p);
    case None => return NotOpened;
  }

  /** Opening a packet under some associated data: the parts are found again, and the MAC decides first. */
  lemma OpenPacket(prims: Primitives, nonce: Data, plaintext: Data, aad: Data, aad': Data)
    requires prims.Lawful() && |nonce| == prims.nonceSize
    ensures var c := prims.seal(nonce, plaintext, aad);
      Opened(prims, Packet(prims, nonce, plaintext, aad), aad')
        == if prims.mac(nonce + c + aad') != prims.mac(nonce + c + aad) then InvalidMac
           else match prims.open(nonce, c, aad') case Some(p) => Plain(p) case None => NotOpened
  {
    var c := prims.seal(nonce, plaintext, aad);
    var packet := Packet(prims, nonce, plaintext, aad);
    var at := |packet| - MAC_SIZE;
    assert |prims.mac(nonce + c + aad)| == MAC_SIZE;
    assert packet[..prims.nonceSize] == nonce;
    assert packet[prims.nonceSize..at] == c;
    assert packet[at..] == prims.mac(nonce + c + aad);
  }

  /** Under the associated data it was made with, a packet gives its plaintext back. */
  lemma PacketRoundTrip(prims: Primitives, nonce: Data, plaintext: Data, aad: Data)
    requires prims.Lawful() && |nonce| == prims.nonceSize
    ensures Opened(prims, Packet(prims, nonce, plaintext, aad), aad) == Plain(plaintext)
  {
    OpenPacket(prims, nonce, plaintext, aad, aad);
  }

  /** A packet is as long as its parts: the nonce in front, the ciphertext, and 32 bytes of MAC at the end. */
  lemma PacketInParts(prims: Primitives, nonce: Data, plaintext: Data, aad: Data)
    requires prims.Lawful() && |nonce| == prims.nonceSize
    ensures var packet, c := Packet(prims, nonce, plaintext, aad), prims.seal(nonce, plaintext, aad);
      && |packet| == prims.nonceSize + |c| + 32
      && packet[..prims.nonceSize] == nonce && packet[prims.nonceSize..prims.nonceSize + |c|] == c
      && packet[|packet| - 32..] == prims.mac(packet[..|packet| - 32] + aad)
  {
    assert |prims.mac(nonce + prims.seal(nonce, plaintext, aad) + aad)| == MAC_SIZE;
  }

  /** What a packet is signed for: everything in front of its last 32 bytes, and the associated data. */
  lemma MacCoversAll(prims: Primitives, packet: Data, aad: Data)
    ensures Opened(prims, packet, aad) == PacketTooShort <==> |packet| < prims.nonceSize + 32
    ensures |packet| >= prims.nonceSize + 32 ==>
      var at := |packet| - 32;
      Opened(prims, packet, aad) == InvalidMac <==> prims.mac(packet[..at] + aad) != packet[at..]
  {
    if |packet| >= prims.nonceSize + MAC_SIZE {
      var at := |packet| - MAC_SIZE;
      assert packet[..prims.nonceSize] + packet[prims.nonceSize..at] == packet[..at];
    }
  }

  /** Whoever changes a packet but not its MAC, or passes other associated data of the same length, is found out unless
      the MAC takes one value on two different inputs. */
  lemma TamperingIsNoticed(prims: Primitives, packet: Data, packet': Data, aad: Data, aad': Data)
    requires |packet| == |packet'| >= 32 && |aad| == |aad'| && (packet, aad) != (packet', aad')
    requires packet[|packet| - 32..] == packet'[|packet| - 32..]
    requires Opened(prims, packet, aad) !in {InvalidMac, PacketTooShort}
    requires Opened(prims, packet', aad') !in {InvalidMac, PacketTooShort}
    ensures exists x, y :: x != y && prims.mac(x) == prims.mac(y)
  {
    MacCoversAll(prims, packet, aad);
    MacCoversAll(prims, packet', aad');
    var at := |packet| - 32;
    var x, y := packet[..at] + aad, packet'[..at] + aad';
    assert x[..at] == packet[..at] && x[at..] == aad && y[..at] == packet'[..at] && y[at..] == aad';
    assert packet == packet[..at] + packet[at..] && packet' == packet'[..at] + packet'[at..];
    assert prims.mac(x) == prims.mac(y);
  }
}
