/** The two ends of a byte stream: readers that deliver in chunks and writers that may refuse. */
module Streams {
  import opened Bytes

  /** Go's built-in copy, restricted to data that fits. */
  method Copy(dst: array<byte>, at: nat, data: seq<byte>)
    requires at + |data| <= dst.Length
    modifies dst
    ensures forall i | 0 <= i < dst.Length ::
              dst[i] == if at <= i < at + |data| then data[i - at] else old(dst[i])
  {
    forall i | 0 <= i < |data| {
      dst[at + i] := data[i];
    }
  }

  datatype Outcome = NoError | EndOfFile | IsEmptyError | ShortWrite | Failed

  function Flatten<T>(chunks: seq<seq<T>>): seq<T> {
    if chunks == [] then [] else chunks[0] + Flatten(chunks[1..])
  }

  function Delivery(chunks: seq<seq<byte>>, room: nat): (data: seq<byte>)
    ensures |data| <= room
  {
    if chunks == [] then [] else chunks[0][..Min(room, |chunks[0]|)]
  }

  function Remaining(chunks: seq<seq<byte>>, room: nat): (rest: seq<seq<byte>>)
    ensures |rest| <= |chunks|
  {
    if chunks == [] then []
    else if |chunks[0]| <= room then chunks[1..]
    else [chunks[0][room..]] + chunks[1..]
  }

  /** A finite io.Reader: each call delivers as much of the first chunk as the caller has room for, so every sequence
      of read sizes a reader may choose is some list of chunks, and a reader that always fills its argument has at
      most one. The data ends with io.EOF or with another error; `eager` tells whether that comes with the last byte
      or on the call after it. */
  class Source {
    var chunks: seq<seq<byte>>
    const eager: bool
    const fails: bool

    constructor (chunks: seq<seq<byte>>, eager: bool, fails: bool)
      ensures this.chunks == chunks && this.eager == eager && this.fails == fails
    {
      this.chunks, this.eager, this.fails := chunks, eager, fails;
    }

    function Last(): Outcome {
      if fails then Failed else EndOfFile
    }

    /** One call with room for `hi - lo` bytes, which land at buf[lo..]. */
    method Read(buf: array<byte>, lo: nat, hi: nat) returns (m: nat, err: Outcome)
      requires lo <= hi <= buf.Length
      modifies this`chunks, buf
      ensures m == |Delivery(old(chunks), hi - lo)|
      ensures forall i | 0 <= i < buf.Length ::
                buf[i] == if lo <= i < lo + m then Delivery(old(chunks), hi - lo)[i - lo] else old(buf[i])
      ensures chunks == Remaining(old(chunks), hi - lo)
      ensures err == if chunks == [] && (old(chunks) == [] || eager) then Last() else NoError
    {
      var data := Delivery(chunks, hi - lo);
      m := |data|;
      Copy(buf, lo, data);
      err := if chunks == [] then Last() else NoError;
      chunks := Remaining(chunks, hi - lo);
      if chunks == [] && eager {
        err := Last();
      }
    }
  }

  ghost function Weight(chunks: seq<seq<byte>>): nat {
    |Flatten(chunks)| + |chunks|
  }

  /** A read moves bytes from the reader to the caller and loses none. */
  lemma ReadConserves(chunks: seq<seq<byte>>, room: nat)
    ensures Delivery(chunks, room) + Flatten(Remaining(chunks, room)) == Flatten(chunks)
    ensures chunks != [] && room > 0 ==> Weight(Remaining(chunks, room)) < Weight(chunks)
    ensures Weight(Remaining(chunks, room)) <= Weight(chunks)
  {
    if chunks == [] {
    } else if |chunks[0]| <= room {
      assert chunks[0][..|chunks[0]|] == chunks[0];
    } else {
      var head, tail := chunks[0][..room], chunks[0][room..];
      assert Remaining(chunks, room)[1..] == chunks[1..];
      assert chunks[0] == head + tail;
      Associative(head, tail, Flatten(chunks[1..]));
    }
  }

  lemma TwoReadsConserve(chunks: seq<seq<byte>>, room1: nat, room2: nat)
    requires room1 > 0
    ensures var rest := Remaining(chunks, room1);
            var rest' := Remaining(rest, room2);
            && Delivery(chunks, room1) + Flatten(rest) == Flatten(chunks)
            && (Delivery(chunks, room1) + Delivery(rest, room2)) + Flatten(rest') == Flatten(chunks)
            && (chunks != [] ==> Weight(rest') < Weight(chunks))
  {
    var rest := Remaining(chunks, room1);
    ReadConserves(chunks, room1);
    ReadConserves(rest, room2);
    Associative(Delivery(chunks, room1), Delivery(rest, room2), Flatten(Remaining(rest, room2)));
  }

  /** What an io.Writer does with one call: the most it takes, and whether it reports an error. */
  datatype Reply = Reply(limit: nat, fails: bool)

  /** Whether the next write reports no error. */
  predicate Willing(replies: seq<Reply>) {
    replies == [] || !replies[0].fails
  }

  /** How many of `n` bytes the next write takes. */
  function TakenOf(replies: seq<Reply>, n: nat): (m: nat)
    ensures m <= n
  {
    if replies == [] then n else Min(replies[0].limit, n)
  }

  /** What the next write takes of `p`. */
  function Taken(replies: seq<Reply>, p: seq<byte>): (t: seq<byte>)
    ensures |t| == TakenOf(replies, |p|)
  {
    if replies == [] then p else p[..Min(replies[0].limit, |p|)]
  }

  /** The replies after the next write. */
  function Later(replies: seq<Reply>): seq<Reply> {
    if replies == [] then [] else replies[1..]
  }

  /** An io.Writer: one reply per call; it takes everything once the replies are used up. */
  class Sink {
    var accepted: seq<byte>
    var replies: seq<Reply>
    var syncs: nat

    constructor (replies: seq<Reply>)
      ensures accepted == [] && this.replies == replies && syncs == 0
    {
      accepted, this.replies, syncs := [], replies, 0;
    }

    method Write(p: seq<byte>) returns (m: nat, err: Outcome)
      modifies this
      ensures m == |Taken(old(replies), p)|
      ensures accepted == old(accepted) + Taken(old(replies), p)
      ensures replies == Later(old(replies))
      ensures err == if Willing(old(replies)) then NoError else Failed
      ensures syncs == old(syncs)
    {
      m, err := |p|, NoError;
      if replies != [] {
        m := Min(replies[0].limit, |p|);
        err := if replies[0].fails then Failed else NoError;
        replies := replies[1..];
      }
      accepted := accepted + p[..m];
    }

    method Sync()
      modifies this
      ensures syncs == old(syncs) + 1 && accepted == old(accepted) && replies == old(replies)
    {
      syncs := syncs + 1;
    }
  }
}
