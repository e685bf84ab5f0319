/** The growing ring buffer: four fields over one array that encode a queue of bytes. */
module RingBuffer {
  import opened Bytes
  import opened RingGrowth
  import opened Streams

  /** The bytes that positions `r` and `w` delimit in `buf`; equal positions mean empty or full as `isEmpty` tells. */
  ghost function Stored(buf: seq<byte>, r: nat, w: nat, isEmpty: bool): seq<byte>
    requires r <= |buf| && w <= |buf|
  {
    if isEmpty then []
    else if r < w then buf[r..w]
    else buf[r..] + buf[..w]
  }

  /** The position `x` cells after the start of an array of `size` cells that is used in a circle. */
  function Wrap(x: nat, size: nat): (y: nat)
    requires size > 0 && x < 2 * size
    ensures y == x % size
  {
    if x < size then x else x - size
  }

  lemma StoredAt(buf: seq<byte>, r: nat, w: nat, k: nat)
    requires r < |buf| && w < |buf| && k < |Stored(buf, r, w, false)|
    ensures r + k < 2 * |buf| && Stored(buf, r, w, false)[k] == buf[Wrap(r + k, |buf|)]
  {
  }

  lemma StoredPrefix(buf: seq<byte>, r: nat, w: nat, n: nat)
    requires r < |buf| && w < |buf| && n <= |Stored(buf, r, w, false)|
    ensures Stored(buf, r, w, false)[..n]
         == if r + n <= |buf| then buf[r..r + n] else buf[r..] + buf[..r + n - |buf|]
  {
  }

  /** Moving the read position drops bytes from the front; it meets the write position exactly when all are gone. */
  lemma Advance(buf: seq<byte>, r: nat, w: nat, n: nat)
    requires r < |buf| && w < |buf| && 0 < n <= |Stored(buf, r, w, false)|
    ensures Wrap(r + n, |buf|) == w <==> n == |Stored(buf, r, w, false)|
    ensures n < |Stored(buf, r, w, false)| ==>
              Stored(buf, Wrap(r + n, |buf|), w, false) == Stored(buf, r, w, false)[n..]
  {
    var before := Stored(buf, r, w, false);
    if n < |before| {
      var after := Stored(buf, Wrap(r + n, |buf|), w, false);
      assert |after| == |before| - n;
      forall k | 0 <= k < |after| ensures after[k] == before[n + k] {
        StoredAt(buf, r, w, n + k);
        StoredAt(buf, Wrap(r + n, |buf|), w, k);
      }
    }
  }

  lemma AdvanceIfAny(buf: seq<byte>, r: nat, w: nat, n: nat)
    requires r < |buf| && w < |buf| && n <= |Stored(buf, r, w, false)|
    ensures n < |Stored(buf, r, w, false)| ==>
              Stored(buf, Wrap(r + n, |buf|), w, false) == Stored(buf, r, w, false)[n..]
    ensures n > 0 ==> (Wrap(r + n, |buf|) == w <==> n == |Stored(buf, r, w, false)|)
    ensures r + n <= |buf| ==> Stored(buf, r, w, false)[..n] == buf[r..r + n]
  {
    if n > 0 {
      Advance(buf, r, w, n);
    }
  }

  /** `buf` after `data` was laid down from position `w` on, around the end if need be. */
  ghost function Laid(buf: seq<byte>, w: nat, data: seq<byte>): (s: seq<byte>)
    requires w < |buf| && |data| <= |buf|
    ensures |s| == |buf|
    ensures forall i | 0 <= i < |buf| ::
              s[i] == var d := if w <= i then i - w else i + |buf| - w;
                      if d < |data| then data[d] else buf[i]
  {
    seq(|buf|, i requires 0 <= i < |buf| =>
      var d := if w <= i then i - w else i + |buf| - w;
      if d < |data| then data[d] else buf[i])
  }

  /** Laying data down at the write position and moving it appends to the back. */
  lemma Append(buf: seq<byte>, r: nat, w: nat, isEmpty: bool, p: seq<byte>)
    requires r < |buf| && w < |buf| && (isEmpty ==> r == w)
    requires 0 < |p| <= |buf| - |Stored(buf, r, w, isEmpty)|
    ensures Stored(Laid(buf, w, p), r, Wrap(w + |p|, |buf|), false) == Stored(buf, r, w, isEmpty) + p
  {
    hide Laid;
    var before := Stored(buf, r, w, isEmpty);
    var laid := Laid(buf, w, p);
    var w' := Wrap(w + |p|, |buf|);
    var after := Stored(laid, r, w', false);
    assert |after| == |before| + |p|;
    forall k | 0 <= k < |after| ensures after[k] == (before + p)[k] {
      StoredAt(laid, r, w', k);
      if k < |before| {
        StoredAt(buf, r, w, k);
      }
    }
  }

  lemma AppendAny(buf: seq<byte>, r: nat, w: nat, isEmpty: bool, p: seq<byte>)
    requires r < |buf| && w < |buf| && (isEmpty ==> r == w && p != [])
    requires |p| <= |buf| - |Stored(buf, r, w, isEmpty)|
    ensures Stored(Laid(buf, w, p), r, Wrap(w + |p|, |buf|), false) == Stored(buf, r, w, isEmpty) + p
  {
    if p == [] {
      assert Laid(buf, w, p) == buf;
    } else {
      Append(buf, r, w, isEmpty, p);
    }
  }

  /** The `n` cells from position `at` on, around the end if need be. */
  ghost function Cells(buf: seq<byte>, at: nat, n: nat): (s: seq<byte>)
    requires at < |buf| && n <= |buf|
    ensures |s| == n
  {
    seq(n, k requires 0 <= k < n => buf[Wrap(at + k, |buf|)])
  }

  /** A read into the front of the array while the write position is elsewhere: the write position moves over as many
      cells as bytes arrived, and what those cells happen to hold is what was appended. */
  lemma AppendElsewhere(buf: seq<byte>, r: nat, w: nat, b: seq<byte>)
    requires r < w < |buf| && 0 < |b| <= r
    ensures Stored(Laid(buf, 0, b), r, Wrap(w + |b|, |buf|), false)
         == Stored(buf, r, w, false) + Cells(Laid(buf, 0, b), w, |b|)
  {
    var laid := Laid(buf, 0, b);
    var w' := Wrap(w + |b|, |buf|);
    var before := Stored(buf, r, w, false);
    var after := Stored(laid, r, w', false);
    assert |after| == |before| + |b|;
    forall k | 0 <= k < |after| ensures after[k] == (before + Cells(laid, w, |b|))[k] {
      StoredAt(laid, r, w', k);
      if k < |before| {
        StoredAt(buf, r, w, k);
      }
    }
  }

  /** What a read of `b` into the front of the array adds to the contents: `b` itself when the write position is at
      the front too, otherwise whatever lies in the cells the write position moves over. */
  ghost function Landed(buf: seq<byte>, w: nat, b: seq<byte>): (s: seq<byte>)
    requires w < |buf| && |b| <= |buf|
    ensures |s| == |b|
  {
    if w == 0 || b == [] then b else Cells(Laid(buf, 0, b), w, |b|)
  }

  lemma LandedInPlace(buf: seq<byte>, w: nat, b: seq<byte>)
    requires w < |buf| && |b| <= |buf| && (b == [] || w == 0)
    ensures Landed(buf, w, b) == b
  {
  }

  lemma FrontRead(buf: seq<byte>, r: nat, w: nat, b: seq<byte>)
    requires r < |buf| && w < |buf| && |b| <= r
    requires b == [] || w == 0 || r < w
    ensures Stored(Laid(buf, 0, b), r, Wrap(w + |b|, |buf|), false) == Stored(buf, r, w, false) + Landed(buf, w, b)
  {
    if b == [] {
      assert Laid(buf, 0, b) == buf;
    } else if w == 0 {
      Append(buf, r, w, false, b);
    } else {
      AppendElsewhere(buf, r, w, b);
    }
  }

  /** The two reads of a round append something else than they delivered: the first one left the write position
      short of the end, and the second one put its bytes at the front all the same. */
  ghost predicate Misplaced(buf: seq<byte>, r: nat, w: nat, chunks: seq<seq<byte>>)
    requires r <= w < |buf|
  {
    var a, later := Delivery(chunks, |buf| - w), Remaining(chunks, |buf| - w);
    var b := Delivery(later, r);
    Landed(Laid(buf, w, a), Wrap(w + |a|, |buf|), b) != b
  }

  /** A reader that delivers nothing on the first call and then one byte, other than the stale one at the write
      position, has it misplaced. */
  lemma SomeChunksAreMisplaced(buf: seq<byte>, r: nat, w: nat, x: byte)
    requires 0 < r < w < |buf| && x != buf[w]
    ensures Misplaced(buf, r, w, [[], [x]])
  {
    var chunks: seq<seq<byte>> := [[], [x]];
    assert Remaining(chunks, |buf| - w) == chunks[1..];
    assert Delivery(chunks[1..], r) == [x];
    assert Laid(buf, w, []) == buf;
    assert Cells(Laid(buf, 0, [x]), w, 1)[0] == Laid(buf, 0, [x])[Wrap(w + 0, |buf|)] == buf[w];
  }

  /** The two deliveries of a round, and what the second one makes of the contents. */
  ghost function TwoReads(buf: seq<byte>, r: nat, w: nat, chunks: seq<seq<byte>>): (seq<byte>, seq<byte>, seq<byte>)
    requires r <= w < |buf|
  {
    var a, later := Delivery(chunks, |buf| - w), Remaining(chunks, |buf| - w);
    var b := Delivery(later, r);
    (a, b, Landed(Laid(buf, w, a), Wrap(w + |a|, |buf|), b))
  }

  lemma TwoReadsMean(buf: seq<byte>, r: nat, w: nat, chunks: seq<seq<byte>>)
    requires r <= w < |buf|
    ensures var (a, b, c) := TwoReads(buf, r, w, chunks);
      && |b| == |c| && (Misplaced(buf, r, w, chunks) <==> c != b)
      && (r == 0 || |chunks| <= 1 ==> c == b)
      && (a != [] <==> chunks != [] && chunks[0] != [])
      && (Remaining(chunks, |buf| - w) == [] ==> b == c == [])
  {
    if r == 0 || |chunks| <= 1 {
      var a, later := Delivery(chunks, |buf| - w), Remaining(chunks, |buf| - w);
      LandedInPlace(Laid(buf, w, a), Wrap(w + |a|, |buf|), Delivery(later, r));
    }
  }

  lemma DifferencesStay(a: seq<byte>, b: seq<byte>, x: seq<byte>, y: seq<byte>)
    requires |a| == |b|
    ensures a + x == b + y ==> a == b && x == y
  {
    assert (a + x)[..|a|] == a && (b + y)[..|b|] == b;
    assert (a + x)[|a|..] == x && (b + y)[|b|..] == y;
  }

  lemma NothingFlattened()
    ensures Flatten<byte>([]) == []
  {
  }

  /** The array, the write position and the reader after a round of two reads. */
  ghost function RoundEnd(buf: seq<byte>, r: nat, w: nat, chunks: seq<seq<byte>>): (seq<byte>, nat, seq<seq<byte>>)
    requires r <= w < |buf|
    ensures var (buf', w', _) := RoundEnd(buf, r, w, chunks); |buf'| == |buf| && w' < |buf|
  {
    var (a, b, _) := TwoReads(buf, r, w, chunks);
    (Laid(Laid(buf, w, a), 0, b), Wrap(Wrap(w + |a|, |buf|) + |b|, |buf|),
     Remaining(Remaining(chunks, |buf| - w), r))
  }

  /** The free space is in two pieces, one behind the contents and one in front, and a round will use both. */
  predicate Split(size: nat, r: nat, w: nat) {
    0 < r < w < size && size - (w - r) >= MIN_READ
  }

  lemma SameTail(a: seq<byte>, b: seq<byte>, c: seq<byte>)
    ensures a + b == a + c <==> b == c
  {
    assert (a + b)[|a|..] == b && (a + c)[|a|..] == c;
  }

  /** No round misplaces anything, as long as the free space stays split. */
  ghost predicate Orderly(buf: seq<byte>, r: nat, w: nat, chunks: seq<seq<byte>>)
    decreases Weight(chunks)
  {
    chunks == [] || !Split(|buf|, r, w) ||
    (&& !Misplaced(buf, r, w, chunks)
     && (TwoReadsConserve(chunks, |buf| - w, r);
         var (buf', w', chunks') := RoundEnd(buf, r, w, chunks);
         Orderly(buf', r, w', chunks')))
  }

  lemma OrderlyStep(buf: seq<byte>, r: nat, w: nat, chunks: seq<seq<byte>>)
    requires Split(|buf|, r, w)
    ensures var (buf', w', chunks') := RoundEnd(buf, r, w, chunks);
      Orderly(buf, r, w, chunks) <==> !Misplaced(buf, r, w, chunks) && Orderly(buf', r, w', chunks')
  {
  }

  /** Nothing is misplaced if nothing lies in front of the contents. */
  lemma NothingInFront(buf: seq<byte>, w: nat, chunks: seq<seq<byte>>)
    requires w < |buf|
    ensures !Misplaced(buf, 0, w, chunks)
  {
  }

  /** A round of two reads loses nothing the reader gave. It goes on in order exactly if it appended what was delivered
      and the rounds after it do. */
  lemma AroundMeans(buf: seq<byte>, r: nat, w: nat, chunks: seq<seq<byte>>)
    requires r <= w < |buf| && (r == 0 || Split(|buf|, r, w))
    ensures var (a, b, c) := TwoReads(buf, r, w, chunks);
      var (buf', w', chunks') := RoundEnd(buf, r, w, chunks);
      && (a + b) + Flatten(chunks') == Flatten(chunks)
      && (Orderly(buf, r, w, chunks) <==> a + c == a + b && Orderly(buf', r, w', chunks'))
  {
    var (a, b, c) := TwoReads(buf, r, w, chunks);
    TwoReadsConserve(chunks, |buf| - w, r);
    SameTail(a, b, c);
    if r == 0 {
      NothingInFront(buf, w, chunks);
    } else {
      OrderlyStep(buf, r, w, chunks);
    }
  }

  /** A reader that fills what it is given - its data comes in one chunk - is in order on every geometry. */
  lemma {:induction false} OneChunkIsOrderly(buf: seq<byte>, r: nat, w: nat, chunks: seq<seq<byte>>)
    requires |chunks| <= 1
    ensures Orderly(buf, r, w, chunks)
    decreases Weight(chunks)
  {
    if chunks != [] && Split(|buf|, r, w) {
      TwoReadsMean(buf, r, w, chunks);
      TwoReadsConserve(chunks, |buf| - w, r);
      var (buf', w', chunks') := RoundEnd(buf, r, w, chunks);
      OneChunkIsOrderly(buf', r, w', chunks');
    }
  }

  lemma NothingMore(buf: seq<byte>, r: nat)
    ensures Delivery([], r) == [] && Remaining([], r) == []
    ensures buf != [] ==> Laid(buf, 0, []) == buf
  {
  }

  /** A round of reads either ends with the reader's own error and nothing left, or uses data up. */
  ghost predicate Progress(before: seq<seq<byte>>, after: seq<seq<byte>>, err: Outcome, last: Outcome) {
    && |after| <= |before|
    && if err == NoError then before != [] && Weight(after) < Weight(before)
       else err == last && after == []
  }

  /** What a write is worth, with what is left of the contents after it. */
  function Reported(failed: bool, left: seq<byte>): Outcome {
    if failed then Failed else if left != [] then ShortWrite else NoError
  }

  /** A buffer of `size` cells that holds `length` bytes and grew for reads of 512 bytes from a size of `before`. */
  predicate GrewLittle(before: nat, size: nat, length: nat) {
    before <= size && (size == before || size == 1024 || size < 2 * (length + 512))
  }

  /** The size for a read of 512 bytes more. */
  function SizeForRead(size: nat, length: nat): nat
    requires length <= size
  {
    if size - length < 512 then GrownCapacity(size, length + 512) else size
  }

  lemma NothingGrew(size: nat, length: nat)
    ensures GrewLittle(size, size, length)
  {
  }

  lemma GrowthForRead(before: nat, size: nat, length: nat)
    requires length <= size && GrewLittle(before, size, length)
    ensures forall length': nat | length <= length' :: GrewLittle(before, SizeForRead(size, length), length')
  {
    GrownCapacityCovers(size, length + 512);
    if size < length + 512 {
      GrownCapacityIsTight(size, length + 512);
    }
  }

  class Buffer {
    var buf: array<byte>
    var size: nat
    var r: nat
    var w: nat
    var isEmpty: bool

    ghost predicate Valid()
      reads this, buf
    {
      && buf.Length == size
      && (size == 0 ==> isEmpty)
      && (size > 0 ==> r < size && w < size)
      && (isEmpty ==> r == w == 0)
    }

    /** The queue this buffer stands for. */
    ghost function Contents(): (s: seq<byte>)
      reads this, buf
      requires Valid()
      ensures |s| <= size
    {
      Stored(buf[..], r, w, isEmpty)
    }

    constructor (n: int)
      ensures Valid() && fresh(buf) && Contents() == [] && size == CeilToPowerOfTwo(n)
    {
      var cap := CeilToPowerOfTwo(n);
      buf := new byte[cap];
      size, r, w, isEmpty := cap, 0, 0, true;
    }

    function Buffered(): (n: nat)
      reads this, buf
      requires Valid()
      ensures n == |Contents()|
    {
      if r == w then
        if isEmpty then 0 else size
      else if w > r then w - r
      else size - r + w
    }

    function Available(): (n: nat)
      reads this, buf
      requires Valid()
      ensures n + |Contents()| == size
    {
      if r == w then
        if isEmpty then size else 0
      else if w < r then r - w
      else size - w + r
    }

    predicate IsFull()
      reads this, buf
      requires Valid()
      ensures IsFull() <==> size > 0 && |Contents()| == size
    {
      r == w && !isEmpty
    }

    method PeekAll() returns (head: seq<byte>, tail: seq<byte>)
      requires Valid()
      ensures head + tail == Contents()
      ensures |head| <= size - r && (tail != [] ==> |head| == size - r)
    {
      if isEmpty {
        return [], [];
      }
      if w > r {
        return buf[r..w], [];
      }
      return buf[r..], if w != 0 then buf[..w] else [];
    }

    /** Bytes ahead of the read position, in at most two pieces, the first one up to the end of the array; all of them
        when n <= 0. */
    method Peek(n: int) returns (head: seq<byte>, tail: seq<byte>)
      requires Valid()
      ensures head + tail == if n <= 0 || n > |Contents()| then Contents() else Contents()[..n]
      ensures |head| <= size - r && (tail != [] ==> |head| == size - r)
    {
      if isEmpty {
        return [], [];
      }
      if n <= 0 {
        head, tail := PeekAll();
        return;
      }
      if w > r {
        var m := Min(w - r, n);
        return buf[r..r + m], [];
      }
      var m := Min(size - r + w, n);
      StoredPrefix(buf[..], r, w, m);
      if r + m <= size {
        return buf[r..r + m], [];
      }
      var c1 := size - r;
      return buf[r..], buf[..m - c1];
    }

    /** A copy of the readable bytes. */
    method Bytes() returns (s: seq<byte>)
      requires Valid()
      ensures s == Contents()
    {
      if isEmpty {
        return [];
      } else if w == r {
        return buf[r..] + buf[..w];
      }
      if w > r {
        return buf[r..w];
      }
      s := buf[r..];
      if w != 0 {
        s := s + buf[..w];
      }
    }

    method Reset()
      requires Valid()
      modifies this`r, this`w, this`isEmpty
      ensures Valid() && Contents() == []
    {
      isEmpty, r, w := true, 0, 0;
    }

    /** Moves the read position past m bytes and resets when it meets the write position. Meeting it without
        having moved - a full buffer and m == 0 - resets as well. */
    method Skip(m: nat)
      requires Valid() && !isEmpty && m <= |Contents()|
      modifies this`r, this`w, this`isEmpty
      ensures Valid() && (isEmpty <==> Contents() == [])
      ensures Contents() == if m == 0 && old(r == w) then [] else old(Contents())[m..]
    {
      AdvanceIfAny(buf[..], r, w, m);
      r := Wrap(r + m, size);
      if r == w {
        Reset();
      }
    }

    /** Moves the read position past fewer bytes than there are. */
    method Move(m: nat)
      requires Valid() && m < |Contents()|
      modifies this`r
      ensures Valid() && r == Wrap(old(r) + m, size)
      ensures Contents() == old(Contents())[m..]
    {
      AdvanceIfAny(buf[..], r, w, m);
      r := Wrap(r + m, size);
    }

    method Discard(n: int) returns (discarded: nat)
      requires Valid()
      modifies this`r, this`w, this`isEmpty
      ensures Valid()
      ensures discarded == if n <= 0 then 0 else Min(n, |old(Contents())|)
      ensures Contents() == old(Contents())[discarded..]
    {
      if n <= 0 {
        return 0;
      }
      discarded := Buffered();
      if n < discarded {
        Move(n);
        return n;
      }
      Reset();
    }

    /** The two-piece copy of Read. */
    method CopyOut(p: array<byte>, n: nat)
      requires Valid() && p != buf && n <= |Contents()| && n <= p.Length && !isEmpty
      modifies p
      ensures p[..] == Contents()[..n] + old(p[..])[n..]
    {
      ghost var was := p[..];
      StoredPrefix(buf[..], r, w, n);
      if r + n <= size {
        Copy(p, 0, buf[r..r + n]);
      } else {
        var c1 := size - r;
        Copy(p, 0, buf[r..]);
        var c2 := n - c1;
        Copy(p, c1, buf[..c2]);
      }
      assert p[..n] == Contents()[..n];
      assert p[n..] == was[n..];
    }

    /** Reads into p; an empty p succeeds with 0 bytes, an empty buffer is an error. */
    method Read(p: array<byte>) returns (n: nat, ok: bool)
      requires Valid() && p != buf
      modifies this`r, this`w, this`isEmpty, p
      ensures Valid()
      ensures n == Min(p.Length, |old(Contents())|)
      ensures ok <==> p.Length == 0 || old(Contents()) != []
      ensures p[..] == old(Contents())[..n] + old(p[..])[n..]
      ensures Contents() == old(Contents())[n..]
    {
      if p.Length == 0 {
        return 0, true;
      }
      if isEmpty {
        return 0, false;
      }
      ok := true;
      if w > r {
        n := Min(w - r, p.Length);
        CopyOut(p, n);
        Skip(n);
        return;
      }
      n := Min(size - r + w, p.Length);
      CopyOut(p, n);
      Skip(n);
    }

    method ReadByte() returns (b: Option<byte>)
      requires Valid()
      modifies this`r, this`w, this`isEmpty
      ensures Valid()
      ensures old(Contents()) == [] ==> b == None && Contents() == []
      ensures old(Contents()) != [] ==> b == Some(old(Contents())[0]) && Contents() == old(Contents())[1..]
    {
      if isEmpty {
        return None;
      }
      b := Some(buf[r]);
      r := r + 1;
      if r == size {
        r := 0;
      }
      if r == w {
        Reset();
      }
    }

    /** The capacity to grow to. */
    method NewCapacity(request: int) returns (newCap: nat)
      ensures newCap == GrownCapacity(size, request)
    {
      GrownCapacityCovers(size, request);
      var cap := request;
      var n: nat := size;
      if n == 0 {
        if cap <= DEFAULT_BUFFER_SIZE {
          cap := DEFAULT_BUFFER_SIZE;
        } else {
          cap := CeilToPowerOfTwo(cap);
        }
      } else {
        var doubleCap := n + n;
        if cap <= doubleCap {
          if n < BUFFER_GROW_THRESHOLD {
            cap := doubleCap;
          } else {
            while 0 < n < cap
              invariant n >= BUFFER_GROW_THRESHOLD
              invariant GrowByQuarters(n, cap) == GrowByQuarters(size, cap)
              decreases cap - n
            {
              n := n + n / 4;
            }
            if n > 0 {
              cap := n;
            }
          }
        }
      }
      newCap := cap;
    }

    /** Moves the contents to a larger array. The one state it may leave that is not Valid() is a full buffer
        with its write position at the very end, when the capacity did not rise. */
    method Grow(request: int)
      requires Valid()
      modifies this
      ensures fresh(buf) && size == buf.Length == GrownCapacity(old(size), request)
      ensures r == 0 && w == |old(Contents())| && isEmpty == (w == 0)
      ensures buf[..w] == old(Contents())
    {
      hide CeilToPowerOfTwo;
      var newCap := NewCapacity(request);
      GrownCapacityCovers(size, request);
      var newBuf := new byte[newCap];
      var oldLen := Buffered();
      ghost var before := Contents();
      var _, _ := Read(newBuf);
      assert newBuf[..oldLen] == before;
      buf := newBuf;
      r := 0;
      w := oldLen;
      size := newCap;
      if w > 0 {
        isEmpty := false;
      }
    }

    /** The copy of Write, once there is room: in one piece or around the end. */
    method LayDown(p: seq<byte>)
      requires Valid() && 0 < |p| <= Available()
      modifies buf, this`w
      ensures buf[..] == Laid(old(buf[..]), old(w), p)
      ensures w <= size && (if w == size then 0 else w) == Wrap(old(w) + |p|, size)
    {
      hide Laid;
      var n := |p|;
      if w >= r {
        var c1 := size - w;
        if c1 >= n {
          Copy(buf, w, p);
          w := w + n;
        } else {
          Copy(buf, w, p[..c1]);
          var c2 := n - c1;
          Copy(buf, 0, p[c1..]);
          w := c2;
        }
      } else {
        Copy(buf, w, p);
        w := w + n;
      }
    }

    /** Write into a buffer with enough room. */
    method Put(p: seq<byte>)
      requires Valid() && 0 < |p| <= Available()
      modifies buf, this`w, this`isEmpty
      ensures Valid() && Contents() == old(Contents()) + p
    {
      Append(buf[..], r, w, isEmpty, p);
      LayDown(p);
      if w == size {
        w := 0;
      }
      isEmpty := false;
    }

    method Write(p: seq<byte>) returns (n: nat)
      requires Valid()
      modifies this, buf
      ensures Valid() && (buf == old(buf) || fresh(buf))
      ensures n == |p|
      ensures Contents() == old(Contents()) + p
      ensures size == if |p| <= old(Available()) then old(size) else GrownCapacity(old(size), |old(Contents())| + |p|)
    {
      n := |p|;
      if n == 0 {
        return;
      }
      var free := Available();
      ghost var before := Contents();
      if n > free {
        GrownCapacityCovers(size, size + n - free);
        Grow(size + n - free);
      }
      Put(p);
    }

    method PutByte(c: byte)
      requires Valid() && Available() > 0
      modifies buf, this`w, this`isEmpty
      ensures Valid() && Contents() == old(Contents()) + [c]
    {
      hide Laid;
      Append(buf[..], r, w, isEmpty, [c]);
      ghost var laid := Laid(buf[..], w, [c]);
      buf[w] := c;
      w := w + 1;
      if w == size {
        w := 0;
      }
      isEmpty := false;
      assert buf[..] == laid;
    }

    /** A single byte. On a full buffer of threshold size or more the growth request of one byte provides no room,
        and the store that follows is out of bounds: Go panics there. */
    method WriteByte(c: byte) returns (panicked: bool)
      requires Valid()
      modifies this, buf
      ensures panicked <==> old(IsFull()) && old(size) >= 4096
      ensures !panicked ==> Valid() && (buf == old(buf) || fresh(buf)) && Contents() == old(Contents()) + [c]
      ensures !panicked ==> size == if old(Available()) > 0 then old(size) else GrownCapacity(old(size), 1)
    {
      GrownCapacityCovers(size, 1);
      OneByteRequestGrows(size);
      if Available() < 1 {
        Grow(1);
      }
      if w >= buf.Length {
        return true;
      }
      PutByte(c);
      return false;
    }

    // ---------- streaming ----------

    /** WriteTo makes a second call: the contents go around the end of the array, and the first call took its piece. */
    ghost predicate Twice(replies: seq<Reply>)
      reads this
    {
      0 < w <= r <= size && Willing(replies) && (replies == [] || size - r <= replies[0].limit)
    }

    /** How many bytes the writes take in all. */
    ghost function Takes(replies: seq<Reply>): nat
      reads this, buf
      requires Valid()
    {
      if isEmpty then 0
      else
        var piece := if r < w then w - r else size - r;
        TakenOf(replies, piece) + if Twice(replies) then TakenOf(Later(replies), w) else 0
    }

    /** One of the writes that are made fails. */
    ghost predicate Fails(replies: seq<Reply>)
      reads this
    {
      !Willing(replies) || (Twice(replies) && !Willing(Later(replies)))
    }

    /** WriteTo when the contents lie in one piece before the write position. */
    method WriteStraight(sink: Sink) returns (n: nat, err: Outcome, ghost taken: seq<byte>)
      requires Valid() && r < w
      modifies this`r, this`w, this`isEmpty, sink
      ensures Valid() && sink.accepted == old(sink.accepted) + taken && n == |taken|
      ensures old(Contents()) == taken + Contents()
      ensures err == Reported(!Willing(old(sink.replies)), Contents()) && sink.replies == Later(old(sink.replies))
      ensures n == TakenOf(old(sink.replies), old(|Contents()|))
    {
      n := w - r;
      ghost var before := Contents();
      assert before == buf[r..r + n];
      var m;
      m, err := sink.Write(buf[r..r + n]);
      taken := before[..m];
      assert before == taken + before[m..];
      Skip(m);
      return m, if err != NoError then err else if !isEmpty then ShortWrite else NoError, taken;
    }

    /** WriteTo when the contents reach exactly to the end of the array. */
    method WriteToEnd(sink: Sink) returns (n: nat, err: Outcome, ghost taken: seq<byte>)
      requires Valid() && !isEmpty && w == 0
      modifies this`r, this`w, this`isEmpty, sink
      ensures Valid() && sink.accepted == old(sink.accepted) + taken && n == |taken|
      ensures old(Contents()) == taken + Contents() <==> !(old(r) == 0 && n == 0)
      ensures n == 0 <==> old(sink.replies) != [] && old(sink.replies)[0].limit == 0
      ensures err == Reported(!Willing(old(sink.replies)), Contents()) && sink.replies == Later(old(sink.replies))
      ensures n == TakenOf(old(sink.replies), old(|Contents()|))
    {
      n := size - r + w;
      ghost var before := Contents();
      assert before == buf[r..r + n] && before != [];
      var m;
      m, err := sink.Write(buf[r..r + n]);
      taken := before[..m];
      assert before == taken + before[m..];
      Skip(m);
      assert m == 0 ==> taken + Contents() == Contents();
      return m, if err != NoError then err else if !isEmpty then ShortWrite else NoError, taken;
    }

    /** The first call of WriteAround: the piece up to the end of the array. No reset follows it. */
    method WriteBack(sink: Sink) returns (m: nat, err: Outcome, ghost taken: seq<byte>)
      requires Valid() && 0 < w <= r
      modifies this`r, sink
      ensures Valid() && sink.accepted == old(sink.accepted) + taken && m == |taken| <= size - old(r)
      ensures old(Contents()) == taken + Contents()
      ensures m == size - old(r) ==> r == 0
      ensures err == (if Willing(old(sink.replies)) then NoError else Failed)
      ensures m == TakenOf(old(sink.replies), size - old(r))
      ensures sink.replies == Later(old(sink.replies))
    {
      taken := buf[r..];
      m, err := sink.Write(buf[r..]);
      taken := taken[..m];
      Move(m);
    }

    /** The second call of WriteAround: the piece from the start of the array. */
    method WriteFront(sink: Sink) returns (n: nat, err: Outcome, ghost taken: seq<byte>)
      requires Valid() && r == 0 < w
      modifies this`r, this`w, this`isEmpty, sink
      ensures Valid() && sink.accepted == old(sink.accepted) + taken && n == |taken|
      ensures old(Contents()) == taken + Contents()
      ensures err == Reported(!Willing(old(sink.replies)), Contents()) && sink.replies == Later(old(sink.replies))
      ensures n == TakenOf(old(sink.replies), old(|Contents()|))
    {
      var c2 := w;
      var m;
      taken := buf[..c2];
      m, err := sink.Write(buf[..c2]);
      taken := taken[..m];
      r := m;
      if r == w {
        Reset();
      }
      return m, if err != NoError then err else if !isEmpty then ShortWrite else NoError, taken;
    }

    /** WriteTo when the contents go around the end. */
    method WriteAround(sink: Sink) returns (n: nat, err: Outcome, ghost taken: seq<byte>)
      requires Valid() && 0 < w <= r
      modifies this`r, this`w, this`isEmpty, sink
      ensures Valid() && sink.accepted == old(sink.accepted) + taken && n == |taken|
      ensures old(Contents()) == taken + Contents()
      ensures err == Reported(old(Fails(sink.replies)), Contents()) && n == old(Takes(sink.replies))
      ensures sink.replies == old(if Twice(sink.replies) then Later(Later(sink.replies)) else Later(sink.replies))
    {
      hide Stored, Taken, Willing, Later;
      var c1 := size - r;
      n, err, taken := WriteBack(sink);
      if err != NoError {
        return;
      }
      assert Buffered() > 0;
      if n < c1 {
        err := ShortWrite;
        return;
      }
      var m;
      ghost var front;
      m, err, front := WriteFront(sink);
      Associative(taken, front, Contents());
      n, taken := n + m, taken + front;
    }

    /** Writes all readable bytes to the sink, in up to two calls. What the sink took and what is left always make
        up the old contents - unless a full buffer that starts at position 0 meets a sink that takes nothing: then
        the test `r == w` takes the untouched buffer for a drained one and drops it. A failed write is reported, by the
        first call or the second; without one a short write is reported exactly if something is left. */
    method WriteTo(sink: Sink) returns (n: nat, err: Outcome)
      requires Valid()
      modifies this`r, this`w, this`isEmpty, sink
      ensures Valid()
      ensures |sink.accepted| == |old(sink.accepted)| + n && old(sink.accepted) <= sink.accepted
      ensures old(Contents()) == sink.accepted[|old(sink.accepted)|..] + Contents()
         <==> !(old(IsFull()) && old(r) == 0 && old(sink.replies) != [] && old(sink.replies)[0].limit == 0)
      ensures n == old(Takes(sink.replies))
      ensures err == if old(Contents()) == [] then IsEmptyError
                     else if old(Fails(sink.replies)) then Failed
                     else if Contents() != [] then ShortWrite
                     else NoError
      ensures sink.replies == old(if Contents() == [] then sink.replies
                                  else if Twice(sink.replies) then Later(Later(sink.replies))
                                  else Later(sink.replies))
    {
      if isEmpty {
        return 0, IsEmptyError;
      }
      ghost var taken;
      if w > r {
        n, err, taken := WriteStraight(sink);
      } else if r + (size - r + w) <= size {
        n, err, taken := WriteToEnd(sink);
      } else {
        n, err, taken := WriteAround(sink);
      }
      assert sink.accepted[|old(sink.accepted)|..] == taken;
    }

    /** What ReadFrom does before each round: at least MinRead bytes of room. */
    method MakeRoom()
      requires Valid()
      modifies this
      ensures Valid() && Contents() == old(Contents()) && Available() >= MIN_READ
      ensures buf == old(buf) || fresh(buf)
      ensures if old(Available()) < MIN_READ then r == 0 else unchanged(this)
      ensures size == SizeForRead(old(size), |old(Contents())|)
    {
      if Available() < MIN_READ {
        GrownCapacityCovers(size, Buffered() + MIN_READ);
        Grow(Buffered() + MIN_READ);
      }
    }

    /** One round of ReadFrom with the write position behind the read position: a single read in between. */
    method FillBetween(src: Source) returns (n: nat, err: Outcome, ghost a: seq<byte>)
      requires Valid() && w < r
      modifies this`w, this`isEmpty, buf, src`chunks
      ensures Valid() && n == |a|
      ensures a == Delivery(old(src.chunks), r - old(w)) && src.chunks == Remaining(old(src.chunks), r - old(w))
      ensures err == if src.chunks == [] && (old(src.chunks) == [] || src.eager) then src.Last() else NoError
      ensures Contents() == old(Contents()) + a && w <= r
    {
      hide Delivery, Remaining, Flatten, Laid;
      a := Delivery(src.chunks, r - w);
      AppendAny(buf[..], r, w, isEmpty, a);
      ghost var laid := Laid(buf[..], w, a);
      n, err := src.Read(buf, w, r);
      assert buf[..] == laid;
      isEmpty := false;
      w := Wrap(w + n, size);
    }

    /** The first read of the other round, into the back of the array. Even one that delivers nothing clears
        `isEmpty`: an empty buffer is full of stale bytes from then on. */
    method FillBack(src: Source) returns (n: nat, err: Outcome, ghost a: seq<byte>)
      requires Valid() && r <= w < size && Available() > 0
      modifies this`w, this`isEmpty, buf, src`chunks
      ensures Valid() && !isEmpty && n == |a|
      ensures a == Delivery(old(src.chunks), size - old(w)) && src.chunks == Remaining(old(src.chunks), size - old(w))
      ensures err == if src.chunks == [] && (old(src.chunks) == [] || src.eager) then src.Last() else NoError
      ensures w == Wrap(old(w) + n, size) && buf[..] == Laid(old(buf[..]), old(w), a)
      ensures old(Contents()) != [] || a != [] ==> Contents() == old(Contents()) + a
      ensures old(Contents()) == a == [] ==> |Contents()| == size
    {
      hide Delivery, Remaining, Flatten, Laid;
      a := Delivery(src.chunks, size - w);
      if !isEmpty || a != [] {
        AppendAny(buf[..], r, w, isEmpty, a);
      }
      ghost var laid := Laid(buf[..], w, a);
      n, err := src.Read(buf, w, size);
      assert buf[..] == laid;
      isEmpty := false;
      w := Wrap(w + n, size);
    }

    /** The second read of that round, into the front of the array; `c` is what it makes of the contents. */
    method FillFront(src: Source) returns (n: nat, err: Outcome, ghost b: seq<byte>, ghost c: seq<byte>)
      requires Valid() && !isEmpty && (r == 0 || w == 0 || r < w)
      modifies this`w, buf, src`chunks
      ensures Valid() && !isEmpty && n == |b| == |c|
      ensures b == Delivery(old(src.chunks), r) && src.chunks == Remaining(old(src.chunks), r)
      ensures err == if src.chunks == [] && (old(src.chunks) == [] || src.eager) then src.Last() else NoError
      ensures w == Wrap(old(w) + n, size)
      ensures Contents() == old(Contents()) + c && c == Landed(old(buf[..]), old(w), b)
      ensures buf[..] == Laid(old(buf[..]), 0, b)
      ensures b == [] || old(w) == 0 ==> c == b
    {
      hide Stored, Delivery, Remaining, Flatten, Laid, Landed;
      b := Delivery(src.chunks, r);
      c := Landed(buf[..], w, b);
      FrontRead(buf[..], r, w, b);
      if b == [] || w == 0 {
        LandedInPlace(buf[..], w, b);
      }
      ghost var laid := Laid(buf[..], 0, b);
      n, err := src.Read(buf, 0, r);
      assert buf[..] == laid;
      w := Wrap(w + n, size);
    }

    /** The geometries on which every reader is served in order: after growth, when the read position is 0, or when the
        free space is one piece. On all others some reader is not. */
    ghost predicate InPlace()
      reads this, buf
      requires Valid()
      ensures InPlace() <==> !Split(size, r, w)
    {
      Available() < MIN_READ || r == 0 || w < r
    }

    /** ReadFrom will keep the order of what this reader delivers. */
    ghost predicate Serves(chunks: seq<seq<byte>>)
      reads this, buf
      requires Valid()
      ensures InPlace() ==> Serves(chunks)
    {
      size == 0 || Orderly(buf[..], r, w, chunks)
    }

    /** The first read of a round into this buffer gets something, or there is something already. */
    ghost predicate Keeps(src: Source)
      reads this, buf, src
      requires Valid()
    {
      Contents() != [] || (src.chunks != [] && src.chunks[0] != [])
    }

    /** The other round: two reads, the second one issued whatever the first delivered. `landed` is what became
        contents, `got` what the reader gave. */
    method FillAround(src: Source) returns (n: nat, err: Outcome, ghost got: seq<byte>, ghost landed: seq<byte>)
      requires Valid() && r <= w < size && Available() > 0
      modifies this`w, this`isEmpty, buf, src`chunks
      ensures Valid() && !isEmpty && n == |got| == |landed|
      ensures Progress(old(src.chunks), src.chunks, err, src.Last())
      ensures old(Keeps(src)) ==> Contents() == old(Contents()) + landed
      ensures !old(Keeps(src)) ==> got == []
      ensures var (a, b, c) := old(TwoReads(buf[..], r, w, src.chunks)); got == a + b && landed == a + c
      ensures (buf[..], w, src.chunks) == old(RoundEnd(buf[..], r, w, src.chunks))
    {
      hide Stored, Flatten, Weight, Laid, Landed, Delivery, Remaining, Misplaced, Cells;
      TwoReadsConserve(src.chunks, size - w, r);
      TwoReadsMean(buf[..], r, w, src.chunks);
      ghost var (a, b, c) := TwoReads(buf[..], r, w, src.chunks);
      n, err, got := FillBack(src);
      landed := got;
      if err != NoError {
        assert a + [] == a;
        NothingMore(buf[..], r);
        return;
      }
      assert old(src.chunks) != [];
      var m;
      ghost var b', c';
      m, err, b', c' := FillFront(src);
      n, got, landed := n + m, a + b, a + c;
      Associative(old(Contents()), a, c);
    }

    /** One round of the loop of ReadFrom: room first, then two reads or one. */
    method Round(src: Source) returns (n: nat, err: Outcome, ghost got: seq<byte>, ghost landed: seq<byte>)
      requires Valid()
      modifies this, buf, src`chunks
      ensures Valid() && Contents() != [] && (buf == old(buf) || fresh(buf))
      ensures size == SizeForRead(old(size), |old(Contents())|)
      ensures n == |got| && got + Flatten(src.chunks) == Flatten(old(src.chunks))
      ensures Progress(old(src.chunks), src.chunks, err, src.Last())
      ensures |landed| == n && (old(Keeps(src)) ==> Contents() == old(Contents()) + landed)
      ensures old(Serves(src.chunks)) <==> landed == got && Serves(src.chunks)
      ensures !old(Keeps(src)) ==> n == 0
    {
      hide Stored, Orderly, RoundEnd, TwoReads, Flatten;
      ghost var grows, serves := Available() < MIN_READ, Serves(src.chunks);
      assert grows ==> InPlace();
      MakeRoom();
      assert grows ==> InPlace();
      assert serves == Serves(src.chunks);
      ghost var cells, w0, chunks := buf[..], w, src.chunks;
      if w >= r {
        AroundMeans(cells, r, w0, chunks);
        n, err, got, landed := FillAround(src);
      } else {
        ReadConserves(src.chunks, r - w);
        assert InPlace();
        n, err, got := FillBetween(src);
        landed := got;
        assert InPlace();
      }
      assert Buffered() > 0;
    }

    lemma NothingIsServed()
      requires Valid()
      ensures Serves([])
    {
    }

    /** Reads until the reader's data ends. What arrives is appended, all of it and in order, exactly if the first read
        into an empty buffer delivers something - otherwise stale bytes of the array become contents - and no round
        misplaces what it reads. The buffer grows to less than twice what its contents and one more read need. */
    method ReadFrom(src: Source) returns (n: nat, err: Outcome)
      requires Valid()
      modifies this, buf, src`chunks
      ensures Valid() && src.chunks == []
      ensures n == |Flatten(old(src.chunks))|
      ensures err == if src.fails then Failed else NoError
      ensures Contents() == old(Contents()) + Flatten(old(src.chunks)) <==> old(Keeps(src) && Serves(src.chunks))
      ensures old(Keeps(src)) ==> old(Contents()) <= Contents() && |Contents()| == |old(Contents())| + n
      ensures GrewLittle(old(size), size, |Contents()|)
    {
      hide Stored, Orderly, Flatten, Delivery, Remaining, SizeForRead, GrewLittle;
      n := 0;
      assert GrewLittle(size, size, |Contents()|) by {
        NothingGrew(size, |Contents()|);
      }
      ghost var before, all := Contents(), Flatten(src.chunks);
      ghost var keeps, serves := Keeps(src), Serves(src.chunks);
      ghost var got, landed, first := [], [], true;
      while true
        invariant Valid() && (buf == old(buf) || fresh(buf))
        invariant n == |got| == |landed| && got + Flatten(src.chunks) == all
        invariant serves <==> landed == got && Serves(src.chunks)
        invariant first ==> Contents() == before && got == [] && keeps == Keeps(src)
        invariant !first ==> Contents() != []
        invariant !first && keeps ==> Contents() == before + landed
        invariant !first && !keeps ==> |Contents()| > n && before == []
        invariant GrewLittle(old(size), size, |Contents()|)
        decreases Weight(src.chunks)
      {
        var m;
        ghost var more, put;
        GrowthForRead(old(size), size, |Contents()|);
        m, err, more, put := Round(src);
        Associative(before, landed, put);
        Associative(got, more, Flatten(src.chunks));
        DifferencesStay(landed, got, put, more);
        n, got, landed, first := n + m, got + more, landed + put, false;
        if err != NoError {
          assert got == all by {
            NothingFlattened();
            assert got + [] == got;
          }
          SameTail(before, landed, all);
          assert Serves([]) by {
            NothingIsServed();
          }
          return n, if err == EndOfFile then NoError else err;
        }
      }
    }

    /** On every geometry that is not in place some reader's bytes do not arrive as they were delivered. */
    method BreakOrder() returns (sent: seq<byte>)
      requires Valid() && !InPlace()
      modifies this, buf
      ensures Valid() && Contents() != old(Contents()) + sent
    {
      hide Stored;
      var x := if buf[w] == 0 then 1 else 0;
      SomeChunksAreMisplaced(buf[..], r, w, x);
      var src := new Source([[], [x]], true, false);
      sent := [x];
      assert src.chunks[1..] == [[x]] && Flatten([[x]]) == [x] + Flatten([]);
      var _, _ := ReadFrom(src);
    }
  }

  /** Every reader is served in order exactly on the geometries that are in place. */
  lemma InPlaceIff(b: Buffer)
    requires b.Valid()
    ensures b.InPlace() <==> forall chunks :: b.Serves(chunks)
    ensures (forall chunks :: b.Serves(chunks)) <==> b.Available() < 512 || b.r == 0 || b.w < b.r
  {
    if !b.InPlace() {
      var x := if b.buf[b.w] == 0 then 1 else 0;
      SomeChunksAreMisplaced(b.buf[..], b.r, b.w, x);
      assert !b.Serves([[], [x]]);
    }
  }

  // ---------- readers that never come back with nothing ----------

  /** A reader that delivers at least one byte on every call until its data ends, as io.Reader asks for. */
  predicate Busy(chunks: seq<seq<byte>>) {
    forall i | 0 <= i < |chunks| :: chunks[i] != []
  }

  lemma InPlaceIsOrderly(buf: seq<byte>, r: nat, w: nat, chunks: seq<seq<byte>>)
    requires !Split(|buf|, r, w)
    ensures Orderly(buf, r, w, chunks)
  {
  }

  /** With a single cell behind the contents a busy reader fills it at once, and the second read is in place. */
  lemma LastCellIsOrderly(buf: seq<byte>, r: nat, w: nat, chunks: seq<seq<byte>>)
    requires Split(|buf|, r, w) && w + 1 == |buf| && Busy(chunks)
    ensures Orderly(buf, r, w, chunks)
  {
    if chunks != [] {
      assert chunks[0] != [];
      var (a, b, _) := TwoReads(buf, r, w, chunks);
      LandedInPlace(Laid(buf, w, a), 0, b);
      OrderlyStep(buf, r, w, chunks);
      var (buf', w', chunks') := RoundEnd(buf, r, w, chunks);
      assert w' == |b|;
      InPlaceIsOrderly(buf', r, w', chunks');
    }
  }

  /** With more cells than one, two single bytes suffice: the second lands at the front instead of behind the first. */
  lemma TwoBytesAreMisplaced(buf: seq<byte>, r: nat, w: nat, x: byte)
    requires 0 < r < w && w + 1 < |buf| && x != buf[w + 1]
    ensures Misplaced(buf, r, w, [[0], [x]])
  {
    var chunks: seq<seq<byte>> := [[0], [x]];
    assert Delivery(chunks, |buf| - w) == [0] && Remaining(chunks, |buf| - w) == chunks[1..];
    assert Delivery(chunks[1..], r) == [x];
    var laid := Laid(buf, w, [0]);
    assert Cells(Laid(laid, 0, [x]), w + 1, 1)[0] == Laid(laid, 0, [x])[Wrap(w + 1 + 0, |buf|)] == laid[w + 1];
  }

  /** Every busy reader is served in order exactly where every reader is, or where one cell is left behind the
      contents. */
  lemma BusyInPlaceIff(b: Buffer)
    requires b.Valid()
    ensures (b.InPlace() || b.size - b.w == 1) <==> forall chunks | Busy(chunks) :: b.Serves(chunks)
  {
    if b.InPlace() {
    } else if b.size - b.w == 1 {
      forall chunks | Busy(chunks) ensures b.Serves(chunks) {
        LastCellIsOrderly(b.buf[..], b.r, b.w, chunks);
      }
    } else {
      var x := if b.buf[b.w + 1] == 0 then 1 else 0;
      TwoBytesAreMisplaced(b.buf[..], b.r, b.w, x);
      assert Busy([[0], [x]]) && !b.Serves([[0], [x]]);
    }
  }
}
