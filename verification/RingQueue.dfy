/** Whole runs of a ring buffer against the plain byte queue it stands for. */
module RingQueue {
  import opened Bytes
  import opened RingGrowth
  import opened RingBuffer

  datatype Op =
    | Write(p: seq<byte>)
    | WriteByte(c: byte)
    | Read(room: nat)
    | ReadByte
    | Discard(n: int)
    | Peek(n: int)
    | Copied
    | Reset

  datatype Out = Wrote(n: nat) | Panicked | Got(data: seq<byte>, ok: bool) | Dropped(n: nat) | Done

  /** A byte queue together with the capacity that decides when a single byte can no longer be written. */
  datatype Queue = Queue(bytes: seq<byte>, cap: nat)

  /** The one operation that has no queue counterpart: a byte for a full buffer of threshold size. */
  predicate Stuck(q: Queue, op: Op) {
    op.WriteByte? && q.cap >= BUFFER_GROW_THRESHOLD && |q.bytes| == q.cap
  }

  function After(q: Queue, op: Op): Queue {
    match op
    case Write(p) =>
      Queue(q.bytes + p, if |q.bytes| + |p| <= q.cap then q.cap else GrownCapacity(q.cap, |q.bytes| + |p|))
    case WriteByte(c) =>
      if Stuck(q, op) then q
      else Queue(q.bytes + [c], if |q.bytes| < q.cap then q.cap else GrownCapacity(q.cap, 1))
    case Read(room) => q.(bytes := q.bytes[Min(room, |q.bytes|)..])
    case ReadByte => q.(bytes := q.bytes[Min(1, |q.bytes|)..])
    case Discard(n) => q.(bytes := if n <= 0 then q.bytes else q.bytes[Min(n, |q.bytes|)..])
    case Peek(_) => q
    case Copied => q
    case Reset => q.(bytes := [])
  }

  function Output(q: Queue, op: Op): Out {
    match op
    case Write(p) => Wrote(|p|)
    case WriteByte(_) => if Stuck(q, op) then Panicked else Wrote(1)
    case Read(room) => Got(q.bytes[..Min(room, |q.bytes|)], room == 0 || q.bytes != [])
    case ReadByte => Got(q.bytes[..Min(1, |q.bytes|)], q.bytes != [])
    case Discard(n) => Dropped(if n <= 0 then 0 else Min(n, |q.bytes|))
    case Peek(n) => Got(if n <= 0 || n > |q.bytes| then q.bytes else q.bytes[..n], true)
    case Copied => Got(q.bytes, true)
    case Reset => Done
  }

  function Run(q: Queue, ops: seq<Op>): (Queue, seq<Out>)
    decreases |ops|
  {
    if ops == [] then (q, [])
    else if Stuck(q, ops[0]) then (q, [Panicked])
    else
      var (last, outs) := Run(After(q, ops[0]), ops[1..]);
      (last, [Output(q, ops[0])] + outs)
  }

  ghost function Abstract(b: Buffer): Queue
    reads b, b.buf
    requires b.Valid()
  {
    Queue(b.Contents(), b.size)
  }

  method ApplyReading(b: Buffer, op: Op) returns (out: Out)
    requires b.Valid() && !op.Write? && !op.WriteByte?
    modifies b
    ensures b.Valid() && b.buf == old(b.buf)
    ensures out == Output(old(Abstract(b)), op) && Abstract(b) == old(After(Abstract(b), op))
  {
    hide Stored;
    match op
    case Read(room) =>
      var p := new byte[room];
      var n, ok := b.Read(p);
      out := Got(p[..n], ok);
    case ReadByte =>
      var c := b.ReadByte();
      out := match c case Some(x) => Got([x], true) case None => Got([], false);
    case Discard(n) =>
      var k := b.Discard(n);
      out := Dropped(k);
    case Peek(n) =>
      var head, tail := b.Peek(n);
      out := Got(head + tail, true);
    case Copied =>
      var s := b.Bytes();
      out := Got(s, true);
    case Reset =>
      b.Reset();
      out := Done;
  }

  /** One operation of the buffer is one operation of the queue. */
  method Apply(b: Buffer, op: Op) returns (out: Out)
    requires b.Valid()
    modifies b, b.buf
    ensures out == Output(old(Abstract(b)), op)
    ensures !old(Stuck(Abstract(b), op)) ==>
              b.Valid() && (b.buf == old(b.buf) || fresh(b.buf)) && Abstract(b) == old(After(Abstract(b), op))
  {
    if op.Write? {
      var n := b.Write(op.p);
      return Wrote(n);
    }
    if op.WriteByte? {
      var panicked := b.WriteByte(op.c);
      return if panicked then Panicked else Wrote(1);
    }
    out := ApplyReading(b, op);
  }

  /** Every sequence of operations answers exactly as the queue does, up to the first panic if there is one. */
  method Execute(b: Buffer, ops: seq<Op>) returns (outs: seq<Out>)
    requires b.Valid()
    modifies b, b.buf
    ensures outs == Run(old(Abstract(b)), ops).1
    ensures Panicked !in outs ==> b.Valid() && Abstract(b) == Run(old(Abstract(b)), ops).0
    decreases |ops|
  {
    if ops == [] {
      return [];
    }

    ghost var q := Abstract(b);
    var out := Apply(b, ops[0]);
    if out == Panicked {
      return [Panicked];
    }
    var rest := Execute(b, ops[1..]);
    outs := [out] + rest;
  }

  // ---------- what a run moves ----------

  function Puts(op: Op): seq<byte> {
    match op
    case Write(p) => p
    case WriteByte(c) => [c]
    case _ => []
  }

  function Takes(q: Queue, op: Op): seq<byte> {
    match op
    case Read(room) => q.bytes[..Min(room, |q.bytes|)]
    case ReadByte => q.bytes[..Min(1, |q.bytes|)]
    case Discard(n) => if n <= 0 then [] else q.bytes[..Min(n, |q.bytes|)]
    case Reset => q.bytes
    case _ => []
  }

  function Added(q: Queue, ops: seq<Op>): seq<byte>
    decreases |ops|
  {
    if ops == [] || Stuck(q, ops[0]) then []
    else Puts(ops[0]) + Added(After(q, ops[0]), ops[1..])
  }

  function Removed(q: Queue, ops: seq<Op>): seq<byte>
    decreases |ops|
  {
    if ops == [] || Stuck(q, ops[0]) then []
    else Takes(q, ops[0]) + Removed(After(q, ops[0]), ops[1..])
  }

  lemma StepIsFifo(q: Queue, op: Op)
    requires !Stuck(q, op)
    ensures Takes(q, op) + After(q, op).bytes == q.bytes + Puts(op)
  {
  }

  /** First in, first out over any run: what was taken out, followed by what is still there, is what was there at the
      start followed by what was put in. */
  lemma {:induction false} RunIsFifo(q: Queue, ops: seq<Op>)
    ensures Removed(q, ops) + Run(q, ops).0.bytes == q.bytes + Added(q, ops)
    decreases |ops|
  {
    if ops != [] && !Stuck(q, ops[0]) {
      var next, rest := After(q, ops[0]), ops[1..];
      RunIsFifo(next, rest);
      StepIsFifo(q, ops[0]);
      Associative(Takes(q, ops[0]), Removed(next, rest), Run(next, rest).0.bytes);
      Associative(Takes(q, ops[0]), next.bytes, Added(next, rest));
      Associative(q.bytes, Puts(ops[0]), Added(next, rest));
    }
  }

  /** The contents never exceed the capacity and the capacity never falls, over any run. */
  lemma {:induction false} RunKeepsCapacity(q: Queue, ops: seq<Op>)
    requires |q.bytes| <= q.cap
    ensures |Run(q, ops).0.bytes| <= Run(q, ops).0.cap
    ensures q.cap <= Run(q, ops).0.cap
    decreases |ops|
  {
    if ops != [] && !Stuck(q, ops[0]) {
      match ops[0] {
        case Write(p) => GrownCapacityCovers(q.cap, |q.bytes| + |p|);
        case WriteByte(_) =>
          GrownCapacityCovers(q.cap, 1);
          OneByteRequestGrows(q.cap);
        case _ =>
      }
      RunKeepsCapacity(After(q, ops[0]), ops[1..]);
    }
  }

  // ---------- what growing costs ----------

  /** The bytes that are moved to a larger array over a run. */
  function Moved(q: Queue, ops: seq<Op>): nat
    decreases |ops|
  {
    if ops == [] || Stuck(q, ops[0]) then 0
    else
      var next := After(q, ops[0]);
      (if next.cap != q.cap then |q.bytes| else 0) + Moved(next, ops[1..])
  }

  lemma StepMovesLittle(q: Queue, op: Op)
    requires |q.bytes| <= q.cap && !Stuck(q, op)
    ensures var next := After(q, op);
      && |next.bytes| <= next.cap && q.cap <= next.cap
      && (next.cap != q.cap ==> |q.bytes| <= 5 * (next.cap - q.cap))
  {
    match op {
      case Write(p) =>
        GrownCapacityCovers(q.cap, |q.bytes| + |p|);
        if After(q, op).cap != q.cap {
          GrowthIsGeometric(q.cap, |q.bytes| + |p|);
        }
      case WriteByte(_) =>
        GrownCapacityCovers(q.cap, 1);
        OneByteRequestGrows(q.cap);
        if After(q, op).cap != q.cap {
          GrowthIsGeometric(q.cap, 1);
        }
      case _ =>
    }
  }

  /** Growing is paid for: over any run, however long, the bytes moved are at most five times the capacity gained. */
  lemma {:induction false} RunMovesLittle(q: Queue, ops: seq<Op>)
    requires |q.bytes| <= q.cap
    ensures q.cap <= Run(q, ops).0.cap
    ensures Moved(q, ops) <= 5 * (Run(q, ops).0.cap - q.cap)
    decreases |ops|
  {
    hide After;
    if ops != [] && !Stuck(q, ops[0]) {
      StepMovesLittle(q, ops[0]);
      RunMovesLittle(After(q, ops[0]), ops[1..]);
    }
  }
}
