/** The pool of ring buffers: size classes, and the calibration that picks the default and the largest size kept. */
module RingPool {
  import opened Bytes
  import opened RingGrowth
  import RingBuffer

  const STEPS := 20
  const CALIBRATE_THRESHOLD := 42000

  // ---------- size classes ----------

  /** The size of class `i`: 64 shifted left by `i`. */
  function ClassSize(i: nat): (s: nat)
    ensures s > 0
  {
    64 * Pow2(i)
  }

  /** `n` shifted right by six bits; Go rounds towards minus infinity. */
  function ShiftRight6(n: int): int {
    n / 64
  }

  function Index(n: int): (i: nat)
    ensures i < STEPS
  {
    var m := ShiftRight6(n - 1);
    var i := if m > 0 then BitLen(m) else 0;
    if i >= STEPS then STEPS - 1 else i
  }

  /** The class of a size is the least one that covers it, or the last one if none does. */
  lemma IndexIsLeast(n: int)
    ensures var i := Index(n);
      && (i < STEPS - 1 ==> n <= ClassSize(i))
      && (forall j: nat | j < i :: ClassSize(j) < n)
    ensures Index(n) < 20 && ClassSize(0) == 64 && forall i: nat :: ClassSize(i + 1) == 2 * ClassSize(i)
  {
    var m := ShiftRight6(n - 1);
    if m > 0 {
      BitLenBrackets(m);
      var b := BitLen(m);
      forall j: nat | j < b ensures ClassSize(j) < n {
        if j < b - 1 {
          Pow2Monotone(j, b - 1);
        }
      }
    }
  }

  // ---------- calls and sizes ----------

  datatype CallSize = CallSize(calls: nat, size: nat)

  function Total(cs: seq<CallSize>): nat {
    if cs == [] then 0 else cs[0].calls + Total(cs[1..])
  }

  /** The calls of the classes that are no larger than `max`. */
  function HeldBy(cs: seq<CallSize>, max: nat): nat {
    if cs == [] then 0 else (if cs[0].size <= max then cs[0].calls else 0) + HeldBy(cs[1..], max)
  }

  lemma {:induction false} HeldByAppend(a: seq<CallSize>, b: seq<CallSize>, max: nat)
    ensures HeldBy(a + b, max) == HeldBy(a, max) + HeldBy(b, max)
  {
    if a == [] {
      assert a + b == b;
    } else {
      assert (a + b)[1..] == a[1..] + b;
      HeldByAppend(a[1..], b, max);
    }
  }

  lemma {:induction false} TotalAppend(a: seq<CallSize>, b: seq<CallSize>)
    ensures Total(a + b) == Total(a) + Total(b)
  {
    if a == [] {
      assert a + b == b;
    } else {
      assert (a + b)[1..] == a[1..] + b;
      TotalAppend(a[1..], b);
    }
  }

  lemma {:induction false} HeldAtMostTotal(cs: seq<CallSize>, max: nat)
    ensures HeldBy(cs, max) <= Total(cs)
    ensures (forall i | 0 <= i < |cs| :: cs[i].size <= max) ==> HeldBy(cs, max) == Total(cs)
  {
    if cs != [] {
      HeldAtMostTotal(cs[1..], max);
    }
  }

  /** Taking one class out of the middle. */
  lemma SumsWithout(b: seq<CallSize>, i: nat, max: nat)
    requires i < |b|
    ensures var rest, one := b[..i] + b[i + 1..], [b[i]];
      && HeldBy(b, max) == HeldBy(one, max) + HeldBy(rest, max)
      && Total(b) == Total(one) + Total(rest)
  {
    var front, one, back := b[..i], [b[i]], b[i + 1..];
    assert b == front + (one + back);
    HeldByAppend(front, one + back, max);
    HeldByAppend(one, back, max);
    HeldByAppend(front, back, max);
    TotalAppend(front, one + back);
    TotalAppend(one, back);
    TotalAppend(front, back);
  }

  /** The first of one order, somewhere in another. */
  lemma FirstElsewhere(a: seq<CallSize>, b: seq<CallSize>) returns (i: nat)
    requires a != [] && multiset(a) == multiset(b)
    ensures i < |b| && b[i] == a[0]
    ensures multiset(a[1..]) == multiset(b[..i] + b[i + 1..])
  {
    assert a[0] in multiset(b);
    i :| 0 <= i < |b| && b[i] == a[0];
    assert a == [a[0]] + a[1..];
    assert b == b[..i] + [b[i]] + b[i + 1..];
    assert multiset(a[1..]) == multiset(a) - multiset{a[0]};
    assert multiset(b[..i] + b[i + 1..]) == multiset(b) - multiset{b[i]};
  }

  /** The sums do not depend on the order. */
  lemma {:induction false} SumsOfPermutation(a: seq<CallSize>, b: seq<CallSize>, max: nat)
    requires multiset(a) == multiset(b)
    ensures HeldBy(a, max) == HeldBy(b, max) && Total(a) == Total(b)
    decreases |a|
  {
    hide HeldBy, Total;
    if a == [] {
      assert |multiset(b)| == 0;
      assert b == [];
    } else {
      var i := FirstElsewhere(a, b);
      SumsWithout(a, 0, max);
      SumsWithout(b, i, max);
      assert a[..0] + a[1..] == a[1..];
      SumsOfPermutation(a[1..], b[..i] + b[i + 1..], max);
    }
  }

  lemma HeldByPrefix(cs: seq<CallSize>, k: nat, max: nat)
    requires k <= |cs| && forall i | 0 <= i < k :: cs[i].size <= max
    ensures Total(cs[..k]) <= HeldBy(cs, max) <= Total(cs)
    ensures k == |cs| ==> HeldBy(cs, max) == Total(cs)
  {
    assert cs == cs[..k] + cs[k..];
    HeldByAppend(cs[..k], cs[k..], max);
    HeldAtMostTotal(cs[..k], max);
    HeldAtMostTotal(cs, max);
  }

  /** The calls of the classes that have more calls than `calls`. */
  function Hotter(cs: seq<CallSize>, calls: nat): nat {
    if cs == [] then 0 else (if cs[0].calls > calls then cs[0].calls else 0) + Hotter(cs[1..], calls)
  }

  lemma {:induction false} HotterAppend(a: seq<CallSize>, b: seq<CallSize>, calls: nat)
    ensures Hotter(a + b, calls) == Hotter(a, calls) + Hotter(b, calls)
  {
    if a == [] {
      assert a + b == b;
    } else {
      assert (a + b)[1..] == a[1..] + b;
      HotterAppend(a[1..], b, calls);
    }
  }

  lemma HotterWithout(b: seq<CallSize>, i: nat, calls: nat)
    requires i < |b|
    ensures Hotter(b, calls) == Hotter([b[i]], calls) + Hotter(b[..i] + b[i + 1..], calls)
  {
    var front, one, back := b[..i], [b[i]], b[i + 1..];
    assert b == front + (one + back);
    HotterAppend(front, one + back, calls);
    HotterAppend(one, back, calls);
    HotterAppend(front, back, calls);
  }

  lemma {:induction false} HotterOfPermutation(a: seq<CallSize>, b: seq<CallSize>, calls: nat)
    requires multiset(a) == multiset(b)
    ensures Hotter(a, calls) == Hotter(b, calls)
    decreases |a|
  {
    hide Hotter;
    if a == [] {
      assert |multiset(b)| == 0;
      assert b == [];
    } else {
      var i := FirstElsewhere(a, b);
      HotterWithout(a, 0, calls);
      HotterWithout(b, i, calls);
      assert a[..0] + a[1..] == a[1..];
      HotterOfPermutation(a[1..], b[..i] + b[i + 1..], calls);
    }
  }

  lemma {:induction false} NoneHotter(cs: seq<CallSize>, calls: nat)
    ensures Hotter(cs, calls) <= Total(cs)
    ensures (forall i | 0 <= i < |cs| :: cs[i].calls <= calls) ==> Hotter(cs, calls) == 0
  {
    if cs != [] {
      NoneHotter(cs[1..], calls);
    }
  }

  predicate Descending(cs: seq<CallSize>) {
    forall i, j | 0 <= i < j < |cs| :: cs[i].calls >= cs[j].calls
  }

  /** In a descending order the hotter classes come first. */
  lemma HotterComeFirst(hot: seq<CallSize>, i: nat, k: nat)
    requires Descending(hot) && i < k <= |hot|
    ensures Hotter(hot, hot[i].calls) <= Total(hot[..k - 1])
  {
    var c := hot[i].calls;
    assert hot == hot[..i] + hot[i..];
    HotterAppend(hot[..i], hot[i..], c);
    NoneHotter(hot[..i], c);
    NoneHotter(hot[i..], c);
    assert hot[..k - 1] == hot[..i] + hot[i..k - 1];
    TotalAppend(hot[..i], hot[i..k - 1]);
  }

  /** Some place for `c` in a descending order: anywhere among its equals. */
  method Insert(r: seq<CallSize>, c: CallSize) returns (s: seq<CallSize>)
    requires Descending(r)
    ensures Descending(s) && |s| == |r| + 1 && multiset(s) == multiset(r) + multiset{c}
  {
    var at := 0;
    while at < |r| && r[at].calls >= c.calls
      invariant 0 <= at <= |r|
      invariant forall i | 0 <= i < at :: r[i].calls >= c.calls
    {
      if r[at].calls == c.calls {
        if * {
          break;
        }
      }
      at := at + 1;
    }
    assert r == r[..at] + r[at..];
    s := r[..at] + [c] + r[at..];
  }

  lemma NothingToOrder()
    ensures Descending([])
  {
  }

  /** Some descending order of the classes; equal ones may come in any order. */
  method Sort(cs: seq<CallSize>) returns (r: seq<CallSize>)
    ensures multiset(r) == multiset(cs) && Descending(r) && |r| == |cs|
  {
    hide Descending;
    r := [];
    assert Descending(r) by {
      NothingToOrder();
    }
    var n := 0;
    while n < |cs|
      invariant 0 <= n <= |cs| && |r| == n
      invariant multiset(r) == multiset(cs[..n]) && Descending(r)
    {
      assert cs[..n + 1] == cs[..n] + [cs[n]];
      r := Insert(r, cs[n]);
      n := n + 1;
    }
    assert cs[..n] == cs;
  }

  // ---------- calibration ----------

  function Classes(calls: seq<nat>): (cs: seq<CallSize>)
    ensures |cs| == |calls|
    ensures forall i | 0 <= i < |cs| :: cs[i] == CallSize(calls[i], ClassSize(i))
  {
    seq(|calls|, i requires 0 <= i < |calls| => CallSize(calls[i], ClassSize(i)))
  }

  /** `max` is the largest of the `k` hottest classes, where `k` is the first number that exceeds the threshold. */
  ghost predicate Picks(hot: seq<CallSize>, threshold: nat, k: nat, default: nat, max: nat) {
    && 0 < k <= |hot| && Descending(hot)
    && default == hot[0].size
    && (forall i | 0 <= i < k :: hot[i].size <= max)
    && (exists i | 0 <= i < k :: hot[i].size == max)
    && Total(hot[..k - 1]) <= threshold
    && (k == |hot| || Total(hot[..k]) > threshold)
  }

  ghost predicate Calibrated(cs: seq<CallSize>, threshold: nat, default: nat, max: nat) {
    exists hot: seq<CallSize>, k: nat :: multiset(hot) == multiset(cs) && Picks(hot, threshold, k, default, max)
  }

  lemma SameMembers(a: seq<CallSize>, b: seq<CallSize>)
    requires multiset(a) == multiset(b)
    ensures forall i | 0 <= i < |a| :: a[i] in b
    ensures forall d | d in b :: d in a
  {
    forall i | 0 <= i < |a| ensures a[i] in b {
      assert a[i] in multiset(b);
    }
    forall d | d in b ensures d in a {
      assert d in multiset(a);
    }
  }

  /** The default is a hottest class; the classes up to the maximum hold more than the threshold of the calls or all of
      them; and the maximum is no larger than that takes: it is a class whose hotter ones do not exceed the
      threshold. */
  lemma CalibrationHolds(cs: seq<CallSize>, threshold: nat, default: nat, max: nat)
    requires Calibrated(cs, threshold, default, max)
    ensures HeldBy(cs, max) > threshold || HeldBy(cs, max) == Total(cs)
    ensures default <= max
    ensures exists c: CallSize :: c in cs && c.size == max && Hotter(cs, c.calls) <= threshold
    ensures exists c: CallSize :: c in cs && c.size == default && forall d: CallSize | d in cs :: d.calls <= c.calls
  {
    var hot: seq<CallSize>, k: nat :| multiset(hot) == multiset(cs) && Picks(hot, threshold, k, default, max);
    SumsOfPermutation(hot, cs, max);
    HeldByPrefix(hot, k, max);
    var i :| 0 <= i < k && hot[i].size == max;
    SameMembers(hot, cs);
    assert hot[i] in cs && hot[0] in cs;
    HotterComeFirst(hot, i, k);
    HotterOfPermutation(hot, cs, hot[i].calls);
  }

  /** The largest size among the hottest classes, taken until they exceed the threshold. */
  method Largest(hot: seq<CallSize>, threshold: nat) returns (max: nat)
    requires hot != [] && Descending(hot)
    ensures exists k :: Picks(hot, threshold, k, hot[0].size, max)
  {
    max := hot[0].size;
    var sum, i := 0, 0;
    while i < |hot| && sum <= threshold
      invariant 0 <= i <= |hot| && sum == Total(hot[..i])
      invariant forall j | 0 <= j < i :: hot[j].size <= max
      invariant exists j | 0 <= j < |hot| && (j < i || j == 0) :: hot[j].size == max
      invariant i > 0 ==> Total(hot[..i - 1]) <= threshold
    {
      assert hot[..i + 1] == hot[..i] + [hot[i]];
      TotalAppend(hot[..i], [hot[i]]);
      sum := sum + hot[i].calls;
      if hot[i].size > max {
        max := hot[i].size;
      }
      i := i + 1;
      assert hot[..i][..i - 1] == hot[..i - 1];
    }
    assert Picks(hot, threshold, i, hot[0].size, max);
  }

  class Pool {
    const calls: array<nat>
    /** The 95 percent of a number of calls, as the floating-point product makes them: any function will do. */
    const threshold: nat -> nat
    var calibrating: bool
    var defaultSize: nat
    var maxSize: nat
    var idle: seq<RingBuffer.Buffer>

    constructor (threshold: nat -> nat)
      ensures Valid() && fresh(calls) && this.threshold == threshold
      ensures idle == [] && maxSize == 0 && defaultSize == 0 && !calibrating
    {
      calls, this.threshold := new nat[STEPS](i => 0), threshold;
      calibrating, defaultSize, maxSize, idle := false, 0, 0, [];
    }

    /** Every buffer that waits in the pool is empty. */
    ghost predicate Valid()
      reads this, calls, idle, set b | b in idle :: b.buf
    {
      calls.Length == STEPS && forall b | b in idle :: b.Valid() && b.Contents() == []
    }

    /** The counters with their sizes and their sum; they start again from zero. */
    method TakeCounts() returns (a: seq<CallSize>, sum: nat)
      requires calls.Length == STEPS
      modifies calls
      ensures a == Classes(old(calls[..])) && sum == Total(a)
      ensures forall i | 0 <= i < STEPS :: calls[i] == 0
    {
      ghost var cs := Classes(calls[..]);
      a, sum := [], 0;
      var i := 0;
      while i < STEPS
        invariant 0 <= i <= STEPS && a == cs[..i] && sum == Total(a)
        invariant forall j | 0 <= j < STEPS :: calls[j] == if j < i then 0 else old(calls[j])
      {
        var c := calls[i];
        calls[i] := 0;
        sum := sum + c;
        TotalAppend(a, [CallSize(c, ClassSize(i))]);
        assert cs[..i + 1] == cs[..i] + [cs[i]];
        a := a + [CallSize(c, ClassSize(i))];
        i := i + 1;
      }
    }

    method Calibrate()
      requires calls.Length == STEPS
      modifies this`calibrating, this`defaultSize, this`maxSize, calls
      ensures old(calibrating) ==> unchanged(this) && unchanged(calls)
      ensures !old(calibrating) ==>
        && !calibrating && (forall i | 0 <= i < STEPS :: calls[i] == 0)
        && Calibrated(Classes(old(calls[..])), threshold(Total(Classes(old(calls[..])))), defaultSize, maxSize)
    {
      if calibrating {
        return;
      }
      calibrating := true;
      var a, callsSum := TakeCounts();
      var hot := Sort(a);
      SumsOfPermutation(hot, a, 0);
      defaultSize := hot[0].size;
      maxSize := Largest(hot, threshold(callsSum));
      calibrating := false;
    }

    /** What a Put of a buffer of the given size does to the counters and the two sizes. */
    twostate predicate Counted(size: nat)
      requires calls.Length == STEPS
      reads this`calibrating, this`defaultSize, this`maxSize, calls
    {
      var idx := Index(size);
      var counted := old(calls[..])[idx := old(calls[idx]) + 1];
      if counted[idx] > CALIBRATE_THRESHOLD && !old(calibrating)
      then Calibrated(Classes(counted), threshold(Total(Classes(counted))), defaultSize, maxSize)
        && (forall i | 0 <= i < STEPS :: calls[i] == 0)
      else calls[..] == counted && defaultSize == old(defaultSize) && maxSize == old(maxSize)
    }

    method Count(size: nat)
      requires calls.Length == STEPS
      modifies this`calibrating, this`defaultSize, this`maxSize, calls
      ensures Counted(size)
    {
      hide Calibrated, Index;
      var idx := Index(size);
      calls[idx] := calls[idx] + 1;
      if calls[idx] > CALIBRATE_THRESHOLD {
        Calibrate();
      }
    }

    method Keep(b: RingBuffer.Buffer)
      requires Valid() && b.Valid() && b !in idle
      modifies this`idle, b
      ensures Valid() && b.Valid() && idle == old(idle) + [b] && b.size == old(b.size) && b.buf == old(b.buf)
    {
      b.Reset();
      idle := idle + [b];
    }

    /** Counts the buffer's class, and keeps the buffer, emptied, unless it is larger than calibration allows. */
    method Put(b: RingBuffer.Buffer)
      requires Valid() && b.Valid() && b !in idle
      modifies this, calls, b
      ensures Valid() && b.Valid() && Counted(b.size)
      ensures idle == if maxSize == 0 || b.size <= maxSize then old(idle) + [b] else old(idle)
      ensures b.size == old(b.size) && (b !in idle ==> b.Contents() == old(b.Contents()))
      ensures old(calls[Index(b.size)]) < 42000 ==> defaultSize == old(defaultSize) && maxSize == old(maxSize)
      ensures old(calls[Index(b.size)]) >= 42000 && !old(calibrating) ==> forall i | 0 <= i < STEPS :: calls[i] == 0
    {
      hide Calibrated, Classes, Index;
      Count(b.size);
      if maxSize == 0 || b.size <= maxSize {
        Keep(b);
      }
    }

    /** A buffer that waited, or a new one of the default size; either way an empty one. */
    method Get() returns (b: RingBuffer.Buffer)
      requires Valid()
      modifies this`idle
      ensures Valid() && b.Valid() && b.Contents() == []
      ensures (b in old(idle) && multiset(idle) == multiset(old(idle)) - multiset{b})
           || (fresh(b) && fresh(b.buf) && b.size == CeilToPowerOfTwo(defaultSize) && idle == old(idle))
      ensures old(idle) != [] ==> b in old(idle)
    {
      if idle != [] {
        b := idle[0];
        assert idle == [b] + idle[1..];
        idle := idle[1..];
      } else {
        b := new RingBuffer.Buffer(defaultSize);
      }
    }
  }
}
