/** Capacity arithmetic of the ring buffer: rounding up to a power of two and the three growth regimes. */
module RingGrowth {
  import opened Bytes

  const MIN_READ := 512
  const DEFAULT_BUFFER_SIZE := 1024
  const BUFFER_GROW_THRESHOLD := 4096

  /** Bitwise `a & b`. */
  function BitAnd(a: nat, b: nat): nat {
    if a == 0 || b == 0 then 0
    else 2 * BitAnd(a / 2, b / 2) + (if a % 2 == 1 && b % 2 == 1 then 1 else 0)
  }

  /** The number of bits needed to write `n`; 0 for 0. */
  function BitLen(n: nat): nat {
    if n == 0 then 0 else 1 + BitLen(n / 2)
  }

  ghost predicate IsPowerOfTwo(n: nat) {
    exists k: nat :: Pow2(k) == n
  }

  function CeilToPowerOfTwo(n: int): nat {
    if n <= 0 then 0
    else if BitAnd(n, n - 1) == 0 then n
    else Pow2(BitLen(n))
  }

  lemma {:induction false} BitAndSelf(n: nat)
    ensures BitAnd(n, n) == n
  {
    if n > 0 {
      BitAndSelf(n / 2);
    }
  }

  /** The bit trick `n & (n-1) == 0` recognises exactly the powers of two. */
  lemma {:induction false} BitTrickIsPowerOfTwo(n: nat)
    requires n > 0
    ensures BitAnd(n, n - 1) == 0 <==> IsPowerOfTwo(n)
  {
    if n == 1 {
      assert Pow2(0) == 1;
    } else if n % 2 == 0 {
      BitTrickIsPowerOfTwo(n / 2);
      assert (n - 1) / 2 == n / 2 - 1;
      if IsPowerOfTwo(n / 2) {
        var k: nat :| Pow2(k) == n / 2;
        assert Pow2(k + 1) == n;
      }
      if IsPowerOfTwo(n) {
        var k: nat :| Pow2(k) == n;
        assert Pow2(k - 1) == n / 2;
      }
    } else {
      BitAndSelf(n / 2);
    }
  }

  lemma {:induction false} BitLenBrackets(n: nat)
    requires n > 0
    ensures BitLen(n) > 0 && Pow2(BitLen(n) - 1) <= n < Pow2(BitLen(n))
  {
    if n > 1 {
      BitLenBrackets(n / 2);
      assert BitLen(n) == 1 + BitLen(n / 2);
    } else {
      assert BitLen(1) == 1 + BitLen(0) && Pow2(1) == 2 * Pow2(0);
    }
  }

  lemma {:induction false} Pow2Monotone(j: nat, k: nat)
    requires j < k
    ensures 2 * Pow2(j) <= Pow2(k)
    decreases k
  {
    if j + 1 < k {
      Pow2Monotone(j, k - 1);
    }
  }

  /** The rounded capacity is the least power of two that is at least `n`, and less than twice `n`. */
  lemma CeilIsLeastPowerOfTwo(n: nat)
    requires n > 0
    ensures IsPowerOfTwo(CeilToPowerOfTwo(n)) && n <= CeilToPowerOfTwo(n) < 2 * n
    ensures forall p: nat :: IsPowerOfTwo(p) && n <= p ==> CeilToPowerOfTwo(n) <= p
  {
    BitTrickIsPowerOfTwo(n);
    if BitAnd(n, n - 1) != 0 {
      var b := BitLen(n);
      BitLenBrackets(n);
      assert Pow2(b) == 2 * Pow2(b - 1);
      assert Pow2(b - 1) != n;
      forall p: nat | IsPowerOfTwo(p) && n <= p ensures Pow2(b) <= p {
        var k: nat :| Pow2(k) == p;
        if k < b - 1 {
          Pow2Monotone(k, b - 1);
        } else if b < k {
          Pow2Monotone(b, k);
        }
      }
    }
  }

  /** Repeated growth by a quarter until the request fits. */
  function GrowByQuarters(n: nat, request: int): (m: nat)
    requires n >= 4
    ensures n <= m && request <= m
    ensures n < request ==> 4 * m < 5 * request
    decreases request - n
  {
    if n < request then GrowByQuarters(n + n / 4, request) else n
  }

  /** The capacity `grow(request)` gives a buffer of capacity `n`. */
  function GrownCapacity(n: nat, request: int): nat {
    if n == 0 then
      if request <= DEFAULT_BUFFER_SIZE then DEFAULT_BUFFER_SIZE else CeilToPowerOfTwo(request)
    else if request <= n + n then
      if n < BUFFER_GROW_THRESHOLD then n + n else GrowByQuarters(n, request)
    else request
  }

  /** Growth never shrinks a buffer and always covers the request, whatever the caller asks for. */
  lemma GrownCapacityCovers(n: nat, request: int)
    ensures GrownCapacity(n, request) >= n && GrownCapacity(n, request) >= request
    ensures GrownCapacity(n, request) > 0
  {
    if n == 0 && request > DEFAULT_BUFFER_SIZE {
      CeilIsLeastPowerOfTwo(request);
    }
  }

  /** A request above the current capacity - which is all that Write and ReadFrom issue - is overshot by a factor
      below two at most; in the quarter-growth regime by a quarter of the request at most; from size 0 there is
      a floor. */
  lemma GrownCapacityIsTight(n: nat, request: int)
    requires request > n
    ensures n == 0 ==> GrownCapacity(n, request) == DEFAULT_BUFFER_SIZE || GrownCapacity(n, request) < 2 * request
    ensures 0 < n ==> GrownCapacity(n, request) < 2 * request
    ensures BUFFER_GROW_THRESHOLD <= n ==> 4 * GrownCapacity(n, request) <= 5 * request
  {
    if n == 0 && request > DEFAULT_BUFFER_SIZE {
      CeilIsLeastPowerOfTwo(request);
    }
  }

  /** The capacity after `k` growths by a quarter. */
  function Quarters(n: nat, k: nat): nat
    decreases k
  {
    if k == 0 then n else Quarters(n + n / 4, k - 1)
  }

  /** Growth by quarters stops at the first capacity that covers the request. */
  lemma {:induction false} QuartersStopInTime(n: nat, request: int) returns (k: nat)
    requires n >= 4
    ensures GrowByQuarters(n, request) == Quarters(n, k) >= request
    ensures forall j: nat | j < k :: Quarters(n, j) < request
    decreases request - n
  {
    if n < request {
      k := QuartersStopInTime(n + n / 4, request);
      k := k + 1;
      forall j: nat | j < k ensures Quarters(n, j) < request {
        assert j > 0 ==> Quarters(n, j) == Quarters(n + n / 4, j - 1);
      }
    } else {
      k := 0;
    }
  }

  /** The regimes in numbers: 1024 or the least power of two from nothing, the double below 4096, and from there on the
      first of n, five quarters of n, ... that covers the request; a request above the double is met exactly. */
  lemma GrowthInNumbers(n: nat, request: int)
    ensures CeilToPowerOfTwo(request) == 0 <==> request <= 0
    ensures n == 0 && request <= 1024 ==> GrownCapacity(n, request) == 1024
    ensures n == 0 && request > 1024 ==> GrownCapacity(n, request) == CeilToPowerOfTwo(request)
    ensures 0 < n < 4096 && request <= 2 * n ==> GrownCapacity(n, request) == 2 * n
    ensures 4096 <= n && request <= 2 * n ==>
      exists k: nat :: GrownCapacity(n, request) == Quarters(n, k) && forall j: nat | j < k :: Quarters(n, j) < request
    ensures 0 < n && 2 * n < request ==> GrownCapacity(n, request) == request
  {
    if 4096 <= n {
      var k := QuartersStopInTime(n, request);
    }
  }

  /** A buffer that grows gains at least a fifth of what it had, so that moving its contents pays off over time. */
  lemma GrowthIsGeometric(n: nat, request: int)
    requires GrownCapacity(n, request) > n
    ensures n <= 5 * (GrownCapacity(n, request) - n)
  {
    if n >= 4 && request > n {
      var k := QuartersStopInTime(n, request);
      assert n + n / 4 <= GrowByQuarters(n, request);
    }
  }

  /** A single extra byte is provided exactly when the buffer is smaller than the threshold: from there on a
      request of one byte, which is what WriteByte issues, is no growth at all. */
  lemma OneByteRequestGrows(n: nat)
    ensures GrownCapacity(n, 1) > n <==> n < BUFFER_GROW_THRESHOLD
  {
  }

  /** Nothing strictly between a power of two and its double is one. */
  lemma NoneBetween(p: nat, x: nat)
    requires IsPowerOfTwo(p) && p < x < 2 * p
    ensures !IsPowerOfTwo(x)
  {
    if IsPowerOfTwo(x) {
      var j: nat, k: nat :| Pow2(j) == p && Pow2(k) == x;
      if j < k {
        Pow2Monotone(j, k);
      } else if k < j {
        Pow2Monotone(k, j);
      }
    }
  }

  lemma DoubleIsPowerOfTwo(p: nat)
    requires IsPowerOfTwo(p)
    ensures IsPowerOfTwo(2 * p)
  {
    var k: nat :| Pow2(k) == p;
    assert Pow2(k + 1) == 2 * p;
  }

  /** Powers of two from 256 on are multiples of it. */
  lemma {:induction false} LargePowersDivide(k: nat) returns (q: nat)
    requires k >= 8
    ensures Pow2(k) == 256 * q
  {
    if k == 8 {
      assert Pow2(8) == 256;
      q := 1;
    } else {
      q := LargePowersDivide(k - 1);
      q := 2 * q;
    }
  }

  /** One growth by quarters, from a power of two to a request of at most its double, never ends on a power of two:
      it ends on five quarters of it, or on that to the second, third or fourth power. */
  lemma QuartersLeavePowersOfTwo(n: nat, request: int)
    requires IsPowerOfTwo(n) && n >= BUFFER_GROW_THRESHOLD && n < request <= 2 * n
    ensures !IsPowerOfTwo(GrowByQuarters(n, request))
  {
    var k: nat :| Pow2(k) == n;
    if k < 8 {
      assert Pow2(8) == 256;
      Pow2Monotone(k, 8);
    }
    var q := LargePowersDivide(k);
    assert GrowByQuarters(n, request) == GrowByQuarters(320 * q, request);
    assert GrowByQuarters(400 * q, request) == if 400 * q < request then GrowByQuarters(500 * q, request) else 400 * q;
    assert GrowByQuarters(500 * q, request) == if 500 * q < request then GrowByQuarters(625 * q, request) else 500 * q;
    assert GrowByQuarters(625 * q, request) == 625 * q;
    NoneBetween(n, 320 * q);
    NoneBetween(n, 400 * q);
    NoneBetween(n, 500 * q);
    DoubleIsPowerOfTwo(n);
    NoneBetween(2 * n, 625 * q);
  }

  /** When a capacity that is 0 or a power of two grows to a power of two: from 0 always; by a request up to its double
      exactly below the threshold, or when nothing is needed; and by a larger request exactly if that is one itself. */
  lemma StaysPowerOfTwoIff(n: nat, request: int)
    requires n == 0 || IsPowerOfTwo(n)
    ensures IsPowerOfTwo(GrownCapacity(n, request))
       <==> n == 0 || (if request <= 2 * n then n < BUFFER_GROW_THRESHOLD || request <= n else IsPowerOfTwo(request))
  {
    if n == 0 {
      assert Pow2(10) == DEFAULT_BUFFER_SIZE;
      if request > DEFAULT_BUFFER_SIZE {
        CeilIsLeastPowerOfTwo(request);
      }
    } else if request <= 2 * n {
      DoubleIsPowerOfTwo(n);
      if n >= BUFFER_GROW_THRESHOLD && request > n {
        QuartersLeavePowersOfTwo(n, request);
      }
    }
  }

  /** Capacities do leave the powers of two, below the threshold as well as above it: writing 3000 bytes to an empty
      buffer of 1024 makes 3000, and the first growth of 4096 makes 5120. */
  lemma CapacityLeavesPowersOfTwo()
    ensures IsPowerOfTwo(1024) && !IsPowerOfTwo(GrownCapacity(1024, 3000))
    ensures IsPowerOfTwo(4096) && !IsPowerOfTwo(GrownCapacity(4096, 4097))
  {
    assert Pow2(10) == 1024 && Pow2(11) == 2048 && Pow2(12) == 4096;
    StaysPowerOfTwoIff(1024, 3000);
    NoneBetween(2048, 3000);
    StaysPowerOfTwoIff(4096, 4097);
  }
}
