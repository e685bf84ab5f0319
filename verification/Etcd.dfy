/** The coordination store as its clients see it: a revisioned key map, a history of events, and leases. */
module Etcd {
  import opened Bytes

  type Key = string
  type LeaseId = nat

  /** What a session writes about itself. */
  datatype Session = Session(name: string, id: nat, address: string, stopping: bool, lease: Option<LeaseId>)

  datatype Value = Counter(n: nat) | Registered(session: Session)

  datatype Entry = Entry(value: Value, lease: Option<LeaseId>)

  datatype Event = Put(key: Key, value: Value, rev: nat) | Delete(key: Key, prev: Value, rev: nat)

  /** `granted` leases have been handed out, `leases` are those still alive; history before `compacted` is gone. */
  datatype Store = Store(
    rev: nat, kvs: map<Key, Entry>, log: seq<Event>, leases: set<LeaseId>, granted: nat, compacted: nat)

  function Empty(): Store {
    Store(1, map[], [], {}, 0, 0)
  }

  // ---------- keys ----------

  const ID_KEY: Key := "id"

  function Decimal(n: nat): (s: string)
    ensures s != [] && forall c | c in s :: '0' <= c <= '9'
  {
    var digit := ['0' + (n % 10) as char];
    if n < 10 then digit else Decimal(n / 10) + digit
  }

  function NodeKey(name: string, id: nat): Key {
    name + "-" + Decimal(id)
  }

  lemma {:induction false} DecimalInjective(a: nat, b: nat)
    requires Decimal(a) == Decimal(b)
    ensures a == b
  {
    assert Decimal(a)[|Decimal(a)| - 1] == '0' + (a % 10) as char;
    assert Decimal(b)[|Decimal(b)| - 1] == '0' + (b % 10) as char;
    if a >= 10 && b >= 10 {
      assert Decimal(a / 10) == Decimal(a)[..|Decimal(a)| - 1];
      assert Decimal(b / 10) == Decimal(b)[..|Decimal(b)| - 1];
      DecimalInjective(a / 10, b / 10);
    }
  }

  /** The number that digits stand for. */
  function NumberOf(digits: string): nat
    requires forall c | c in digits :: '0' <= c <= '9'
  {
    if digits == [] then 0
    else
      var front, last := digits[..|digits| - 1], digits[|digits| - 1];
      assert last in digits && forall c | c in front :: c in digits;
      10 * NumberOf(front) + (last as int - '0' as int)
  }

  lemma {:induction false} DecimalIsRead(n: nat)
    ensures NumberOf(Decimal(n)) == n && (Decimal(n)[0] == '0' ==> n == 0)
  {
    if n >= 10 {
      DecimalIsRead(n / 10);
      assert Decimal(n)[..|Decimal(n)| - 1] == Decimal(n / 10);
    }
  }

  /** A service name other than "id" keeps its three kinds of keys apart. */
  lemma KeysDistinct(name: string, id: nat)
    requires name != "id"
    ensures NodeKey(name, id) != name && NodeKey(name, id) != "id"
  {
    assert |NodeKey(name, id)| > |name|;
    assert NodeKey(name, id)[|name|] == '-';
  }

  lemma NodeKeyInjective(name: string, a: nat, b: nat)
    requires NodeKey(name, a) == NodeKey(name, b)
    ensures a == b
  {
    assert NodeKey(name, a)[|name| + 1..] == Decimal(a);
    assert NodeKey(name, b)[|name| + 1..] == Decimal(b);
    DecimalInjective(a, b);
  }

  // ---------- requests ----------

  datatype Request =
    | Nothing
    | Read(k: Key)
    | Create(k: Key, v: Value, lease: Option<LeaseId>)
    | Swap(k: Key, old_: Value, new_: Value)
    | Write(k: Key, v: Value, to: LeaseId)
    | Remove(k: Key)
    | Grant

  /** `ok` is false when the server reports an error; `rev` is the revision in the response header. */
  datatype Response = Response(ok: bool, succeeded: bool, found: Option<Value>, lease: LeaseId, rev: nat)

  predicate LeaseFits(s: Store, lease: Option<LeaseId>) {
    lease.None? || lease.value in s.leases
  }

  function WithPut(s: Store, k: Key, v: Value, lease: Option<LeaseId>): Store {
    s.(rev := s.rev + 1, kvs := s.kvs[k := Entry(v, lease)], log := s.log + [Put(k, v, s.rev + 1)])
  }

  function WithDelete(s: Store, k: Key): Store
    requires k in s.kvs
  {
    s.(rev := s.rev + 1, kvs := s.kvs - {k}, log := s.log + [Delete(k, s.kvs[k].value, s.rev + 1)])
  }

  function Found(s: Store, k: Key): Option<Value> {
    if k in s.kvs then Some(s.kvs[k].value) else None
  }

  /** A transaction whose comparison fails changes nothing; one whose put names a dead lease is an error. */
  function Exec(s: Store, q: Request): (Store, Response) {
    var no := Response(true, false, None, 0, s.rev);
    match q
    case Nothing => (s, no)
    case Read(k) => (s, no.(found := Found(s, k)))
    case Create(k, v, lease) =>
      if k in s.kvs then (s, no)
      else if LeaseFits(s, lease) then (WithPut(s, k, v, lease), no.(succeeded := true, rev := s.rev + 1))
      else (s, no.(ok := false))
    case Swap(k, old_, new_) =>
      if Found(s, k) == Some(old_) then (WithPut(s, k, new_, None), no.(succeeded := true, rev := s.rev + 1))
      else (s, no)
    case Write(k, v, lease) =>
      if lease in s.leases then (WithPut(s, k, v, Some(lease)), no.(succeeded := true, rev := s.rev + 1))
      else (s, no.(ok := false))
    case Remove(k) =>
      if k in s.kvs then (WithDelete(s, k), no.(succeeded := true, rev := s.rev + 1)) else (s, no)
    case Grant => (s.(leases := s.leases + {s.granted}, granted := s.granted + 1), no.(lease := s.granted))
  }

  /** A request that would put something under a lease that is not alive. */
  predicate NamesDeadLease(s: Store, q: Request) {
    match q
    case Create(k, _, lease) => k !in s.kvs && lease.Some? && lease.value !in s.leases
    case Write(_, _, lease) => lease !in s.leases
    case _ => false
  }

  /** What an answer tells: an error means a dead lease, and that nothing was done; otherwise the revision is the one
      the request left, and success means that there is one more event, at that revision. */
  lemma AnswersAreTrue(s: Store, q: Request)
    ensures var (s', r) := Exec(s, q);
      && (!r.ok <==> NamesDeadLease(s, q))
      && (!r.ok ==> s' == s && !r.succeeded)
      && (r.ok ==> r.rev == s'.rev)
      && (r.succeeded <==> s'.log != s.log)
      && (r.succeeded ==> |s'.log| == |s.log| + 1 && s'.rev == s.rev + 1 && s'.log[|s.log|].rev == s'.rev)
      && (r.found.Some? ==> q.Read? && q.k in s.kvs && r.found.value == s.kvs[q.k].value && s' == s)
      && (q.Read? && q.k in s.kvs ==> r.found.Some?)
  {
  }

  // ---------- lease death ----------

  function Deletions(s: Store, keys: seq<Key>): (es: seq<Event>)
    requires forall k | k in keys :: k in s.kvs
    ensures |es| == |keys|
    ensures forall i | 0 <= i < |es| :: es[i] == Delete(keys[i], s.kvs[keys[i]].value, s.rev + 1)
  {
    seq(|keys|, i requires 0 <= i < |keys| => Delete(keys[i], s.kvs[keys[i]].value, s.rev + 1))
  }

  predicate Attached(s: Store, k: Key, lease: LeaseId) {
    k in s.kvs && s.kvs[k].lease == Some(lease)
  }

  /** `order` lists exactly the keys attached to the lease. */
  ghost predicate Lists(s: Store, lease: LeaseId, order: seq<Key>) {
    && (forall k :: k in order <==> Attached(s, k, lease))
    && (forall i, j | 0 <= i < j < |order| :: order[i] != order[j])
  }

  /** The end of a lease deletes all its keys at one revision. */
  function LeaseEnds(s: Store, lease: LeaseId, order: seq<Key>): Store
    requires forall k | k in order :: k in s.kvs
  {
    var alive := s.(leases := s.leases - {lease});
    if order == [] then alive
    else alive.(rev := s.rev + 1, kvs := s.kvs - (set k | k in order), log := s.log + Deletions(s, order))
  }

  // ---------- the history ----------

  type Content = map<Key, Value>

  function After(m: Content, e: Event): Content {
    match e
    case Put(k, v, _) => m[k := v]
    case Delete(k, _, _) => m - {k}
  }

  /** The content a history leaves behind. */
  function Replay(log: seq<Event>): Content {
    if log == [] then map[] else After(Replay(log[..|log| - 1]), log[|log| - 1])
  }

  /** The part of a history up to revision `r`. */
  function UpTo(log: seq<Event>, r: nat): (p: seq<Event>)
    ensures p <= log
  {
    if log == [] then []
    else if log[|log| - 1].rev <= r then log
    else UpTo(log[..|log| - 1], r)
  }

  function ContentOf(s: Store): Content {
    map k | k in s.kvs :: s.kvs[k].value
  }

  ghost predicate Ordered(log: seq<Event>, rev: nat) {
    && (forall i, j | 0 <= i < j < |log| :: log[i].rev <= log[j].rev)
    && (forall i | 0 <= i < |log| :: log[i].rev <= rev)
  }

  ghost predicate Valid(s: Store) {
    && Ordered(s.log, s.rev)
    && ContentOf(s) == Replay(s.log)
    && (forall l | l in s.leases :: l < s.granted)
    && (forall k | k in s.kvs && s.kvs[k].lease.Some? :: s.kvs[k].lease.value in s.leases)
    && s.compacted <= s.rev
  }

  lemma OneMoreIsOrdered(log: seq<Event>, rev: nat, e: Event)
    requires Ordered(log, rev) && e.rev == rev + 1
    ensures Ordered(log + [e], rev + 1)
  {
  }

  lemma ReplayOneMore(log: seq<Event>, e: Event)
    ensures Replay(log + [e]) == After(Replay(log), e)
  {
    assert (log + [e])[..|log|] == log;
  }

  lemma PutKeepsLeases(s: Store, k: Key, v: Value, lease: Option<LeaseId>)
    requires LeaseFits(s, lease)
    requires forall k' | k' in s.kvs && s.kvs[k'].lease.Some? :: s.kvs[k'].lease.value in s.leases
    ensures var kvs := WithPut(s, k, v, lease).kvs;
      forall k' | k' in kvs && kvs[k'].lease.Some? :: kvs[k'].lease.value in s.leases
  {
  }

  lemma PutKeepsValid(s: Store, k: Key, v: Value, lease: Option<LeaseId>)
    requires Valid(s) && LeaseFits(s, lease)
    ensures Valid(WithPut(s, k, v, lease))
  {
    hide Ordered, Replay, LeaseFits;
    OneMoreIsOrdered(s.log, s.rev, Put(k, v, s.rev + 1));
    ReplayOneMore(s.log, Put(k, v, s.rev + 1));
    PutKeepsLeases(s, k, v, lease);
    assert ContentOf(WithPut(s, k, v, lease)) == ContentOf(s)[k := v];
  }

  lemma DeleteKeepsValid(s: Store, k: Key)
    requires Valid(s) && k in s.kvs
    ensures Valid(WithDelete(s, k))
  {
    hide Ordered, Replay;
    var e := Delete(k, s.kvs[k].value, s.rev + 1);
    OneMoreIsOrdered(s.log, s.rev, e);
    ReplayOneMore(s.log, e);
    assert ContentOf(WithDelete(s, k)) == ContentOf(s) - {k};
  }

  lemma ExecKeepsValid(s: Store, q: Request)
    requires Valid(s)
    ensures Valid(Exec(s, q).0) && s.rev <= Exec(s, q).0.rev && s.log <= Exec(s, q).0.log
  {
    match q {
      case Create(k, v, lease) =>
        if k !in s.kvs && LeaseFits(s, lease) {
          PutKeepsValid(s, k, v, lease);
        }
      case Swap(k, _, new_) => PutKeepsValid(s, k, new_, None);
      case Write(k, v, lease) =>
        if lease in s.leases {
          PutKeepsValid(s, k, v, Some(lease));
        }
      case Remove(k) =>
        if k in s.kvs {
          DeleteKeepsValid(s, k);
        }
      case _ =>
    }
  }

  /** A batch of events only matters through the last one on each key. */
  function Fold(m: Content, es: seq<Event>): Content
    decreases |es|
  {
    if es == [] then m else Fold(After(m, es[0]), es[1..])
  }

  lemma {:induction false} ReplayAppend(log: seq<Event>, es: seq<Event>)
    ensures Replay(log + es) == Fold(Replay(log), es)
    decreases |es|
  {
    if es == [] {
      assert log + es == log;
    } else {
      ReplayAppend(log + [es[0]], es[1..]);
      assert (log + [es[0]]) + es[1..] == log + es;
      assert (log + [es[0]])[..|log|] == log;
    }
  }

  lemma {:induction false} FoldDeletions(m: Content, s: Store, keys: seq<Key>)
    requires forall k | k in keys :: k in s.kvs
    ensures Fold(m, Deletions(s, keys)) == m - (set k | k in keys)
    decreases |keys|
  {
    if keys == [] {
      assert m - (set k | k in keys) == m;
    } else {
      var es := Deletions(s, keys);
      assert es[1..] == Deletions(s, keys[1..]);
      FoldDeletions(After(m, es[0]), s, keys[1..]);
      assert (set k | k in keys) == {keys[0]} + (set k | k in keys[1..]);
      assert (m - {keys[0]}) - (set k | k in keys[1..]) == m - (set k | k in keys);
    }
  }

  lemma LeaseEndKeepsHistory(s: Store, lease: LeaseId, order: seq<Key>)
    requires Valid(s) && order != [] && forall k | k in order :: k in s.kvs
    ensures var s' := LeaseEnds(s, lease, order);
            Ordered(s'.log, s'.rev) && ContentOf(s') == Replay(s'.log)
  {
    var s' := LeaseEnds(s, lease, order);
    ReplayAppend(s.log, Deletions(s, order));
    FoldDeletions(Replay(s.log), s, order);
    assert ContentOf(s') == ContentOf(s) - (set k | k in order);
  }

  lemma LeaseEndKeepsValid(s: Store, lease: LeaseId, order: seq<Key>)
    requires Valid(s) && Lists(s, lease, order)
    ensures Valid(LeaseEnds(s, lease, order))
    ensures s.rev <= LeaseEnds(s, lease, order).rev && s.log <= LeaseEnds(s, lease, order).log
  {
    var s' := LeaseEnds(s, lease, order);
    if order != [] {
      LeaseEndKeepsHistory(s, lease, order);
    }
    forall k | k in s'.kvs && s'.kvs[k].lease.Some? ensures s'.kvs[k].lease.value in s'.leases {
      assert k in s.kvs && !Attached(s, k, lease);
    }
  }

  // ---------- looking back ----------

  /** Nothing that is appended later changes what a past revision held. */
  lemma {:induction false} PastIsFixed(log: seq<Event>, es: seq<Event>, rev: nat, r: nat)
    requires Ordered(log + es, rev) && forall i | 0 <= i < |es| :: es[i].rev > r
    ensures UpTo(log + es, r) == UpTo(log, r)
    decreases |es|
  {
    if es == [] {
      assert log + es == log;
    } else {
      var n := |es| - 1;
      assert (log + es)[..|log| + n] == log + es[..n];
      assert (log + es)[|log| + n] == es[n];
      PastIsFixed(log, es[..n], rev, r);
    }
  }

  ghost predicate SameAt(a: Content, b: Content, k: Key) {
    if k in a then k in b && a[k] == b[k] else k !in b
  }

  lemma AllUpTo(log: seq<Event>, r: nat)
    requires forall i | 0 <= i < |log| :: log[i].rev <= r
    ensures UpTo(log, r) == log
  {
  }

  /** A key that no event after revision `r` touches is at every later revision what it was at `r`. */
  lemma {:induction false} UntouchedSince(log: seq<Event>, rev: nat, r: nat, r': nat, k: Key)
    requires Ordered(log, rev) && r <= r'
    requires forall i | 0 <= i < |log| && log[i].rev > r :: log[i].key != k
    ensures SameAt(Replay(UpTo(log, r)), Replay(UpTo(log, r')), k)
  {
    if log != [] {
      var n := |log| - 1;
      if log[n].rev > r {
        UntouchedSince(log[..n], rev, r, r', k);
        if log[n].rev <= r' {
          AllUpTo(log[..n], r');
          assert SameAt(Replay(log[..n]), After(Replay(log[..n]), log[n]), k);
        }
      }
    }
  }

  lemma LeaseEndKeepsPast(s: Store, lease: LeaseId, order: seq<Key>, r: nat)
    requires Valid(s) && Lists(s, lease, order) && r <= s.rev
    ensures UpTo(LeaseEnds(s, lease, order).log, r) == UpTo(s.log, r)
  {
    LeaseEndKeepsValid(s, lease, order);
    var log', rev' := LeaseEnds(s, lease, order).log, LeaseEnds(s, lease, order).rev;
    if order != [] {
      assert log' == s.log + Deletions(s, order);
      PastIsFixed(s.log, Deletions(s, order), rev', r);
    }
  }

  lemma LeaseEndKeepsOthers(s: Store, lease: LeaseId, order: seq<Key>, k: Key)
    requires Lists(s, lease, order) && k in s.kvs && s.kvs[k].lease != Some(lease)
    ensures var s' := LeaseEnds(s, lease, order); k in s'.kvs && s'.kvs[k] == s.kvs[k]
  {
    assert !Attached(s, k, lease);
  }

  lemma PutKeepsPast(s: Store, k: Key, v: Value, lease: Option<LeaseId>, r: nat)
    requires Valid(s) && LeaseFits(s, lease) && r <= s.rev
    ensures UpTo(WithPut(s, k, v, lease).log, r) == UpTo(s.log, r)
  {
    hide Replay, ContentOf, LeaseFits, UpTo;
    PutKeepsValid(s, k, v, lease);
    PastIsFixed(s.log, [Put(k, v, s.rev + 1)], s.rev + 1, r);
  }

  lemma ExecKeepsPast(s: Store, q: Request, r: nat)
    requires Valid(s) && r <= s.rev
    ensures UpTo(Exec(s, q).0.log, r) == UpTo(s.log, r)
  {
    ExecKeepsValid(s, q);
    var log' := Exec(s, q).0.log;
    assert log' == s.log + log'[|s.log|..];
    PastIsFixed(s.log, log'[|s.log|..], Exec(s, q).0.rev, r);
  }
}
