/** Discovery: a snapshot of the sessions under a prefix, then a watch from the snapshot's own revision whose events are
    folded over it, restarted from a new snapshot when the history it needs was compacted. */
module Discovery {
  import opened Bytes
  import opened Etcd

  datatype Kind = Add | Update | Del

  /** What the watcher sends on: the session, but not the key it was stored under. */
  datatype SessionEvent = SessionEvent(kind: Kind, session: Session)

  type View = map<Key, Session>

  // ---------- the watcher ----------

  /** The event type of one store event; a value that is no session is skipped. */
  function Classify(e: Event): seq<SessionEvent> {
    match e
    case Put(_, Registered(s), _) => [SessionEvent(if s.stopping then Update else Add, s)]
    case Delete(_, Registered(s), _) => [SessionEvent(Del, s)]
    case _ => []
  }

  function ClassifyAll(es: seq<Event>): seq<SessionEvent> {
    if es == [] then [] else Classify(es[0]) + ClassifyAll(es[1..])
  }

  lemma {:induction false} ClassifyAppend(es: seq<Event>, e: Event)
    ensures ClassifyAll(es + [e]) == ClassifyAll(es) + Classify(e)
  {
    if es == [] {
      assert es + [e] == [e] && [e][1..] == [];
    } else {
      ClassifyAppend(es[1..], e);
      assert (es + [e])[0] == es[0] && (es + [e])[1..] == es[1..] + [e];
      assert Classify(es[0]) + (ClassifyAll(es[1..]) + Classify(e)) == ClassifyAll(es) + Classify(e);
    }
  }

  lemma NothingToClassify()
    ensures ClassifyAll([]) == []
  {
  }

  class SessionWatcher {
    /** What was sent to the event channel and not received yet. */
    var eventCh: seq<SessionEvent>

    /** The event loop of handleWatchResponse. */
    method HandleWatchResponse(events: seq<Event>)
      modifies this
      ensures eventCh == old(eventCh) + ClassifyAll(events)
    {
      hide ClassifyAll;
      var i := 0;
      assert ClassifyAll([]) == [] by {
        NothingToClassify();
      }
      while i < |events|
        invariant 0 <= i <= |events|
        invariant eventCh == old(eventCh) + ClassifyAll(events[..i])
      {
        ghost var before := eventCh;
        match events[i] {
          case Put(_, Registered(session), _) =>
            var kind := if session.stopping then Update else Add;
            eventCh := eventCh + [SessionEvent(kind, session)];
          case Delete(_, Registered(session), _) =>
            eventCh := eventCh + [SessionEvent(Del, session)];
          case _ =>
        }
        assert eventCh == before + Classify(events[i]);
        ClassifyAppend(events[..i], events[i]);
        assert events[..i] + [events[i]] == events[..i + 1];
        i := i + 1;
      }
      assert events[..i] == events;
    }
  }

  // ---------- the snapshot ----------

  /** The sessions stored under a prefix. */
  function Visible(m: Content, prefix: Key): View {
    map k | k in m && prefix <= k && m[k].Registered? :: m[k].session
  }

  /** The loop of GetSessions over the entries of a range read; a value that is no session is an error. */
  method GetSessions(kvs: seq<(Key, Value)>, ghost m: Content, ghost prefix: Key) returns (res: Option<View>)
    requires forall i, j | 0 <= i < j < |kvs| :: kvs[i].0 != kvs[j].0
    requires forall k, v :: (k, v) in kvs <==> k in m && prefix <= k && m[k] == v
    ensures res.Some? <==> forall k | k in m && prefix <= k :: m[k].Registered?
    ensures res.Some? ==> res.value == Visible(m, prefix)
  {
    var view: View := map[];
    for i := 0 to |kvs|
      invariant forall j | 0 <= j < i :: kvs[j].1.Registered?
      invariant forall k :: k in view <==> exists j :: 0 <= j < i && kvs[j].0 == k
      invariant forall j | 0 <= j < i :: kvs[j].0 in view && Registered(view[kvs[j].0]) == kvs[j].1
    {
      assert (kvs[i].0, kvs[i].1) in kvs;
      if !kvs[i].1.Registered? {
        return None;
      }
      view := view[kvs[i].0 := kvs[i].1.session];
    }
    forall k | k in m && prefix <= k ensures m[k].Registered? && k in view && view[k] == m[k].session {
      assert (k, m[k]) in kvs;
      var j :| 0 <= j < |kvs| && kvs[j] == (k, m[k]);
      assert kvs[j].0 in view;
    }
    forall k | k in view ensures k in m && prefix <= k {
      var j :| 0 <= j < |kvs| && kvs[j].0 == k;
      assert (k, kvs[j].1) in kvs;
    }
    return Some(view);
  }

  // ---------- the consumer ----------

  /** The key a consumer can rebuild from a session. */
  function KeyOf(s: Session): Key {
    NodeKey(s.name, s.id)
  }

  function Consume(view: View, e: SessionEvent): View {
    if e.kind == Del then view - {KeyOf(e.session)} else view[KeyOf(e.session) := e.session]
  }

  function FoldView(view: View, es: seq<SessionEvent>): View
    decreases |es|
  {
    if es == [] then view else FoldView(Consume(view, es[0]), es[1..])
  }

  lemma {:induction false} FoldViewAppend(view: View, a: seq<SessionEvent>, b: seq<SessionEvent>)
    ensures FoldView(view, a + b) == FoldView(FoldView(view, a), b)
    decreases |a|
  {
    if a == [] {
      assert a + b == b;
    } else {
      assert (a + b)[1..] == a[1..] + b;
      FoldViewAppend(Consume(view, a[0]), a[1..], b);
    }
  }

  /** A value stored where a consumer would look for it. */
  predicate Keyed(prefix: Key, k: Key, v: Value) {
    prefix <= k ==> v.Registered? && KeyOf(v.session) == k
  }

  predicate KeyedEvent(prefix: Key, e: Event) {
    Keyed(prefix, e.key, if e.Put? then e.value else e.prev)
  }

  /** The events a watch of the prefix delivers. */
  function Under(es: seq<Event>, prefix: Key): seq<Event> {
    if es == [] then []
    else (if prefix <= es[0].key then [es[0]] else []) + Under(es[1..], prefix)
  }

  lemma OneEventFollows(m: Content, e: Event, prefix: Key)
    requires KeyedEvent(prefix, e)
    ensures if prefix <= e.key then
              |Classify(e)| == 1 && Consume(Visible(m, prefix), Classify(e)[0]) == Visible(After(m, e), prefix)
            else Visible(After(m, e), prefix) == Visible(m, prefix)
  {
    var after := Visible(After(m, e), prefix);
    if prefix <= e.key {
      var seen := Consume(Visible(m, prefix), Classify(e)[0]);
      assert forall k :: k in seen <==> k in after;
      assert forall k | k in after :: seen[k] == after[k];
    }
  }

  lemma UnderStep(es: seq<Event>, prefix: Key)
    requires es != []
    ensures ClassifyAll(Under(es, prefix))
         == (if prefix <= es[0].key then Classify(es[0]) else []) + ClassifyAll(Under(es[1..], prefix))
  {
    if prefix <= es[0].key {
      assert Under(es, prefix)[1..] == Under(es[1..], prefix);
    } else {
      assert Under(es, prefix) == Under(es[1..], prefix);
    }
  }

  /** Folding the delivered events over a snapshot follows the store. */
  lemma {:induction false} FoldFollows(m: Content, es: seq<Event>, prefix: Key)
    requires forall e | e in es :: KeyedEvent(prefix, e)
    ensures FoldView(Visible(m, prefix), ClassifyAll(Under(es, prefix))) == Visible(Fold(m, es), prefix)
    decreases |es|
  {
    if es != [] {
      OneEventFollows(m, es[0], prefix);
      UnderStep(es, prefix);
      FoldFollows(After(m, es[0]), es[1..], prefix);
      var out := ClassifyAll(Under(es[1..], prefix));
      if prefix <= es[0].key {
        assert (Classify(es[0]) + out)[1..] == out;
      } else {
        assert [] + out == out;
      }
    }
  }

  // ---------- replaying a revision ----------

  /** What a batch of events says about a key: nothing, that it is gone, or its value. */
  function Verdict(es: seq<Event>, k: Key): Option<Option<Value>> {
    if es == [] then None
    else
      var e := es[|es| - 1];
      if e.key == k then Some(if e.Put? then Some(e.value) else None) else Verdict(es[..|es| - 1], k)
  }

  lemma {:induction false} FoldLast(m: Content, es: seq<Event>)
    requires es != []
    ensures Fold(m, es) == After(Fold(m, es[..|es| - 1]), es[|es| - 1])
    decreases |es|
  {
    var n := |es| - 1;
    if n == 0 {
      assert es[1..] == [];
    } else {
      FoldLast(After(m, es[0]), es[1..]);
      assert es[1..][..n - 1] == es[..n][1..];
    }
  }

  lemma {:induction false} FoldAt(m: Content, es: seq<Event>, k: Key)
    ensures k in Fold(m, es) <==> match Verdict(es, k) case None => k in m case Some(o) => o.Some?
    ensures k in Fold(m, es) ==>
              Fold(m, es)[k] == match Verdict(es, k) case None => m[k] case Some(o) => o.value
  {
    if es != [] {
      FoldLast(m, es);
      FoldAt(m, es[..|es| - 1], k);
    }
  }

  /** Delivering a batch a second time changes nothing. */
  lemma ReplayIsIdempotent(m: Content, es: seq<Event>)
    ensures Fold(Fold(m, es), es) == Fold(m, es)
  {
    var once, twice := Fold(m, es), Fold(Fold(m, es), es);
    forall k ensures (k in twice <==> k in once) && (k in once ==> twice[k] == once[k]) {
      FoldAt(m, es, k);
      FoldAt(once, es, k);
    }
  }

  // ---------- revisions ----------

  /** The events after revision `p` up to revision `q`. */
  function Between(log: seq<Event>, p: nat, q: nat): seq<Event>
    requires |UpTo(log, p)| <= |UpTo(log, q)|
  {
    UpTo(log, q)[|UpTo(log, p)|..]
  }

  lemma {:induction false} UpToMonotone(log: seq<Event>, p: nat, q: nat)
    requires p <= q
    ensures UpTo(log, p) <= UpTo(log, q)
  {
    if log != [] && log[|log| - 1].rev > q {
      UpToMonotone(log[..|log| - 1], p, q);
    }
  }

  lemma StepForward(log: seq<Event>, p: nat, q: nat)
    requires p <= q
    ensures |UpTo(log, p)| <= |UpTo(log, q)|
    ensures Replay(UpTo(log, q)) == Fold(Replay(UpTo(log, p)), Between(log, p, q))
  {
    UpToMonotone(log, p, q);
    ReplayAppend(UpTo(log, p), Between(log, p, q));
    assert UpTo(log, q) == UpTo(log, p) + Between(log, p, q);
  }

  lemma {:induction false} FoldAppend(m: Content, a: seq<Event>, b: seq<Event>)
    ensures Fold(m, a + b) == Fold(Fold(m, a), b)
    decreases |a|
  {
    if a == [] {
      assert a + b == b;
    } else {
      assert (a + b)[1..] == a[1..] + b;
      FoldAppend(After(m, a[0]), a[1..], b);
    }
  }

  /** Starting one revision early is harmless: the events of the snapshot's own revision come again first. */
  lemma StepForwardFromBase(log: seq<Event>, base: nat, q: nat)
    requires 0 < base <= q
    ensures |UpTo(log, base - 1)| <= |UpTo(log, q)|
    ensures Replay(UpTo(log, q)) == Fold(Replay(UpTo(log, base)), Between(log, base - 1, q))
  {
    UpToMonotone(log, base - 1, base);
    UpToMonotone(log, base, q);
    var again, later := Between(log, base - 1, base), Between(log, base, q);
    assert Between(log, base - 1, q) == again + later;
    StepForward(log, base - 1, base);
    StepForward(log, base, q);
    ReplayIsIdempotent(Replay(UpTo(log, base - 1)), again);
    FoldAppend(Replay(UpTo(log, base)), again, later);
  }

  // ---------- the whole pipeline ----------

  /** `view` is the consumer's map, `queue` the event channel, `base` the revision of the last snapshot, `pos` the
      revision up to which the watch has delivered, and `stale` what was in the channel when that snapshot was taken. */
  datatype State = State(
    store: Store, prefix: Key, view: View, queue: seq<SessionEvent>, base: nat, pos: nat, stale: seq<SessionEvent>)

  datatype Step =
    | Serve(q: Request)
    | LeaseDies(lease: LeaseId, order: seq<Key>)
    | Compacts(r: nat)
    | Deliver(upTo: nat)
    | Receive
    | Restart

  /** GetSessions followed by WatchServices with the revision it returned. */
  function Start(store: Store, prefix: Key): State
    requires store.rev > 0
  {
    State(store, prefix, Visible(ContentOf(store), prefix), [], store.rev, store.rev - 1, [])
  }

  /** Every session is written under the key its name and id determine. */
  predicate KeyedRequest(prefix: Key, q: Request) {
    match q
    case Create(k, v, _) => Keyed(prefix, k, v)
    case Swap(k, _, v) => Keyed(prefix, k, v)
    case Write(k, v, _) => Keyed(prefix, k, v)
    case _ => true
  }

  ghost predicate Enabled(s: State, step: Step) {
    match step
    case Serve(q) => KeyedRequest(s.prefix, q)
    case LeaseDies(lease, order) => lease in s.store.leases && Lists(s.store, lease, order)
    case Compacts(r) => s.store.compacted <= r <= s.store.rev
    case Deliver(q) => s.pos < q <= s.store.rev && s.store.compacted <= s.pos + 1
    case Receive => s.queue != []
    case Restart => s.pos + 1 < s.store.compacted
  }

  /** A compaction error fetches a new snapshot, lets the rewatch callback replace the view, and watches from the
      snapshot's revision. Events sent before it are still in the channel. */
  function Restarted(s: State): State
    requires s.store.rev > 0
  {
    s.(view := Visible(ContentOf(s.store), s.prefix), base := s.store.rev, pos := s.store.rev - 1, stale := s.queue)
  }

  function Delivered(s: State, q: nat): State
    requires s.pos <= q
  {
    UpToMonotone(s.store.log, s.pos, q);
    s.(queue := s.queue + ClassifyAll(Under(Between(s.store.log, s.pos, q), s.prefix)), pos := q)
  }

  ghost function Apply(s: State, step: Step): State
    requires Enabled(s, step) && s.store.rev > 0
  {
    match step
    case Serve(q) => s.(store := Exec(s.store, q).0)
    case LeaseDies(lease, order) => s.(store := LeaseEnds(s.store, lease, order))
    case Compacts(r) => s.(store := s.store.(compacted := r))
    case Deliver(q) => Delivered(s, q)
    case Receive => s.(view := Consume(s.view, s.queue[0]), queue := s.queue[1..])
    case Restart => Restarted(s)
  }

  /** The revision the pipeline has caught up with. */
  function Reached(s: State): nat {
    if s.pos < s.base then s.base else s.pos
  }

  /** The last snapshot. */
  function Snapshot(s: State): View {
    Visible(Replay(UpTo(s.store.log, s.base)), s.prefix)
  }

  /** What the watch has delivered since the last snapshot, the snapshot's own revision included. */
  function Later(s: State): seq<SessionEvent>
    requires 0 < s.base <= s.pos + 1
  {
    UpToMonotone(s.store.log, s.base - 1, s.pos);
    ClassifyAll(Under(Between(s.store.log, s.base - 1, s.pos), s.prefix))
  }

  /** Everything in the store and its history stands where a consumer would look for it. */
  predicate AllKeyed(store: Store, prefix: Key) {
    && (forall e | e in store.log :: KeyedEvent(prefix, e))
    && (forall k | k in store.kvs :: Keyed(prefix, k, store.kvs[k].value))
  }

  ghost predicate Inv(s: State) {
    && Valid(s.store) && AllKeyed(s.store, s.prefix)
    && 0 < s.base <= s.store.rev && s.pos <= s.store.rev && s.base <= s.pos + 1
    && FoldView(s.view, s.queue) == FoldView(Snapshot(s), s.stale + Later(s))
  }

  lemma NothingBetween(log: seq<Event>, p: nat)
    ensures Between(log, p, p) == []
  {
  }

  lemma StartInv(store: Store, prefix: Key)
    requires Valid(store) && store.rev > 0 && AllKeyed(store, prefix)
    ensures Inv(Start(store, prefix))
  {
    AllUpTo(store.log, store.rev);
    NothingBetween(store.log, store.rev - 1);
  }

  /** The store moves on: what was, stays, and what is new stands under its own key. */
  ghost predicate MovesOn(st: Store, st': Store, prefix: Key) {
    && Valid(st') && st.rev <= st'.rev && AllKeyed(st', prefix)
    && forall r: nat | r <= st.rev :: UpTo(st'.log, r) == UpTo(st.log, r)
  }

  lemma MoveKeepsInv(s: State, st: Store)
    requires Inv(s) && MovesOn(s.store, st, s.prefix)
    ensures Inv(s.(store := st))
  {
    hide FoldView, ClassifyAll, Under, Visible, Replay, AllKeyed, Valid, UpTo;
    var s' := s.(store := st);
    assert UpTo(st.log, s.base) == UpTo(s.store.log, s.base);
    assert UpTo(st.log, s.base - 1) == UpTo(s.store.log, s.base - 1);
    assert UpTo(st.log, s.pos) == UpTo(s.store.log, s.pos);
    assert Snapshot(s') == Snapshot(s) && Later(s') == Later(s);
  }

  lemma ExecKeepsKeyed(s: Store, q: Request, prefix: Key)
    requires AllKeyed(s, prefix) && KeyedRequest(prefix, q)
    ensures AllKeyed(Exec(s, q).0, prefix)
  {
  }

  lemma ExecMovesOn(st: Store, q: Request, prefix: Key)
    requires Valid(st) && AllKeyed(st, prefix) && KeyedRequest(prefix, q)
    ensures MovesOn(st, Exec(st, q).0, prefix)
  {
    ExecKeepsValid(st, q);
    ExecKeepsKeyed(st, q, prefix);
    forall r: nat | r <= st.rev ensures UpTo(Exec(st, q).0.log, r) == UpTo(st.log, r) {
      ExecKeepsPast(st, q, r);
    }
  }

  lemma PutKeepsRevision(st: Store, k: Key, v: Value)
    ensures st.rev <= WithPut(st, k, v, None).rev
  {
  }

  /** An unconditional put without a lease. */
  lemma PutMovesOn(st: Store, k: Key, v: Value, prefix: Key)
    requires Valid(st) && AllKeyed(st, prefix) && Keyed(prefix, k, v)
    ensures MovesOn(st, WithPut(st, k, v, None), prefix)
  {
    hide Valid, Keyed, Ordered, Replay, ContentOf, UpTo;
    var st' := WithPut(st, k, v, None);
    PutKeepsValid(st, k, v, None);
    PutKeepsRevision(st, k, v);
    forall r: nat | r <= st.rev ensures UpTo(st'.log, r) == UpTo(st.log, r) {
      PutKeepsPast(st, k, v, None, r);
    }
    assert KeyedEvent(prefix, Put(k, v, st.rev + 1));
  }

  lemma LeaseDeathMovesOn(st: Store, lease: LeaseId, order: seq<Key>, prefix: Key)
    requires Valid(st) && AllKeyed(st, prefix) && Lists(st, lease, order)
    ensures MovesOn(st, LeaseEnds(st, lease, order), prefix)
  {
    LeaseEndKeepsValid(st, lease, order);
    var st' := LeaseEnds(st, lease, order);
    forall r: nat | r <= st.rev ensures UpTo(st'.log, r) == UpTo(st.log, r) {
      LeaseEndKeepsPast(st, lease, order, r);
    }
    forall e | e in st'.log ensures KeyedEvent(prefix, e) {
      if e !in st.log {
        var i :| 0 <= i < |order| && e == Deletions(st, order)[i];
      }
    }
  }

  lemma EventsAssociate(a: seq<SessionEvent>, b: seq<SessionEvent>, c: seq<SessionEvent>)
    ensures (a + b) + c == a + (b + c)
  {
  }

  lemma CompactionMovesOn(st: Store, r: nat, prefix: Key)
    requires Valid(st) && AllKeyed(st, prefix) && r <= st.rev
    ensures MovesOn(st, st.(compacted := r), prefix)
  {
  }

  lemma NothingUnder(prefix: Key)
    ensures ClassifyAll(Under([], prefix)) == []
  {
  }

  lemma {:induction false} UnderAppend(a: seq<Event>, b: seq<Event>, prefix: Key)
    ensures ClassifyAll(Under(a + b, prefix)) == ClassifyAll(Under(a, prefix)) + ClassifyAll(Under(b, prefix))
    decreases |a|
  {
    hide Classify, ClassifyAll, Under;
    if a == [] {
      assert a + b == b;
      NothingUnder(prefix);
      EventsAssociate([], [], ClassifyAll(Under(b, prefix)));
    } else {
      assert (a + b)[0] == a[0] && (a + b)[1..] == a[1..] + b;
      UnderStep(a + b, prefix);
      UnderStep(a, prefix);
      UnderAppend(a[1..], b, prefix);
      var first := if prefix <= a[0].key then Classify(a[0]) else [];
      EventsAssociate(first, ClassifyAll(Under(a[1..], prefix)), ClassifyAll(Under(b, prefix)));
    }
  }

  lemma DeliverKeepsInv(s: State, q: nat)
    requires Inv(s) && Enabled(s, Deliver(q))
    ensures Inv(Delivered(s, q))
  {
    hide ClassifyAll, Under, FoldView, Replay, Visible, AllKeyed, Valid;
    var log := s.store.log;
    UpToMonotone(log, s.base - 1, s.pos);
    UpToMonotone(log, s.pos, q);
    var before, now := Between(log, s.base - 1, s.pos), Between(log, s.pos, q);
    assert Between(log, s.base - 1, q) == before + now;
    UnderAppend(before, now, s.prefix);
    var more := ClassifyAll(Under(now, s.prefix));
    FoldViewAppend(s.view, s.queue, more);
    FoldViewAppend(Snapshot(s), s.stale + Later(s), more);
    EventsAssociate(s.stale, Later(s), more);
  }

  lemma RestartSnapshot(s: State)
    requires Valid(s.store) && Enabled(s, Restart)
    ensures 0 < s.store.rev
    ensures Snapshot(Restarted(s)) == Restarted(s).view && Later(Restarted(s)) == []
  {
    AllUpTo(s.store.log, s.store.rev);
    NothingBetween(s.store.log, s.store.rev - 1);
  }

  lemma RestartKeepsInv(s: State)
    requires Inv(s) && Enabled(s, Restart)
    ensures Inv(Restarted(s))
  {
    hide FoldView, Visible, Snapshot, Later, AllKeyed;
    RestartSnapshot(s);
    assert s.queue + [] == s.queue;
  }

  lemma ReceiveKeepsFold(view: View, queue: seq<SessionEvent>)
    requires queue != []
    ensures FoldView(Consume(view, queue[0]), queue[1..]) == FoldView(view, queue)
  {
  }

  lemma ReceiveKeepsInv(s: State)
    requires Inv(s) && s.queue != []
    ensures Inv(Apply(s, Receive))
  {
    hide FoldView, Valid, AllKeyed;
    ReceiveKeepsFold(s.view, s.queue);
  }

  lemma StepKeepsInv(s: State, step: Step)
    requires Inv(s) && Enabled(s, step)
    ensures Inv(Apply(s, step))
  {
    hide FoldView, Snapshot, Later, Exec, LeaseEnds, Lists, KeyedRequest, MovesOn, Valid, AllKeyed;
    match step {
      case Serve(q) =>
        ExecMovesOn(s.store, q, s.prefix);
        MoveKeepsInv(s, Apply(s, step).store);
      case LeaseDies(lease, order) =>
        LeaseDeathMovesOn(s.store, lease, order, s.prefix);
        MoveKeepsInv(s, Apply(s, step).store);
      case Compacts(r) =>
        CompactionMovesOn(s.store, r, s.prefix);
        MoveKeepsInv(s, Apply(s, step).store);
      case Deliver(q) => DeliverKeepsInv(s, q);
      case Receive => ReceiveKeepsInv(s);
      case Restart => RestartKeepsInv(s);
    }
  }

  ghost predicate IsRun(s: State, steps: seq<Step>)
    decreases |steps|
  {
    steps == [] || (s.store.rev > 0 && Enabled(s, steps[0]) && IsRun(Apply(s, steps[0]), steps[1..]))
  }

  ghost function Last(s: State, steps: seq<Step>): State
    requires IsRun(s, steps)
    decreases |steps|
  {
    if steps == [] then s else Last(Apply(s, steps[0]), steps[1..])
  }

  lemma {:induction false} RunKeepsInv(s: State, steps: seq<Step>)
    requires Inv(s) && IsRun(s, steps)
    ensures Inv(Last(s, steps)) && Last(s, steps).prefix == s.prefix
    decreases |steps|
  {
    if steps != [] {
      StepKeepsInv(s, steps[0]);
      RunKeepsInv(Apply(s, steps[0]), steps[1..]);
    }
  }

  // ---------- what the view is worth ----------

  /** Whether a view already shows what an event says. */
  predicate Agrees(view: View, e: SessionEvent) {
    var k := KeyOf(e.session);
    if e.kind == Del then k !in view else k in view && view[k] == e.session
  }

  predicate IsLastOnKey(es: seq<SessionEvent>, i: nat)
    requires i < |es|
  {
    forall j | i < j < |es| :: KeyOf(es[j].session) != KeyOf(es[i].session)
  }

  predicate Mentions(es: seq<SessionEvent>, k: Key) {
    exists e :: e in es && KeyOf(e.session) == k
  }

  /** Events that were queued when the snapshot was taken do no harm: the last one on each key agrees with the
      snapshot, or an event delivered since overrides it. */
  predicate Harmless(snapshot: View, stale: seq<SessionEvent>, later: seq<SessionEvent>) {
    forall i | 0 <= i < |stale| && IsLastOnKey(stale, i) ::
      Agrees(snapshot, stale[i]) || Mentions(later, KeyOf(stale[i].session))
  }

  lemma {:induction false} FoldViewLast(view: View, es: seq<SessionEvent>)
    requires es != []
    ensures FoldView(view, es) == Consume(FoldView(view, es[..|es| - 1]), es[|es| - 1])
  {
    var n := |es| - 1;
    FoldViewAppend(view, es[..n], [es[n]]);
    assert es[..n] + [es[n]] == es;
    assert FoldView(FoldView(view, es[..n]), [es[n]]) == Consume(FoldView(view, es[..n]), es[n]);
  }

  lemma {:induction false} FoldViewAgrees(view: View, es: seq<SessionEvent>, i: nat)
    requires i < |es| && IsLastOnKey(es, i)
    ensures Agrees(FoldView(view, es), es[i])
  {
    FoldViewLast(view, es);
    var n := |es| - 1;
    if i < n {
      assert IsLastOnKey(es[..n], i);
      FoldViewAgrees(view, es[..n], i);
    }
  }

  predicate SameOn(a: View, b: View, k: Key) {
    (k in a <==> k in b) && (k in a ==> a[k] == b[k])
  }

  lemma {:induction false} FoldViewElsewhere(view: View, es: seq<SessionEvent>, k: Key)
    requires !Mentions(es, k)
    ensures SameOn(FoldView(view, es), view, k)
    decreases |es|
  {
    if es != [] {
      assert es[0] in es;
      assert !Mentions(es[1..], k) by {
        assert forall e | e in es[1..] :: e in es;
      }
      FoldViewElsewhere(Consume(view, es[0]), es[1..], k);
    }
  }

  lemma {:induction false} LastOnKey(es: seq<SessionEvent>, k: Key) returns (i: nat)
    requires Mentions(es, k)
    ensures i < |es| && KeyOf(es[i].session) == k && IsLastOnKey(es, i)
  {
    i := |es| - 1;
    if KeyOf(es[i].session) != k {
      i := LastOnKey(es[..i], k);
    }
  }

  lemma SameEverywhere(a: View, b: View)
    requires forall k :: SameOn(a, b, k)
    ensures a == b
  {
    forall k ensures (k in a <==> k in b) && (k in a ==> a[k] == b[k]) {
      assert SameOn(a, b, k);
    }
  }

  /** After stale events and later ones a key stands as after the later ones alone, unless only stale ones mention it
      and their last word disagrees with the snapshot. */
  lemma StaleOnKey(snapshot: View, stale: seq<SessionEvent>, later: seq<SessionEvent>, k: Key)
    ensures SameOn(FoldView(snapshot, stale + later), FoldView(snapshot, later), k)
       <==> (Mentions(later, k) || SameOn(FoldView(snapshot, stale), snapshot, k))
  {
    var folded := FoldView(snapshot, stale);
    FoldViewAppend(snapshot, stale, later);
    if Mentions(later, k) {
      var i := LastOnKey(later, k);
      FoldViewAgrees(folded, later, i);
      FoldViewAgrees(snapshot, later, i);
    } else {
      FoldViewElsewhere(folded, later, k);
      FoldViewElsewhere(snapshot, later, k);
    }
  }

  lemma StaleAgrees(snapshot: View, stale: seq<SessionEvent>, i: nat)
    requires i < |stale| && IsLastOnKey(stale, i)
    ensures SameOn(FoldView(snapshot, stale), snapshot, KeyOf(stale[i].session)) <==> Agrees(snapshot, stale[i])
  {
    FoldViewAgrees(snapshot, stale, i);
  }

  /** Stale events change what the later ones make of the snapshot exactly if they are not harmless. */
  lemma HarmlessIff(snapshot: View, stale: seq<SessionEvent>, later: seq<SessionEvent>)
    ensures FoldView(snapshot, stale + later) == FoldView(snapshot, later) <==> Harmless(snapshot, stale, later)
  {
    hide FoldView, Agrees;
    var with, without := FoldView(snapshot, stale + later), FoldView(snapshot, later);
    if with == without {
      forall i | 0 <= i < |stale| && IsLastOnKey(stale, i)
        ensures Agrees(snapshot, stale[i]) || Mentions(later, KeyOf(stale[i].session))
      {
        StaleOnKey(snapshot, stale, later, KeyOf(stale[i].session));
        StaleAgrees(snapshot, stale, i);
      }
    }
    if Harmless(snapshot, stale, later) {
      forall k ensures SameOn(with, without, k) {
        StaleOnKey(snapshot, stale, later, k);
        if Mentions(stale, k) {
          var i := LastOnKey(stale, k);
          StaleAgrees(snapshot, stale, i);
        } else {
          FoldViewElsewhere(snapshot, stale, k);
        }
      }
      SameEverywhere(with, without);
    }
  }

  lemma KeyedBetween(log: seq<Event>, p: nat, q: nat, prefix: Key)
    requires p <= q && forall e | e in log :: KeyedEvent(prefix, e)
    ensures |UpTo(log, p)| <= |UpTo(log, q)| && forall e | e in Between(log, p, q) :: KeyedEvent(prefix, e)
  {
    hide KeyedEvent;
    UpToMonotone(log, p, q);
    forall e | e in Between(log, p, q) ensures KeyedEvent(prefix, e) {
      assert e in UpTo(log, q);
    }
  }

  /** The snapshot and what was delivered since make the truth of the revision reached. */
  lemma LaterIsTruth(s: State)
    requires Inv(s)
    ensures FoldView(Snapshot(s), Later(s)) == Visible(Replay(UpTo(s.store.log, Reached(s))), s.prefix)
  {
    hide Valid, Replay, UpTo, Visible, KeyedEvent, Keyed;
    var log := s.store.log;
    if s.pos < s.base {
      NothingBetween(log, s.pos);
    } else {
      StepForwardFromBase(log, s.base, s.pos);
      KeyedBetween(log, s.base - 1, s.pos, s.prefix);
      FoldFollows(Replay(UpTo(log, s.base)), Between(log, s.base - 1, s.pos), s.prefix);
    }
  }

  lemma ViewIsTruth(s: State)
    requires Inv(s)
    ensures FoldView(s.view, s.queue) == Visible(Replay(UpTo(s.store.log, Reached(s))), s.prefix)
       <==> Harmless(Snapshot(s), s.stale, Later(s))
    ensures Reached(s) == s.store.rev ==> Replay(UpTo(s.store.log, Reached(s))) == ContentOf(s.store)
  {
    LaterIsTruth(s);
    HarmlessIff(Snapshot(s), s.stale, Later(s));
    AllUpTo(s.store.log, s.store.rev);
  }

  /** The discovered view is the truth. Whatever the store did meanwhile, through the replayed revision and any number
      of compaction restarts, a consumer that receives everything delivered ends with exactly the sessions of the
      revision reached - and those of the store itself once all its events are delivered - if and only if what was
      queued at the last restart, if there was one, is harmless. An empty queue is. */
  lemma ViewIsStore(store: Store, prefix: Key, steps: seq<Step>)
    requires Valid(store) && store.rev > 0 && AllKeyed(store, prefix)
    requires IsRun(Start(store, prefix), steps)
    ensures var s := Last(Start(store, prefix), steps);
      && 0 < s.base <= s.pos + 1
      && (s.stale == [] ==> Harmless(Snapshot(s), s.stale, Later(s)))
      && (FoldView(s.view, s.queue) == Visible(Replay(UpTo(s.store.log, Reached(s))), prefix)
          <==> Harmless(Snapshot(s), s.stale, Later(s)))
      && (s.queue == [] ==> FoldView(s.view, s.queue) == s.view)
      && (Reached(s) == s.store.rev ==> Replay(UpTo(s.store.log, Reached(s))) == ContentOf(s.store))
  {
    StartInv(store, prefix);
    RunKeepsInv(Start(store, prefix), steps);
    ViewIsTruth(Last(Start(store, prefix), steps));
  }

  // ---------- catching up ----------

  /** A watch that is behind can go on in exactly one way: it delivers what history still holds, or, with the next
      revision compacted, it restarts. */
  lemma WatchGoesOn(s: State)
    requires s.pos < s.store.rev
    ensures Enabled(s, Deliver(s.store.rev)) <==> !Enabled(s, Restart)
    ensures Enabled(s, Restart) ==> s.store.compacted > 0 && !(exists q :: Enabled(s, Deliver(q)))
  {
  }

  lemma RunFrom(s: State, step: Step, rest: seq<Step>)
    requires s.store.rev > 0 && Enabled(s, step) && IsRun(Apply(s, step), rest)
    ensures IsRun(s, [step] + rest) && Last(s, [step] + rest) == Last(Apply(s, step), rest)
  {
    assert ([step] + rest)[1..] == rest;
  }

  /** The consumer has received everything up to the store's revision. */
  predicate CaughtUp(s: State) {
    s.queue == [] && Reached(s) == s.store.rev
  }

  lemma {:induction false} Drain(s: State) returns (steps: seq<Step>)
    requires s.store.rev > 0
    ensures IsRun(s, steps) && forall e | e in steps :: e.Receive?
    ensures var s' := Last(s, steps);
      s'.queue == [] && s'.store == s.store && s'.base == s.base && s'.pos == s.pos && s'.prefix == s.prefix
    decreases |s.queue|
  {
    if s.queue == [] {
      steps := [];
    } else {
      var rest := Drain(Apply(s, Receive));
      RunFrom(s, Receive, rest);
      steps := [Receive] + rest;
    }
  }

  /** However far behind, and whatever was compacted, the watcher and the consumer can catch up by themselves. */
  lemma CanCatchUp(s: State) returns (steps: seq<Step>)
    requires Inv(s) && s.store.rev > 0
    ensures IsRun(s, steps) && forall e | e in steps :: e.Deliver? || e.Receive? || e.Restart?
    ensures CaughtUp(Last(s, steps)) && Last(s, steps).store == s.store
  {
    if Reached(s) == s.store.rev {
      steps := Drain(s);
    } else {
      WatchGoesOn(s);
      var step := if Enabled(s, Restart) then Restart else Deliver(s.store.rev);
      var s' := Apply(s, step);
      var rest := Drain(s');
      RunFrom(s, step, rest);
      steps := [step] + rest;
    }
  }

  // ---------- a restart that goes wrong ----------

  /** What the store does between the delivery and the restart. */
  function LeavesTwice(k: Key, v: Value): seq<Step> {
    [Serve(Remove(k)), Serve(Create(k, v, None)), Serve(Remove(k)), Compacts(4), Restart, Receive]
  }

  /** A session registers and its event is delivered; it leaves, comes and leaves again, and history up to there is
      compacted; the watch restarts, and only then the consumer receives the event. */
  function LateReceipt(k: Key, v: Value): seq<Step> {
    [Serve(Create(k, v, None)), Deliver(2)] + LeavesTwice(k, v)
  }

  /** The history of the two stays. */
  lemma TwoStays(k: Key, v: Value)
    ensures var st1 := WithPut(Empty(), k, v, None);
      var st2 := WithDelete(st1, k);
      var st3 := WithPut(st2, k, v, None);
      && Exec(Empty(), Create(k, v, None)).0 == st1 && Exec(st1, Remove(k)).0 == st2
      && Exec(st2, Create(k, v, None)).0 == st3 && Exec(st3, Remove(k)).0 == WithDelete(st3, k)
      && k in st1.kvs && k in st3.kvs && st1.log == [Put(k, v, 2)]
      && st1.rev == 2 && st2.rev == 3 && st3.rev == 4 && st1.compacted == 0
      && WithDelete(st3, k).rev == 5 && WithDelete(st3, k).kvs == map[] && WithDelete(st3, k).compacted == 0
  {
  }

  /** What the watcher sends on for a registration. */
  function Arrival(session: Session): SessionEvent {
    SessionEvent(if session.stopping then Update else Add, session)
  }

  lemma FirstDelivery(k: Key, session: Session, prefix: Key)
    requires prefix <= k
    ensures var log := [Put(k, Registered(session), 2)];
      && UpTo(log, 0) == [] && UpTo(log, 2) == log
      && ClassifyAll(Under(Between(log, 0, 2), prefix)) == [Arrival(session)]
  {
    var log := [Put(k, Registered(session), 2)];
    assert log[..0] == [];
    assert log[0..] == log && log[1..] == [];
    assert Under(log, prefix) == log;
    assert ClassifyAll(log) == Classify(log[0]) + [];
  }

  /** With the event still queued, a session that is gone and history compacted, the restart brings it back. */
  lemma LateRestart(st: Store, session: Session, prefix: Key)
    requires st.rev == 5 && st.kvs == map[] && st.compacted == 0
    ensures var s := State(st, prefix, map[], [Arrival(session)], 1, 2, []);
      var steps := [Compacts(4), Restart, Receive];
      && IsRun(s, steps)
      && Last(s, steps)
         == State(st.(compacted := 4), prefix, map[KeyOf(session) := session], [], 5, 4, [Arrival(session)])
  {
    var s := State(st, prefix, map[], [Arrival(session)], 1, 2, []);
    var s1 := s.(store := st.(compacted := 4));
    var s2 := State(s1.store, prefix, map[], [Arrival(session)], 5, 4, [Arrival(session)]);
    assert Visible(ContentOf(s1.store), prefix) == map[];
    assert Apply(s1, Restart) == s2;
    var s3 := Apply(s2, Receive);
    assert IsRun(s3, []);
    RunFrom(s2, Receive, []);
    RunFrom(s1, Restart, [Receive]);
    RunFrom(s, Compacts(4), [Restart, Receive]);
  }

  lemma LeavesTwiceIsRun(session: Session, prefix: Key)
    ensures var k, v := KeyOf(session), Registered(session);
      var s := State(WithPut(Empty(), k, v, None), prefix, map[], [Arrival(session)], 1, 2, []);
      && IsRun(s, LeavesTwice(k, v))
      && var last := Last(s, LeavesTwice(k, v));
         && last.queue == [] && last.base == 5 && last.pos == 4 && last.store.rev == 5 && last.store.kvs == map[]
         && last.prefix == prefix && last.view == map[k := session]
  {
    hide Exec, KeyOf, Arrival, WithPut, WithDelete, Last, IsRun;
    var k, v := KeyOf(session), Registered(session);
    TwoStays(k, v);
    var st1 := WithPut(Empty(), k, v, None);
    var st2 := WithDelete(st1, k);
    var st3 := WithPut(st2, k, v, None);
    var s2 := State(st1, prefix, map[], [Arrival(session)], 1, 2, []);
    var s3, s4, s5 := s2.(store := st2), s2.(store := st3), s2.(store := WithDelete(st3, k));
    var end := [Compacts(4), Restart, Receive];
    LateRestart(s5.store, session, prefix);
    RunFrom(s4, Serve(Remove(k)), end);
    var end4 := [Serve(Remove(k))] + end;
    RunFrom(s3, Serve(Create(k, v, None)), end4);
    RunFrom(s2, Serve(Remove(k)), [Serve(Create(k, v, None))] + end4);
    assert LeavesTwice(k, v) == [Serve(Remove(k))] + ([Serve(Create(k, v, None))] + end4);
  }

  /** Any session, under any prefix it is watched by: in the end nothing is queued, the watch has reached the store's
      revision, no session is there, and the consumer holds the one that left. */
  lemma RestartGoesWrong(session: Session, prefix: Key)
    requires prefix <= KeyOf(session)
    ensures var steps := LateReceipt(KeyOf(session), Registered(session));
      && IsRun(Start(Empty(), prefix), steps)
      && var s := Last(Start(Empty(), prefix), steps);
         && s.queue == [] && Reached(s) == s.store.rev
         && Visible(ContentOf(s.store), prefix) == map[]
         && s.view == map[KeyOf(session) := session]
  {
    hide Exec, KeyOf, Arrival, UpTo, WithPut, WithDelete, Last, IsRun;
    var k, v := KeyOf(session), Registered(session);
    TwoStays(k, v);
    FirstDelivery(k, session, prefix);
    LeavesTwiceIsRun(session, prefix);
    var s0 := Start(Empty(), prefix);
    var st1 := WithPut(Empty(), k, v, None);
    var s1 := State(st1, prefix, map[], [], 1, 0, []);
    assert s0 == s1.(store := Empty()) && Apply(s0, Serve(Create(k, v, None))) == s1;
    var s2 := State(st1, prefix, map[], [Arrival(session)], 1, 2, []);
    assert [] + [Arrival(session)] == [Arrival(session)] && Apply(s1, Deliver(2)) == s2;
    var end := LeavesTwice(k, v);
    RunFrom(s1, Deliver(2), end);
    RunFrom(s0, Serve(Create(k, v, None)), [Deliver(2)] + end);
    assert LateReceipt(k, v) == [Serve(Create(k, v, None))] + ([Deliver(2)] + end);
  }

  // ---------- sessions that stand under two keys ----------

  /** The winner of an election stands under the active key as well, and the events of both keys look alike. When the
      active key goes, a consumer is misled - whatever else is there - exactly if it watches a prefix of that key. */
  lemma ActiveKeyConfusesIff(m: Content, s: Session, rev: nat, prefix: Key)
    requires s.name in m && m[s.name] == Registered(s)
    ensures var e := Delete(s.name, Registered(s), rev);
      FoldView(Visible(m, prefix), ClassifyAll(Under([e], prefix))) == Visible(After(m, e), prefix)
      <==> !(prefix <= s.name)
  {
    var e := Delete(s.name, Registered(s), rev);
    assert [e][1..] == [] && Under([e], prefix) == if prefix <= s.name then [e] else [];
    assert |KeyOf(s)| > |s.name|;
    if prefix <= s.name {
      assert ClassifyAll([e]) == Classify(e) + [] == [SessionEvent(Del, s)];
      var seen := FoldView(Visible(m, prefix), [SessionEvent(Del, s)]);
      FoldViewLast(Visible(m, prefix), [SessionEvent(Del, s)]);
      assert [SessionEvent(Del, s)][..0] == [];
      assert s.name in seen && s.name !in Visible(After(m, e), prefix);
    } else {
      assert Visible(After(m, e), prefix) == Visible(m, prefix);
    }
  }
}
