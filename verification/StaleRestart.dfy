/** A deployment in which a compaction restart does harm, step by step. */
module StaleRestart {
  import opened Bytes
  import opened Etcd
  import opened Deployment
  import Discovery
  import Election

  lemma SessionsFrom(s: Election.State, e: Election.Step, rest: seq<Election.Step>)
    requires Election.Enabled(s, e) && Election.IsRun(Election.Apply(s, e), rest)
    ensures Election.IsRun(s, [e] + rest)
    ensures Election.Last(s, [e] + rest) == Election.Last(Election.Apply(s, e), rest)
  {
    assert ([e] + rest)[1..] == rest;
  }

  lemma RunFrom(s: State, step: Step, rest: seq<Step>)
    requires Enabled(s, step) && IsRun(Apply(s, step), rest)
    ensures IsRun(s, [step] + rest) && Last(s, [step] + rest) == Last(Apply(s, step), rest)
  {
    assert ([step] + rest)[1..] == rest;
  }

  /** The first session of all, at some point on its way. */
  function Newcomer(exclusive: bool, address: string, pc: Election.Pc, id: Option<nat>): Election.Member {
    Election.Member(pc, exclusive, address, id, None, None, false, false, [])
  }

  /** It has id 1 and lease 0 and is about to register. */
  function Prepared(exclusive: bool, address: string): Election.Member {
    Election.Member(Election.RegCreate, exclusive, address, Some(1), Some(0), Some(true), false, false, [])
  }

  function Alone(st: Store, mem: Election.Member, committed: seq<nat>, name: string): Election.State {
    Election.State(st, map[0 := mem], committed, [], name)
  }

  function CounterSet(): Store {
    Store(2, map[ID_KEY := Entry(Counter(1), None)], [Put(ID_KEY, Counter(1), 2)], {}, 0, 0)
  }

  function CounterMoved(): Store {
    Store(3, map[ID_KEY := Entry(Counter(2), None)], [Put(ID_KEY, Counter(1), 2), Put(ID_KEY, Counter(2), 3)], {}, 0, 0)
  }

  function LeaseGranted(): Store {
    CounterMoved().(leases := {0}, granted := 1)
  }

  const PROCEED: Election.Step := Election.Main(0, Election.Delivered)

  lemma TakesFirstId(name: string, exclusive: bool, address: string)
    ensures var s := Alone(Empty(), Newcomer(exclusive, address, Election.IdCheck, None), [], name);
      var s' := Alone(CounterSet(), Newcomer(exclusive, address, Election.IdGet, None), [], name);
      var s'' := Alone(CounterSet(), Newcomer(exclusive, address, Election.IdCas(1), None), [], name);
      && Election.AfterMain(s, 0, Election.Delivered) == s'
      && Election.AfterMain(s', 0, Election.Delivered) == s''
      && Election.AfterMain(s'', 0, Election.Delivered)
         == Alone(CounterMoved(), Newcomer(exclusive, address, Election.Ready, Some(1)), [1], name)
  {
    assert WithPut(Empty(), ID_KEY, Counter(1), None) == CounterSet();
    assert WithPut(CounterSet(), ID_KEY, Counter(2), None) == CounterMoved();
  }

  lemma TakesFirstLease(name: string, exclusive: bool, address: string)
    ensures var s := Alone(CounterMoved(), Newcomer(exclusive, address, Election.Ready, Some(1)), [1], name);
      var s' := Election.AfterMain(s, 0, Election.Delivered);
      && 0 in s'.members && s'.members[0].pc == Election.RegGrant
      && Election.AfterMain(s', 0, Election.Delivered)
         == Alone(LeaseGranted(), Prepared(exclusive, address), [1], name)
  {
    assert {} + {0} == {0};
  }

  /** The main goroutine goes on for `n` steps, all of them answered. */
  function Proceeding(n: nat): (steps: seq<Election.Step>)
    ensures forall e | e in steps :: e == PROCEED
  {
    if n == 0 then [] else [PROCEED] + Proceeding(n - 1)
  }

  lemma ProceedFrom(s: Election.State, n: nat)
    requires 0 in s.members && !s.members[0].pc.Dead? && !s.members[0].pc.Watching?
    requires Election.IsRun(Election.AfterMain(s, 0, Election.Delivered), Proceeding(n))
    ensures Election.IsRun(s, Proceeding(n + 1))
    ensures Election.Last(s, Proceeding(n + 1))
         == Election.Last(Election.AfterMain(s, 0, Election.Delivered), Proceeding(n))
  {
    hide Election.AfterMain;
    SessionsFrom(s, PROCEED, Proceeding(n));
  }

  lemma FirstStep(name: string, exclusive: bool, address: string)
    ensures Election.AfterMain(Alone(Empty(), Newcomer(exclusive, address, Election.Fresh, None), [], name), 0,
              Election.Delivered)
         == Alone(Empty(), Newcomer(exclusive, address, Election.IdCheck, None), [], name)
  {
  }

  lemma StandingStill(s: Election.State)
    ensures Election.IsRun(s, Proceeding(0)) && Election.Last(s, Proceeding(0)) == s
  {
  }

  /** The way of the newcomer from its id to its registration. */
  lemma NewcomerGetsLease(name: string, exclusive: bool, address: string)
    ensures var s := Alone(CounterMoved(), Newcomer(exclusive, address, Election.Ready, Some(1)), [1], name);
      && Election.IsRun(s, Proceeding(2))
      && Election.Last(s, Proceeding(2)) == Alone(LeaseGranted(), Prepared(exclusive, address), [1], name)
  {
    hide Election.AfterMain, CounterMoved, LeaseGranted, Proceeding, Prepared, Election.IsRun, Election.Last;
    TakesFirstLease(name, exclusive, address);
    var s5 := Alone(CounterMoved(), Newcomer(exclusive, address, Election.Ready, Some(1)), [1], name);
    var s6 := Election.AfterMain(s5, 0, Election.Delivered);
    StandingStill(Election.AfterMain(s6, 0, Election.Delivered));
    ProceedFrom(s6, 0);
    ProceedFrom(s5, 1);
  }

  /** And from its first step. */
  lemma NewcomerProceeds(name: string, exclusive: bool, address: string)
    ensures var s := Alone(Empty(), Newcomer(exclusive, address, Election.Fresh, None), [], name);
      && Election.IsRun(s, Proceeding(6))
      && Election.Last(s, Proceeding(6)) == Alone(LeaseGranted(), Prepared(exclusive, address), [1], name)
  {
    hide Election.AfterMain, CounterSet, CounterMoved, LeaseGranted, Proceeding, Prepared, Empty,
         Election.IsRun, Election.Last;
    FirstStep(name, exclusive, address);
    TakesFirstId(name, exclusive, address);
    NewcomerGetsLease(name, exclusive, address);
    var s1 := Alone(Empty(), Newcomer(exclusive, address, Election.Fresh, None), [], name);
    var s2 := Election.AfterMain(s1, 0, Election.Delivered);
    var s3 := Election.AfterMain(s2, 0, Election.Delivered);
    var s4 := Election.AfterMain(s3, 0, Election.Delivered);
    ProceedFrom(s4, 2);
    ProceedFrom(s3, 3);
    ProceedFrom(s2, 4);
    ProceedFrom(s1, 5);
  }

  /** How the newcomer gets there. */
  function Arriving(exclusive: bool, address: string): seq<Election.Step> {
    [Election.Join(0, exclusive, address)] + Proceeding(6)
  }

  lemma Arrives(name: string, exclusive: bool, address: string)
    ensures var steps := Arriving(exclusive, address);
      && Election.IsRun(Election.Init(name), steps) && (forall e | e in steps :: Aside(name, e))
      && Election.Last(Election.Init(name), steps) == Alone(LeaseGranted(), Prepared(exclusive, address), [1], name)
  {
    hide Proceeding, Election.AfterMain, LeaseGranted, Prepared;
    NewcomerProceeds(name, exclusive, address);
    var s := Alone(Empty(), Newcomer(exclusive, address, Election.Fresh, None), [], name);
    assert Election.Apply(Election.Init(name), Election.Join(0, exclusive, address)) == s;
    SessionsFrom(Election.Init(name), Election.Join(0, exclusive, address), Proceeding(6));
  }

  // What the newcomer writes, and the stores from its registration on.

  function FirstSession(name: string, address: string): Session {
    Session(name, 1, address, false, Some(0))
  }

  function Enrolled(name: string, address: string): Store {
    WithPut(LeaseGranted(), NodeKey(name, 1), Registered(FirstSession(name, address)), Some(0))
  }

  function Expired(name: string, address: string): Store
    requires name != ID_KEY
  {
    KeysDistinct(name, 1);
    LeaseEnds(Enrolled(name, address), 0, [NodeKey(name, 1)])
  }

  const NEXT_ID: Request := Swap(ID_KEY, Counter(2), Counter(3))

  function Forgotten(name: string, address: string): Store
    requires name != ID_KEY
  {
    WithPut(Expired(name, address), ID_KEY, Counter(3), None).(compacted := 6)
  }

  lemma FirstRegistration(name: string, exclusive: bool, address: string)
    requires name != ID_KEY
    ensures Election.AfterMain(Alone(LeaseGranted(), Prepared(exclusive, address), [1], name), 0, Election.Delivered)
         == Alone(Enrolled(name, address), Prepared(exclusive, address).(pc := Election.Enrolled), [1], name)
    ensures Lists(Enrolled(name, address), 0, [NodeKey(name, 1)]) && 0 in Enrolled(name, address).leases
    ensures Enrolled(name, address).rev == 4 && Enrolled(name, address).compacted == 0
  {
    hide NodeKey;
    KeysDistinct(name, 1);
  }

  lemma FirstExpiry(name: string, address: string)
    requires name != ID_KEY
    ensures var st := Expired(name, address);
      && st.rev == 5 && st.compacted == 0 && st.kvs == map[ID_KEY := Entry(Counter(2), None)]
      && Exec(st, NEXT_ID) == (WithPut(st, ID_KEY, Counter(3), None), Response(true, true, None, 0, 6))
      && WithPut(st, ID_KEY, Counter(3), None).rev == 6 && WithPut(st, ID_KEY, Counter(3), None).compacted == 0
    ensures var st := Forgotten(name, address);
      st.rev == 6 && st.compacted == 6 && st.kvs == map[ID_KEY := Entry(Counter(3), None)]
  {
    hide NodeKey;
    KeysDistinct(name, 1);
    var k := NodeKey(name, 1);
    assert (set x | x in [k]) == {k};
    assert Enrolled(name, address).kvs - {k} == map[ID_KEY := Entry(Counter(2), None)];
  }

  lemma FirstEvent(name: string, address: string)
    requires name != ID_KEY
    ensures var log := Enrolled(name, address).log;
      && |UpTo(log, 2)| <= |UpTo(log, 4)|
      && Discovery.ClassifyAll(Discovery.Under(Discovery.Between(log, 2, 4), NodePrefix(name)))
         == [Discovery.Arrival(FirstSession(name, address))]
  {
    hide NodeKey;
    NodePrefixIsOwn(name);
    var log := Enrolled(name, address).log;
    var e := Put(NodeKey(name, 1), Registered(FirstSession(name, address)), 4);
    assert log == [Put(ID_KEY, Counter(1), 2), Put(ID_KEY, Counter(2), 3), e];
    assert log[..2][..1] == [log[0]] && UpTo(log, 2) == [log[0]] && UpTo(log, 4) == log;
    assert log[1..] == [log[1], e] && [log[1], e][1..] == [e] && [e][1..] == [];
    assert Discovery.Under([e], NodePrefix(name)) == [e];
    assert Discovery.Under([log[1], e], NodePrefix(name)) == [e];
    assert Discovery.ClassifyAll([e]) == Discovery.Classify(e) + [];
  }

  lemma OnlyTheCounter(st: Store, n: nat, name: string)
    requires st.kvs == map[ID_KEY := Entry(Counter(n), None)]
    ensures Discovery.Visible(ContentOf(st), NodePrefix(name)) == map[]
  {
    NodePrefixIsOwn(name);
  }

  /** From the restart on. */
  lemma RestartBringsBack(sessions: Election.State, address: string)
    requires sessions.name != ID_KEY && sessions.store == Forgotten(sessions.name, address)
    ensures var name := sessions.name;
      var e := Discovery.Arrival(FirstSession(name, address));
      var s := State(sessions, Discovery.State(sessions.store, NodePrefix(name), map[], [e], 3, 4, []));
      var steps := [OfWatch(Discovery.Restart), OfWatch(Discovery.Receive)];
      && IsRun(s, steps)
      && Last(s, steps) == State(sessions, Discovery.State(sessions.store, NodePrefix(name),
           map[NodeKey(name, 1) := FirstSession(name, address)], [], 6, 5, [e]))
  {
    hide NodeKey, Forgotten;
    var name := sessions.name;
    FirstExpiry(name, address);
    OnlyTheCounter(sessions.store, 3, name);
    var e := Discovery.Arrival(FirstSession(name, address));
    var s := State(sessions, Discovery.State(sessions.store, NodePrefix(name), map[], [e], 3, 4, []));
    var s1 := State(sessions, Discovery.State(sessions.store, NodePrefix(name), map[], [e], 6, 5, [e]));
    assert Apply(s, OfWatch(Discovery.Restart)) == s1;
    var s2 := Apply(s1, OfWatch(Discovery.Receive));
    assert IsRun(s2, []);
    RunFrom(s1, OfWatch(Discovery.Receive), []);
    RunFrom(s, OfWatch(Discovery.Restart), [OfWatch(Discovery.Receive)]);
  }

  /** What goes on between the registration and the restart. */
  function Meanwhile(name: string): seq<Step> {
    [OfWatch(Discovery.Deliver(4)), OfSessions(Election.LeaseDies(0, [NodeKey(name, 1)])),
     OfSessions(Election.Other(NEXT_ID, Election.Delivered)), OfSessions(Election.Compacts(6))]
  }

  lemma EventGoesStale(name: string, mem: Election.Member, address: string)
    requires name != ID_KEY
    ensures var e := Discovery.Arrival(FirstSession(name, address));
      var sessions := Alone(Enrolled(name, address), mem, [1], name);
      var s := State(sessions, Discovery.State(sessions.store, NodePrefix(name), map[], [], 3, 2, []));
      var after := Election.State(Forgotten(name, address), map[0 := mem], [1, 2], [2], name);
      && IsRun(s, Meanwhile(name))
      && Last(s, Meanwhile(name))
         == State(after, Discovery.State(after.store, NodePrefix(name), map[], [e], 3, 4, []))
  {
    hide Exec, NodeKey, Enrolled, Discovery.ClassifyAll, Discovery.Under, UpTo, WithPut, Discovery.Arrival, LeaseEnds;
    FirstRegistration(name, true, address);
    FirstEvent(name, address);
    FirstExpiry(name, address);
    NodePrefixIsOwn(name);
    var e := Discovery.Arrival(FirstSession(name, address));
    var p := NodePrefix(name);
    var sessions := Alone(Enrolled(name, address), mem, [1], name);
    var s1 := State(sessions, Discovery.State(sessions.store, p, map[], [], 3, 2, []));
    var s2 := State(sessions, Discovery.State(sessions.store, p, map[], [e], 3, 4, []));
    assert Apply(s1, Meanwhile(name)[0]) == s2;
    var expired := sessions.(store := Expired(name, address));
    var s3 := State(expired, Discovery.State(expired.store, p, map[], [e], 3, 4, []));
    assert Apply(s2, Meanwhile(name)[1]) == s3;
    var taken := Election.AfterOther(expired, NEXT_ID, Election.Delivered);
    var s4 := State(taken, Discovery.State(taken.store, p, map[], [e], 3, 4, []));
    assert Apply(s3, Meanwhile(name)[2]) == s4;
    var s5 := Apply(s4, Meanwhile(name)[3]);
    assert IsRun(s5, []);
    var expiry, next := OfSessions(Election.LeaseDies(0, [NodeKey(name, 1)])), Meanwhile(name)[2];
    var compaction := OfSessions(Election.Compacts(6));
    RunFrom(s4, compaction, []);
    RunFrom(s3, next, [compaction]);
    RunFrom(s2, expiry, [next, compaction]);
    RunFrom(s1, OfWatch(Discovery.Deliver(4)), [expiry, next, compaction]);
  }

  lemma {:induction false} RunAppend(s: State, a: seq<Step>, b: seq<Step>)
    requires IsRun(s, a) && IsRun(Last(s, a), b)
    ensures IsRun(s, a + b) && Last(s, a + b) == Last(Last(s, a), b)
    decreases |a|
  {
    hide Enabled, Apply;
    if a == [] {
      assert a + b == b;
    } else {
      assert (a + b)[0] == a[0] && (a + b)[1..] == a[1..] + b;
      RunAppend(Apply(s, a[0]), a[1..], b);
    }
  }

  /** The consumer has come in; the newcomer registers and its event is delivered; its lease ends, a session of another
      service takes an id, and history up to there is compacted. The watch restarts, and only then the consumer receives
      the event. */
  function Misfortune(name: string): seq<Step> {
    [OfSessions(PROCEED)] + (Meanwhile(name) + [OfWatch(Discovery.Restart), OfWatch(Discovery.Receive)])
  }

  lemma MisfortuneTakesItsCourse(name: string, exclusive: bool, address: string)
    requires name != ID_KEY
    ensures var s := Join(Alone(LeaseGranted(), Prepared(exclusive, address), [1], name));
      && IsRun(s, Misfortune(name))
      && var end := Last(s, Misfortune(name));
         && end.watch.queue == [] && end.watch.base == 6 && end.watch.pos == 5
         && end.watch.view == map[NodeKey(name, 1) := FirstSession(name, address)]
         && end.sessions.store == Forgotten(name, address) && end.sessions.name == name
  {
    hide NodeKey, Enrolled, Forgotten, Discovery.Arrival, Election.AfterMain, Meanwhile;
    OnlyTheCounter(LeaseGranted(), 2, name);
    var member := Prepared(exclusive, address).(pc := Election.Enrolled);
    var s := Join(Alone(LeaseGranted(), Prepared(exclusive, address), [1], name));
    FirstRegistration(name, exclusive, address);
    EventGoesStale(name, member, address);
    var after := Election.State(Forgotten(name, address), map[0 := member], [1, 2], [2], name);
    RestartBringsBack(after, address);
    var s1 := Apply(s, OfSessions(PROCEED));
    RunAppend(s1, Meanwhile(name), [OfWatch(Discovery.Restart), OfWatch(Discovery.Receive)]);
    RunFrom(s, OfSessions(PROCEED), Meanwhile(name) + [OfWatch(Discovery.Restart), OfWatch(Discovery.Receive)]);
  }

  /**
   * A deployment in which a restart does harm: for any service, any address, and a session that competes or not, the
   * run ends with nothing queued and the watch at the store's revision, with no session registered, and with a consumer
   * that holds the one whose lease has ended.
   */
  lemma RegistryGoesWrong(name: string, exclusive: bool, address: string)
    requires name != ID_KEY
    ensures var before := Arriving(exclusive, address);
      && Election.IsRun(Election.Init(name), before) && (forall e | e in before :: Aside(name, e))
      && IsRun(Join(Evolved(name, before)), Misfortune(name))
      && var s := Last(Join(Evolved(name, before)), Misfortune(name));
         && s.watch.queue == [] && Discovery.Reached(s.watch) == s.sessions.store.rev
         && Registry(s.sessions) == map[]
         && s.watch.view == map[NodeKey(name, 1) := FirstSession(name, address)]
  {
    hide NodeKey, Forgotten, Prepared, LeaseGranted, Arriving, SessionsOk, Misfortune, Join, IsRun, Last,
         Election.IsRun, Election.Last;
    Arrives(name, exclusive, address);
    MisfortuneTakesItsCourse(name, exclusive, address);
    FirstExpiry(name, address);
    OnlyTheCounter(Forgotten(name, address), 3, name);
  }
}
