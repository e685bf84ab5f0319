/** A whole deployment: the sessions of one service, exclusive or not, the sessions of other services, the store, and
    a consumer that watches the service's own keys. */
module Deployment {
  import opened Bytes
  import opened Etcd
  import Discovery
  import Election

  // ---------- which requests a consumer can follow ----------

  /** What a session asks for stands under its own key, except that the election puts it under the active key: a
      consumer is served by every request exactly if no election is held on a key it watches. */
  lemma RequestIsKeyedIff(prefix: Key, name: string, mem: Election.Member)
    requires name != ID_KEY && !(prefix <= ID_KEY)
    ensures Discovery.KeyedRequest(prefix, Election.RequestOf(name, mem))
       <==> !(mem.pc.Electing? && prefix <= name)
  {
    assert |NodeKey(name, Election.IdOf(mem))| > |name|;
  }

  /** The put of GoingStop, with the key computed when the call began: a leader that stops rewrites the active key. */
  lemma StopIsKeyedIff(prefix: Key, name: string, mem: Election.Member)
    requires mem.lease.Some?
    ensures Discovery.KeyedRequest(prefix,
              Election.StopRequest(name, mem, Election.StopPut(Election.CompleteKey(name, mem))))
       <==> !(mem.exclusive && mem.standby != Some(true) && prefix <= name)
  {
    assert |NodeKey(name, Election.IdOf(mem))| > |name|;
  }

  /** The prefix of a service's own keys. */
  function NodePrefix(name: string): Key {
    name + "-"
  }

  lemma NodePrefixIsOwn(name: string)
    ensures !(NodePrefix(name) <= ID_KEY) && !(NodePrefix(name) <= name)
    ensures forall id: nat :: NodePrefix(name) <= NodeKey(name, id)
  {
    assert NodePrefix(name)[|name|] == '-';
    assert |NodePrefix(name)| > |name|;
  }

  /** A step that leaves the service's own keys to its sessions. Keys of a service whose name goes on with a dash would
      fall under the same prefix. */
  predicate Aside(name: string, e: Election.Step) {
    match e
    case Other(Create(k, _, _), _) => !(NodePrefix(name) <= k)
    case Other(Swap(k, _, _), _) => !(NodePrefix(name) <= k)
    case Other(Write(k, _, _), _) => !(NodePrefix(name) <= k)
    case Other(Remove(k), _) => !(NodePrefix(name) <= k)
    case ForeignPut(k, _) => !(NodePrefix(name) <= k)
    case _ => true
  }

  // ---------- the deployment ----------

  /** Both parts speak of the same store. */
  datatype State = State(sessions: Election.State, watch: Discovery.State)

  datatype Step = OfSessions(e: Election.Step) | OfWatch(d: Discovery.Step)

  ghost predicate Enabled(s: State, step: Step) {
    match step
    case OfSessions(e) => Election.Enabled(s.sessions, e) && Aside(s.sessions.name, e)
    case OfWatch(d) =>
      (d.Deliver? || d.Receive? || d.Restart?) && s.watch.store.rev > 0 && Discovery.Enabled(s.watch, d)
  }

  ghost function Apply(s: State, step: Step): State
    requires Enabled(s, step)
  {
    match step
    case OfSessions(e) =>
      var sessions := Election.Apply(s.sessions, e);
      State(sessions, s.watch.(store := sessions.store))
    case OfWatch(d) => State(s.sessions, Discovery.Apply(s.watch, d))
  }

  /** The consumer comes in at any time. */
  function Join(sessions: Election.State): State
    requires sessions.store.rev > 0
  {
    State(sessions, Discovery.Start(sessions.store, NodePrefix(sessions.name)))
  }

  // ---------- what the sessions write ----------

  predicate TakingId(pc: Election.Pc) {
    pc.Fresh? || pc.IdCheck? || pc.IdGet? || pc.IdCas?
  }

  /** A session has an id before a lease, and both before anything is stopped. */
  predicate PhaseOk(mem: Election.Member) {
    && (TakingId(mem.pc) ==> mem.lease == None && mem.id == None)
    && (!TakingId(mem.pc) && !mem.pc.Dead? ==> mem.id.Some?)
    && (mem.lease.Some? ==> mem.id.Some?)
    && (mem.stops != [] ==> mem.lease.Some?)
  }

  /** It stops under its own key or, as a leader, under the active one. */
  predicate StopsOk(name: string, mem: Election.Member) {
    forall i | 0 <= i < |mem.stops| ::
      mem.stops[i].k == name || mem.stops[i].k == NodeKey(name, Election.IdOf(mem))
  }

  predicate MemberOk(name: string, mem: Election.Member) {
    PhaseOk(mem) && StopsOk(name, mem)
  }

  /** Some session of the service has this id and address. */
  predicate Belongs(s: Election.State, v: Value) {
    && v.Registered? && v.session.name == s.name
    && exists m :: m in s.members && s.members[m].id == Some(v.session.id) && s.members[m].address == v.session.address
  }

  /** Everything under the service's own keys was written by one of its sessions about itself. */
  predicate AllBelong(s: Election.State) {
    forall k | k in s.store.kvs && NodePrefix(s.name) <= k :: Belongs(s, s.store.kvs[k].value)
  }

  /** A session that has registered and not crashed, and whose lease lives. */
  predicate IsRegistered(s: Election.State, mem: Election.Member) {
    && !Election.Early(mem.pc) && !mem.pc.Dead?
    && mem.id.Some? && mem.lease.Some? && mem.lease.value in s.store.leases
  }

  /** It stands under its own key. */
  ghost predicate Stands(s: Election.State, mem: Election.Member) {
    IsRegistered(s, mem) ==> Attached(s.store, NodeKey(s.name, mem.id.value), mem.lease.value)
  }

  ghost predicate SessionsOk(s: Election.State) {
    && Election.Inv(s) && Discovery.AllKeyed(s.store, NodePrefix(s.name)) && AllBelong(s) && s.store.rev > 0
    && forall m | m in s.members :: MemberOk(s.name, s.members[m]) && Stands(s, s.members[m])
  }

  lemma InitOk(name: string)
    requires name != ID_KEY
    ensures SessionsOk(Election.Init(name))
  {
    Election.InitInv(name);
  }

  lemma NextKeepsNames(mem: Election.Member, r: Response, got: bool)
    ensures var mem' := Election.MainNext(mem, r, got); mem'.stops == mem.stops && mem'.address == mem.address
  {
  }

  lemma NextKeepsLease(mem: Election.Member, r: Response, got: bool)
    ensures mem.lease.Some? ==> Election.MainNext(mem, r, got).lease.Some?
  {
  }

  lemma NextKeepsIdentity(mem: Election.Member, r: Response, got: bool)
    requires PhaseOk(mem)
    ensures var mem' := Election.MainNext(mem, r, got);
      && mem'.stops == mem.stops && mem'.address == mem.address
      && (mem.id.Some? ==> mem'.id == mem.id) && (mem.lease.Some? ==> mem'.lease.Some?)
  {
    hide Election.MainNext;
    NextKeepsNames(mem, r, got);
    Election.NextSources(mem, r, got);
    NextKeepsLease(mem, r, got);
  }

  lemma NextPhase(mem: Election.Member, r: Response, got: bool)
    requires PhaseOk(mem)
    ensures var mem' := Election.MainNext(mem, r, got);
      && (TakingId(mem'.pc) ==> mem'.lease == None && mem'.id == None)
      && (!TakingId(mem'.pc) && !mem'.pc.Dead? ==> mem'.id.Some?)
      && (mem'.lease.Some? ==> mem'.id.Some?)
  {
    Election.NextSources(mem, r, got);
    match mem.pc
    case IdCas(_) =>
    case IdGet =>
    case RegGrant =>
    case _ =>
  }

  lemma NextPhaseOk(mem: Election.Member, r: Response, got: bool)
    requires PhaseOk(mem)
    ensures var mem' := Election.MainNext(mem, r, got);
      && PhaseOk(mem') && mem'.stops == mem.stops && mem'.address == mem.address
      && (mem.id.Some? ==> mem'.id == mem.id)
  {
    hide Election.MainNext;
    NextKeepsIdentity(mem, r, got);
    NextPhase(mem, r, got);
  }

  lemma NextMemberOk(name: string, mem: Election.Member, r: Response, got: bool)
    requires MemberOk(name, mem)
    ensures MemberOk(name, Election.MainNext(mem, r, got))
  {
    NextPhaseOk(mem, r, got);
  }

  // ---------- what a request makes of the store ----------

  /** Sessions stay known by their id and address. */
  predicate Persists(s: Election.State, s': Election.State) {
    && s'.name == s.name
    && forall m | m in s.members && s.members[m].id.Some? ::
         m in s'.members && s'.members[m].id == s.members[m].id && s'.members[m].address == s.members[m].address
  }

  predicate PutBelongs(s: Election.State, q: Request) {
    match q
    case Create(k, v, _) => NodePrefix(s.name) <= k ==> Belongs(s, v)
    case Swap(k, _, v) => NodePrefix(s.name) <= k ==> Belongs(s, v)
    case Write(k, v, _) => NodePrefix(s.name) <= k ==> Belongs(s, v)
    case _ => true
  }

  lemma BelongsStays(s: Election.State, s': Election.State, v: Value)
    requires Persists(s, s') && Belongs(s, v)
    ensures Belongs(s', v)
  {
    var m :| m in s.members && s.members[m].id == Some(v.session.id) && s.members[m].address == v.session.address;
    assert m in s'.members;
  }

  /** The entries afterwards are old ones, and perhaps the one that was put. */
  lemma ExecEntries(st: Store, q: Request, k: Key)
    requires k in Exec(st, q).0.kvs
    ensures (k in st.kvs && Exec(st, q).0.kvs[k] == st.kvs[k])
         || (match q
             case Create(k', v, _) => k == k' && Exec(st, q).0.kvs[k].value == v
             case Swap(k', _, v) => k == k' && Exec(st, q).0.kvs[k].value == v
             case Write(k', v, _) => k == k' && Exec(st, q).0.kvs[k].value == v
             case _ => false)
  {
  }

  lemma RequestKeepsBelong(s: Election.State, s': Election.State, q: Request)
    requires AllBelong(s) && Persists(s, s') && PutBelongs(s', q) && s'.store == Exec(s.store, q).0
    ensures AllBelong(s')
  {
    hide Exec, Belongs;
    forall k | k in s'.store.kvs && NodePrefix(s'.name) <= k ensures Belongs(s', s'.store.kvs[k].value) {
      ExecEntries(s.store, q, k);
      if k in s.store.kvs && s'.store.kvs[k] == s.store.kvs[k] {
        BelongsStays(s, s', s.store.kvs[k].value);
      }
    }
  }

  lemma NoRequestKeepsBelong(s: Election.State, s': Election.State)
    requires AllBelong(s) && Persists(s, s')
    requires forall k | k in s'.store.kvs :: k in s.store.kvs && s'.store.kvs[k] == s.store.kvs[k]
    ensures AllBelong(s')
  {
    hide Belongs;
    forall k | k in s'.store.kvs && NodePrefix(s'.name) <= k ensures Belongs(s', s'.store.kvs[k].value) {
      BelongsStays(s, s', s.store.kvs[k].value);
    }
  }

  /** How the store moves with a request of anybody, carried out or not. */
  lemma RequestOk(s: Election.State, s': Election.State, q: Request, reply: Election.Reply)
    requires SessionsOk(s) && Persists(s, s') && PutBelongs(s', q) && Discovery.KeyedRequest(NodePrefix(s.name), q)
    requires s'.store == Election.Execute(s.store, q, reply)
    ensures Discovery.MovesOn(s.store, s'.store, NodePrefix(s.name)) && AllBelong(s')
  {
    hide Exec, Discovery.KeyedRequest, Discovery.AllKeyed, PutBelongs, Persists, AllBelong;
    if reply == Election.Refused {
      NoRequestKeepsBelong(s, s');
    } else {
      Discovery.ExecMovesOn(s.store, q, NodePrefix(s.name));
      RequestKeepsBelong(s, s', q);
    }
  }

  // ---------- every step keeps it ----------

  /** What the main goroutine puts under the own keys is about itself. */
  lemma MainPutBelongs(s: Election.State, s': Election.State, m: nat)
    requires m in s.members && PhaseOk(s.members[m]) && Persists(s, s')
    ensures PutBelongs(s', Election.RequestOf(s.name, s.members[m]))
  {
    NodePrefixIsOwn(s.name);
    if s.members[m].pc.RegCreate? {
      assert s'.members[m].id == Some(Election.IdOf(s.members[m]));
    }
  }

  lemma NameIsNotId(s: Election.State)
    requires Election.Inv(s)
    ensures s.name != ID_KEY && Valid(s.store)
  {
  }

  lemma MainOk(s: Election.State, m: nat, reply: Election.Reply)
    requires SessionsOk(s) && Election.Enabled(s, Election.Main(m, reply))
    ensures var s' := Election.AfterMain(s, m, reply);
      Discovery.MovesOn(s.store, s'.store, NodePrefix(s.name)) && AllBelong(s')
      && forall n | n in s'.members :: MemberOk(s'.name, s'.members[n])
  {
    hide Exec, Election.Inv, Election.MainNext, Election.RequestOf, Election.Pending, StopsOk, PhaseOk, AllBelong,
         PutBelongs, Discovery.AllKeyed, Discovery.MovesOn, Stands, Discovery.KeyedRequest;
    var s', mem := Election.AfterMain(s, m, reply), s.members[m];
    var q := Election.RequestOf(s.name, mem);
    assert MemberOk(s.name, mem);
    NodePrefixIsOwn(s.name);
    NextMemberOk(s.name, mem, Election.Answer(s.store, q), reply == Election.Delivered);
    NextPhaseOk(mem, Election.Answer(s.store, q), reply == Election.Delivered);
    NameIsNotId(s);
    RequestIsKeyedIff(NodePrefix(s.name), s.name, mem);
    MainPutBelongs(s, s', m);
    RequestOk(s, s', q, reply);
  }

  lemma StopPhaseOk(name: string, mem: Election.Member, i: nat, r: Response, got: bool)
    requires MemberOk(name, mem) && i < |mem.stops|
    ensures var mem' := Election.StopNext(mem, i, r, got);
      MemberOk(name, mem') && mem'.id == mem.id && mem'.address == mem.address
      && mem'.pc == mem.pc && mem'.lease == mem.lease
  {
    var mem' := Election.StopNext(mem, i, r, got);
    forall j | 0 <= j < |mem'.stops|
      ensures mem'.stops[j].k == name || mem'.stops[j].k == NodeKey(name, Election.IdOf(mem'))
    {
      assert mem'.stops[j].k == mem.stops[j].k || (j + 1 < |mem.stops| && mem'.stops[j] == mem.stops[j + 1]);
    }
  }

  /** What a stopping session puts under the own keys is about itself, under its own key. */
  lemma StopPutBelongs(s: Election.State, s': Election.State, m: nat, i: nat)
    requires m in s.members && MemberOk(s.name, s.members[m]) && i < |s.members[m].stops| && Persists(s, s')
    requires s.members[m].lease.Some?
    ensures var q := Election.StopRequest(s.name, s.members[m], s.members[m].stops[i]);
      PutBelongs(s', q) && Discovery.KeyedRequest(NodePrefix(s.name), q)
  {
    NodePrefixIsOwn(s.name);
    assert s'.members[m].id == Some(Election.IdOf(s.members[m]));
  }

  lemma StopOk(s: Election.State, m: nat, i: nat, reply: Election.Reply)
    requires SessionsOk(s) && Election.Enabled(s, Election.StopStep(m, i, reply))
    ensures var s' := Election.AfterStop(s, m, i, reply);
      Discovery.MovesOn(s.store, s'.store, NodePrefix(s.name)) && AllBelong(s')
      && forall n | n in s'.members :: MemberOk(s'.name, s'.members[n])
  {
    hide Exec, Election.Inv, Election.StopNext, Election.StopRequest, StopsOk, PhaseOk, AllBelong, PutBelongs,
         Discovery.AllKeyed, Discovery.MovesOn, Stands, Discovery.KeyedRequest;
    var s', mem := Election.AfterStop(s, m, i, reply), s.members[m];
    var q := Election.StopRequest(s.name, mem, mem.stops[i]);
    assert MemberOk(s.name, mem);
    StopPhaseOk(s.name, mem, i, Election.Answer(s.store, q), reply == Election.Delivered);
    StopPutBelongs(s, s', m, i);
    RequestOk(s, s', q, reply);
  }

  lemma OtherOk(s: Election.State, q: Request, reply: Election.Reply)
    requires SessionsOk(s) && Election.OthersAsk(s.name, q) && Aside(s.name, Election.Other(q, reply))
    ensures var s' := Election.AfterOther(s, q, reply);
      Discovery.MovesOn(s.store, s'.store, NodePrefix(s.name)) && AllBelong(s')
  {
    hide Exec, Election.Inv, AllBelong, Discovery.AllKeyed, Discovery.MovesOn, Stands, MemberOk;
    NodePrefixIsOwn(s.name);
    RequestOk(s, Election.AfterOther(s, q, reply), q, reply);
  }

  lemma ForeignPutOk(s: Election.State, k: Key, v: Value)
    requires SessionsOk(s) && !(NodePrefix(s.name) <= k)
    ensures var s' := s.(store := WithPut(s.store, k, v, None));
      Discovery.MovesOn(s.store, s'.store, NodePrefix(s.name)) && AllBelong(s')
  {
    hide Election.Inv, Discovery.AllKeyed, Discovery.MovesOn, Stands, MemberOk, Belongs;
    var s' := s.(store := WithPut(s.store, k, v, None));
    NameIsNotId(s);
    Discovery.PutMovesOn(s.store, k, v, NodePrefix(s.name));
    forall k' | k' in s'.store.kvs && NodePrefix(s.name) <= k' ensures Belongs(s', s'.store.kvs[k'].value) {
      BelongsStays(s, s', s.store.kvs[k'].value);
    }
  }

  /** Coming, beginning to stop and crashing leave the store alone. */
  lemma QuietOk(s: Election.State, e: Election.Step)
    requires SessionsOk(s) && Election.Enabled(s, e) && (e.Join? || e.BeginStop? || e.Crash?)
    ensures var s' := Election.Apply(s, e);
      s'.store == s.store && s'.name == s.name && AllBelong(s')
      && forall n | n in s'.members :: MemberOk(s'.name, s'.members[n])
  {
    hide Discovery.AllKeyed, Belongs, Election.Inv, Stands;
    var s' := Election.Apply(s, e);
    NoRequestKeepsBelong(s, s');
    forall n | n in s'.members ensures MemberOk(s'.name, s'.members[n]) {
      if n in s.members {
        assert MemberOk(s.name, s.members[n]);
      }
    }
  }

  // ---------- who has registered stays ----------

  lemma LeasesComeByGrant(st: Store, q: Request)
    ensures forall l | l in Exec(st, q).0.leases :: l in st.leases || l >= st.granted
  {
  }

  /** A request that spares a key leaves it with its lease. */
  lemma SparedKeepsStanding(s: Election.State, s': Election.State, q: Request, reply: Election.Reply,
                            mem: Election.Member)
    requires Stands(s, mem) && s'.name == s.name && s'.store == Election.Execute(s.store, q, reply)
    requires mem.lease.Some? ==> mem.lease.value < s.store.granted
    requires mem.id.Some? ==> Election.Gentle(NodeKey(s.name, mem.id.value), s.store, q)
    ensures Stands(s', mem)
  {
    hide Exec, Election.Gentle, NodeKey;
    LeasesComeByGrant(s.store, q);
    if mem.id.Some? && mem.lease.Some? && Attached(s.store, NodeKey(s.name, mem.id.value), mem.lease.value) {
      Election.GentleKeepsActive(NodeKey(s.name, mem.id.value), s.store, q, mem.lease.value);
    }
  }

  /** The main goroutine of one session spares the keys of the others. */
  lemma MainSpares(name: string, st: Store, mem: Election.Member, id: nat)
    requires name != ID_KEY && (mem.pc.RegRemove? ==> Election.IdOf(mem) != id)
    ensures Election.Gentle(NodeKey(name, id), st, Election.RequestOf(name, mem))
  {
    KeysDistinct(name, id);
    if NodeKey(name, Election.IdOf(mem)) == NodeKey(name, id) {
      NodeKeyInjective(name, Election.IdOf(mem), id);
    }
  }

  lemma MainKeepsOthersStanding(s: Election.State, m: nat, reply: Election.Reply, n: nat)
    requires SessionsOk(s) && m in s.members && n in s.members && m != n
    ensures Stands(Election.AfterMain(s, m, reply), s.members[n])
  {
    hide Exec, Election.RequestOf, Election.MainNext, Election.Gentle, AllBelong, Discovery.AllKeyed, Valid;
    var mem := s.members[m];
    assert MemberOk(s.name, mem) && Stands(s, s.members[n]);
    if s.members[n].id.Some? {
      MainSpares(s.name, s.store, mem, s.members[n].id.value);
    }
    SparedKeepsStanding(s, Election.AfterMain(s, m, reply), Election.RequestOf(s.name, mem), reply, s.members[n]);
  }

  /** Only the answer to its own create makes a session registered. */
  lemma RegisteredSource(mem: Election.Member, r: Response, got: bool)
    requires Election.Early(mem.pc) && !Election.Early(Election.MainNext(mem, r, got).pc)
    requires !Election.MainNext(mem, r, got).pc.Dead?
    ensures mem.pc.RegCreate? && got && r.ok && r.succeeded
    ensures Election.MainNext(mem, r, got).id == mem.id && Election.MainNext(mem, r, got).lease == mem.lease
  {
  }

  lemma RegisteredStays(mem: Election.Member, r: Response, got: bool)
    requires !Election.Early(mem.pc)
    ensures var mem' := Election.MainNext(mem, r, got);
      mem'.id == mem.id && mem'.lease == mem.lease && (mem.pc.Dead? ==> mem'.pc.Dead?)
  {
  }

  lemma MainKeepsOwnStanding(s: Election.State, m: nat, reply: Election.Reply)
    requires SessionsOk(s) && m in s.members
    ensures Stands(Election.AfterMain(s, m, reply), Election.AfterMain(s, m, reply).members[m])
  {
    hide Exec, Election.MainNext, Election.Gentle, AllBelong, Discovery.AllKeyed, Valid;
    var s', mem := Election.AfterMain(s, m, reply), s.members[m];
    var q := Election.RequestOf(s.name, mem);
    var r, got, mem' := Election.Answer(s.store, q), reply == Election.Delivered, s'.members[m];
    assert MemberOk(s.name, mem) && Stands(s, mem);
    if Election.Early(mem'.pc) || mem'.pc.Dead? {
    } else if Election.Early(mem.pc) {
      RegisteredSource(mem, r, got);
      Election.WonMeansAttached(s.store, NodeKey(s.name, Election.IdOf(mem)), Election.Json(s.name, mem), mem.lease);
    } else {
      RegisteredStays(mem, r, got);
      MainSpares(s.name, s.store, mem, Election.IdOf(mem));
      SparedKeepsStanding(s, s', q, reply, mem);
    }
  }

  /** A put of GoingStop goes to the session's own key, or keeps off all of them. */
  lemma StopSpares(s: Election.State, mem: Election.Member, i: nat, id: nat)
    requires MemberOk(s.name, mem) && i < |mem.stops| && mem.lease.Some?
    requires mem.id == Some(id) && mem.lease.value in s.store.leases ==>
               Attached(s.store, NodeKey(s.name, id), mem.lease.value)
    ensures Election.Gentle(NodeKey(s.name, id), s.store, Election.StopRequest(s.name, mem, mem.stops[i]))
  {
    assert |NodeKey(s.name, id)| > |s.name|;
    if NodeKey(s.name, Election.IdOf(mem)) == NodeKey(s.name, id) {
      NodeKeyInjective(s.name, Election.IdOf(mem), id);
    }
  }

  lemma StopKeepsStanding(s: Election.State, m: nat, i: nat, reply: Election.Reply, n: nat)
    requires SessionsOk(s) && Election.Enabled(s, Election.StopStep(m, i, reply)) && n in s.members
    ensures Stands(Election.AfterStop(s, m, i, reply), Election.AfterStop(s, m, i, reply).members[n])
  {
    hide Exec, Election.StopRequest, Election.StopNext, Election.Gentle, AllBelong, Discovery.AllKeyed, Valid,
         Election.MemberOk, Election.WinnerOk, Election.WatchOk, MemberOk;
    var s', mem := Election.AfterStop(s, m, i, reply), s.members[m];
    var q := Election.StopRequest(s.name, mem, mem.stops[i]);
    assert MemberOk(s.name, mem) && Stands(s, mem) && Stands(s, s.members[n]);
    StopPhaseOk(s.name, mem, i, Election.Answer(s.store, q), reply == Election.Delivered);
    if n != m || !(Election.Early(mem.pc) || mem.pc.Dead?) {
      if s.members[n].id.Some? {
        StopSpares(s, mem, i, s.members[n].id.value);
      }
      SparedKeepsStanding(s, s', q, reply, s.members[n]);
    }
  }

  lemma OtherSpares(name: string, st: Store, q: Request, reply: Election.Reply, id: nat)
    requires name != ID_KEY && Election.OthersAsk(name, q) && Aside(name, Election.Other(q, reply))
    ensures Election.Gentle(NodeKey(name, id), st, q)
  {
    NodePrefixIsOwn(name);
  }

  lemma OtherKeepsStanding(s: Election.State, q: Request, reply: Election.Reply, n: nat)
    requires SessionsOk(s) && Election.OthersAsk(s.name, q) && Aside(s.name, Election.Other(q, reply))
    requires n in s.members
    ensures Stands(Election.AfterOther(s, q, reply), s.members[n])
  {
    hide Exec, Election.OthersAsk, Aside, Election.Gentle, AllBelong, Discovery.AllKeyed, Valid;
    assert Stands(s, s.members[n]);
    if s.members[n].id.Some? {
      OtherSpares(s.name, s.store, q, reply, s.members[n].id.value);
    }
    SparedKeepsStanding(s, Election.AfterOther(s, q, reply), q, reply, s.members[n]);
  }

  lemma LeaseDeathKeepsStanding(s: Election.State, lease: LeaseId, order: seq<Key>, mem: Election.Member)
    requires Stands(s, mem) && Lists(s.store, lease, order)
    ensures Stands(s.(store := LeaseEnds(s.store, lease, order)), mem)
  {
    hide NodeKey;
    if mem.id.Some? && mem.lease.Some? && mem.lease.value != lease {
      var k := NodeKey(s.name, mem.id.value);
      if Attached(s.store, k, mem.lease.value) {
        LeaseEndKeepsOthers(s.store, lease, order, k);
      }
    }
  }

  lemma ForeignPutKeepsStanding(s: Election.State, k: Key, v: Value, mem: Election.Member)
    requires Stands(s, mem) && !(NodePrefix(s.name) <= k)
    ensures Stands(s.(store := WithPut(s.store, k, v, None)), mem)
  {
    NodePrefixIsOwn(s.name);
  }

  /** Every step of the sessions and their surroundings leaves the registered sessions standing. */
  lemma StepKeepsStanding(s: Election.State, e: Election.Step)
    requires SessionsOk(s) && Election.Enabled(s, e) && Aside(s.name, e)
    ensures var s' := Election.Apply(s, e); forall n | n in s'.members :: Stands(s', s'.members[n])
  {
    hide Exec, Election.Inv, Discovery.AllKeyed, AllBelong, MemberOk, Election.MainNext, Election.StopNext,
         Election.OthersAsk, Election.Pending, Election.RequestOf, Election.StopRequest;
    var s' := Election.Apply(s, e);
    forall n | n in s'.members ensures Stands(s', s'.members[n]) {
      assert n in s.members ==> Stands(s, s.members[n]);
      match e {
        case Main(m, reply) =>
          if n == m {
            MainKeepsOwnStanding(s, m, reply);
          } else {
            MainKeepsOthersStanding(s, m, reply, n);
          }
        case StopStep(m, i, reply) => StopKeepsStanding(s, m, i, reply, n);
        case Other(q, reply) => OtherKeepsStanding(s, q, reply, n);
        case ForeignPut(k, v) => ForeignPutKeepsStanding(s, k, v, s.members[n]);
        case LeaseDies(lease, order) => LeaseDeathKeepsStanding(s, lease, order, s.members[n]);
        case _ =>
      }
    }
  }

  /** Every step of the sessions and their surroundings moves the store on and keeps what stands in it. */
  lemma StepMovesOn(s: Election.State, e: Election.Step)
    requires SessionsOk(s) && Election.Enabled(s, e) && Aside(s.name, e)
    ensures var s' := Election.Apply(s, e);
      && s'.name == s.name && Discovery.MovesOn(s.store, s'.store, NodePrefix(s.name)) && AllBelong(s')
      && forall n | n in s'.members :: MemberOk(s'.name, s'.members[n])
  {
    hide Exec, Discovery.AllKeyed, Belongs, AllBelong, MemberOk, Stands, Election.Inv, Election.MainNext,
         Election.StopNext, Valid;
    NameIsNotId(s);
    var s' := Election.Apply(s, e);
    match e {
      case Main(m, reply) => MainOk(s, m, reply);
      case StopStep(m, i, reply) => StopOk(s, m, i, reply);
      case Other(q, reply) => OtherOk(s, q, reply);
      case ForeignPut(k, v) => ForeignPutOk(s, k, v);
      case LeaseDies(lease, order) =>
        Discovery.LeaseDeathMovesOn(s.store, lease, order, NodePrefix(s.name));
        NoRequestKeepsBelong(s, s');
      case Compacts(r) =>
        Discovery.CompactionMovesOn(s.store, r, NodePrefix(s.name));
        NoRequestKeepsBelong(s, s');
      case _ => QuietOk(s, e);
    }
  }

  /** Every step keeps what is said of the sessions and of what they wrote. */
  lemma StepOk(s: Election.State, e: Election.Step)
    requires SessionsOk(s) && Election.Enabled(s, e) && Aside(s.name, e)
    ensures SessionsOk(Election.Apply(s, e)) && Election.Apply(s, e).name == s.name
    ensures Discovery.MovesOn(s.store, Election.Apply(s, e).store, NodePrefix(s.name))
  {
    hide Election.Apply, Election.Enabled, Election.Inv, Discovery.AllKeyed, AllBelong, MemberOk, Stands, Aside;
    Election.StepKeepsInv(s, e);
    StepMovesOn(s, e);
    StepKeepsStanding(s, e);
  }

  // ---------- whole runs ----------

  ghost predicate Inv(s: State) {
    && SessionsOk(s.sessions) && Discovery.Inv(s.watch)
    && s.watch.store == s.sessions.store && s.watch.prefix == NodePrefix(s.sessions.name)
  }

  lemma StepKeepsInv(s: State, step: Step)
    requires Inv(s) && Enabled(s, step)
    ensures Inv(Apply(s, step)) && Apply(s, step).sessions.name == s.sessions.name
  {
    hide SessionsOk, Discovery.Inv, Discovery.MovesOn, Election.Apply, Election.Enabled, Aside, Discovery.FoldView;
    match step {
      case OfSessions(e) =>
        StepOk(s.sessions, e);
        Discovery.MoveKeepsInv(s.watch, Election.Apply(s.sessions, e).store);
      case OfWatch(d) => Discovery.StepKeepsInv(s.watch, d);
    }
  }

  ghost predicate IsRun(s: State, steps: seq<Step>)
    decreases |steps|
  {
    steps == [] || (Enabled(s, steps[0]) && IsRun(Apply(s, steps[0]), steps[1..]))
  }

  ghost function Last(s: State, steps: seq<Step>): State
    requires IsRun(s, steps)
    decreases |steps|
  {
    if steps == [] then s else Last(Apply(s, steps[0]), steps[1..])
  }

  lemma {:induction false} RunKeepsInv(s: State, steps: seq<Step>)
    requires Inv(s) && IsRun(s, steps)
    ensures Inv(Last(s, steps)) && Last(s, steps).sessions.name == s.sessions.name
    decreases |steps|
  {
    hide Inv, Enabled, Apply;
    if steps != [] {
      StepKeepsInv(s, steps[0]);
      RunKeepsInv(Apply(s, steps[0]), steps[1..]);
    }
  }

  lemma {:induction false} SessionsRunOk(s: Election.State, steps: seq<Election.Step>)
    requires SessionsOk(s) && Election.IsRun(s, steps) && forall e | e in steps :: Aside(s.name, e)
    ensures SessionsOk(Election.Last(s, steps)) && Election.Last(s, steps).name == s.name
    decreases |steps|
  {
    hide SessionsOk, Election.Enabled, Election.Apply, Aside;
    if steps != [] {
      StepOk(s, steps[0]);
      SessionsRunOk(Election.Apply(s, steps[0]), steps[1..]);
    }
  }

  /** The sessions after some history of them. */
  ghost function Evolved(name: string, steps: seq<Election.Step>): (s: Election.State)
    requires name != ID_KEY && Election.IsRun(Election.Init(name), steps) && forall e | e in steps :: Aside(name, e)
    ensures SessionsOk(s) && s.name == name && s.store.rev > 0
  {
    InitOk(name);
    SessionsRunOk(Election.Init(name), steps);
    Election.Last(Election.Init(name), steps)
  }

  /** The sessions of a service that are registered under their own keys. */
  function Registry(s: Election.State): Discovery.View {
    Discovery.Visible(ContentOf(s.store), NodePrefix(s.name))
  }

  lemma JoinInv(s: Election.State)
    requires SessionsOk(s)
    ensures Inv(Join(s))
  {
    hide Discovery.Inv;
    NameIsNotId(s);
    Discovery.StartInv(s.store, NodePrefix(s.name));
  }

  lemma FoldNothing(view: Discovery.View)
    ensures Discovery.FoldView(view, []) == view
  {
  }

  lemma RegistryBelongs(s: Election.State)
    requires SessionsOk(s)
    ensures forall k | k in Registry(s) ::
      && k == NodeKey(s.name, Registry(s)[k].id)
      && exists m :: m in s.members && s.members[m].id == Some(Registry(s)[k].id)
                     && s.members[m].address == Registry(s)[k].address
  {
    hide Election.Inv;
    forall k | k in Registry(s)
      ensures k == NodeKey(s.name, Registry(s)[k].id)
      ensures exists m :: m in s.members && s.members[m].id == Some(Registry(s)[k].id)
                          && s.members[m].address == Registry(s)[k].address
    {
      assert Belongs(s, s.store.kvs[k].value);
    }
  }

  /** A registered session is found under its key, with its own id and address. */
  lemma RegistryHolds(s: Election.State, m: nat)
    requires SessionsOk(s) && m in s.members && IsRegistered(s, s.members[m])
    ensures var k := NodeKey(s.name, s.members[m].id.value);
      && k in Registry(s) && Registry(s)[k].id == s.members[m].id.value
      && Registry(s)[k].address == s.members[m].address
  {
    var id := s.members[m].id.value;
    var k := NodeKey(s.name, id);
    NodePrefixIsOwn(s.name);
    assert Stands(s, s.members[m]) && Belongs(s, s.store.kvs[k].value);
    var session := s.store.kvs[k].value.session;
    assert Discovery.Keyed(NodePrefix(s.name), k, s.store.kvs[k].value);
    NodeKeyInjective(s.name, session.id, id);
    var n :| n in s.members && s.members[n].id == Some(id) && s.members[n].address == session.address;
    assert n == m;
  }

  /**
   * Discovery against the sessions themselves, elections and all. After any history of them a consumer takes a snapshot
   * of the service's own keys and watches on, while everything goes on. Once it has received everything up to the
   * store's revision, it holds exactly the registry if and only if it was not harmed at its last restart. Every entry
   * there is a session of the service, by its id and address, and every session that has registered is there as long
   * as its lease lives.
   */
  lemma ViewIsRegistry(name: string, before: seq<Election.Step>, steps: seq<Step>)
    requires name != ID_KEY && Election.IsRun(Election.Init(name), before) && forall e | e in before :: Aside(name, e)
    requires IsRun(Join(Evolved(name, before)), steps)
    ensures var s := Last(Join(Evolved(name, before)), steps);
      && 0 < s.watch.base <= s.watch.pos + 1
      && (s.watch.queue == [] && Discovery.Reached(s.watch) == s.sessions.store.rev ==>
            (s.watch.view == Registry(s.sessions)
             <==> Discovery.Harmless(Discovery.Snapshot(s.watch), s.watch.stale, Discovery.Later(s.watch))))
      && (forall k | k in Registry(s.sessions) ::
            && k == NodeKey(name, Registry(s.sessions)[k].id)
            && exists m :: m in s.sessions.members && s.sessions.members[m].id == Some(Registry(s.sessions)[k].id)
                           && s.sessions.members[m].address == Registry(s.sessions)[k].address)
      && (forall m | m in s.sessions.members && IsRegistered(s.sessions, s.sessions.members[m]) ::
            var k := NodeKey(name, s.sessions.members[m].id.value);
            && k in Registry(s.sessions) && Registry(s.sessions)[k].id == s.sessions.members[m].id.value
            && Registry(s.sessions)[k].address == s.sessions.members[m].address)
  {
    hide Election.Inv, SessionsOk, Enabled, Apply, Discovery.Harmless, Discovery.FoldView, Discovery.Visible, Belongs;
    var start := Evolved(name, before);
    assert Inv(Join(start)) by {
      JoinInv(start);
    }
    RunKeepsInv(Join(start), steps);
    var s := Last(Join(start), steps);
    Discovery.ViewIsTruth(s.watch);
    FoldNothing(s.watch.view);
    RegistryBelongs(s.sessions);
    forall m | m in s.sessions.members && IsRegistered(s.sessions, s.sessions.members[m])
      ensures var k := NodeKey(name, s.sessions.members[m].id.value);
        && k in Registry(s.sessions) && Registry(s.sessions)[k].id == s.sessions.members[m].id.value
        && Registry(s.sessions)[k].address == s.sessions.members[m].address
    {
      RegistryHolds(s.sessions, m);
    }
  }

  // ---------- announcing a stop ----------

  /** What a session stores about itself once it is stopping. */
  function Farewell(name: string, mem: Election.Member): Session {
    Session(name, Election.IdOf(mem), mem.address, true, mem.lease)
  }

  lemma StopPutStores(s: Election.State, m: nat, i: nat, reply: Election.Reply)
    requires m in s.members && i < |s.members[m].stops| && s.members[m].stops[i].StopPut? && reply != Election.Refused
    requires s.members[m].lease.Some? && s.members[m].lease.value in s.store.leases && s.members[m].stopping
    ensures var mem, s' := s.members[m], Election.AfterStop(s, m, i, reply);
      && s'.store.kvs == s.store.kvs[mem.stops[i].k := Entry(Registered(Farewell(s.name, mem)), mem.lease)]
      && |s'.store.log| == |s.store.log| + 1
      && s'.store.log[|s.store.log|].key == mem.stops[i].k
      && Discovery.Classify(s'.store.log[|s.store.log|])
         == [Discovery.SessionEvent(Discovery.Update, Farewell(s.name, mem))]
  {
    hide Election.StopNext;
  }

  /** The put of GoingStop, its answer lost or not: the session stands there as stopping, under its lease, and the watch
      has one more event, which tells of an update. */
  lemma StopIsAnnounced(name: string, steps: seq<Election.Step>, m: nat, i: nat, reply: Election.Reply)
    requires name != ID_KEY && Election.IsRun(Election.Init(name), steps)
    requires var s := Election.Last(Election.Init(name), steps);
      && m in s.members && i < |s.members[m].stops| && s.members[m].stops[i].StopPut? && reply != Election.Refused
      && s.members[m].lease.Some? && s.members[m].lease.value in s.store.leases
    ensures var s := Election.Last(Election.Init(name), steps);
      var mem, s' := s.members[m], Election.AfterStop(s, m, i, reply);
      && s'.store.kvs == s.store.kvs[mem.stops[i].k := Entry(Registered(Farewell(name, mem)), mem.lease)]
      && |s'.store.log| == |s.store.log| + 1
      && s'.store.log[|s.store.log|].key == mem.stops[i].k
      && Discovery.Classify(s'.store.log[|s.store.log|])
         == [Discovery.SessionEvent(Discovery.Update, Farewell(name, mem))]
  {
    Election.InitInv(name);
    Election.RunKeepsInv(Election.Init(name), steps);
    var s := Election.Last(Election.Init(name), steps);
    assert Election.MemberOk(s.name, s.members[m]) && s.name == name;
    hide Election.IsRun, Election.Last, Election.Inv, Election.AfterStop, Discovery.Classify;
    StopPutStores(s, m, i, reply);
  }

  /** A GoingStop call by itself: it begins, reads its key and, if that is there, writes it. */
  function Stopping(m: nat, n: nat): seq<Election.Step> {
    if n == 0 then [] else [Election.StopStep(m, 0, Election.Delivered)] + Stopping(m, n - 1)
  }

  lemma StoppingStep(s: Election.State, m: nat, n: nat)
    requires Election.Enabled(s, Election.StopStep(m, 0, Election.Delivered))
    requires Election.IsRun(Election.AfterStop(s, m, 0, Election.Delivered), Stopping(m, n))
    ensures Election.IsRun(s, Stopping(m, n + 1))
    ensures Election.Last(s, Stopping(m, n + 1))
         == Election.Last(Election.AfterStop(s, m, 0, Election.Delivered), Stopping(m, n))
  {
    hide Election.AfterStop, Election.Pending;
    var e := Election.StopStep(m, 0, Election.Delivered);
    assert Stopping(m, n + 1)[0] == e && Stopping(m, n + 1)[1..] == Stopping(m, n);
    assert Election.Apply(s, e) == Election.AfterStop(s, m, 0, Election.Delivered);
  }

  lemma NoStopping(s: Election.State, m: nat)
    ensures Election.IsRun(s, Stopping(m, 0)) && Election.Last(s, Stopping(m, 0)) == s
  {
  }

  lemma ReadTells(st: Store, k: Key)
    ensures var (st', r) := Exec(st, Read(k)); st' == st && r.ok && (r.found.Some? <==> k in st.kvs)
  {
  }

  lemma WriteWrites(st: Store, k: Key, v: Value, lease: LeaseId)
    requires lease in st.leases
    ensures Exec(st, Write(k, v, lease)).0 == WithPut(st, k, v, Some(lease))
  {
  }

  lemma StopReadNext(mem: Election.Member, k: Key, r: Response)
    requires mem.stops == [Election.StopRead(k)] && r.ok
    ensures Election.StopNext(mem, 0, r, true)
         == if r.found.Some? then mem.(stops := [Election.StopPut(k)], stopping := true) else mem.(stops := [])
  {
    assert mem.stops[..0] + mem.stops[1..] == [];
  }

  lemma StopPutNext(mem: Election.Member, k: Key, r: Response)
    requires mem.stops == [Election.StopPut(k)]
    ensures Election.StopNext(mem, 0, r, true) == mem.(stops := [])
  {
  }

  /** A call that finds its key writes it; one that does not leaves everything as it was. */
  lemma StopActs(s: Election.State, m: nat)
    requires m in s.members && s.members[m].lease.Some? && s.members[m].lease.value in s.store.leases
    requires s.members[m].stops == [Election.StopRead(Election.CompleteKey(s.name, s.members[m]))]
    ensures var mem, n := s.members[m], if Election.CompleteKey(s.name, s.members[m]) in s.store.kvs then 2 else 1;
      && Election.IsRun(s, Stopping(m, n))
      && var s' := Election.Last(s, Stopping(m, n));
         if n == 2 then
           && s'.store.kvs
              == s.store.kvs[Election.CompleteKey(s.name, mem) := Entry(Registered(Farewell(s.name, mem)), mem.lease)]
           && s'.members == s.members[m := mem.(stopping := true, stops := [])]
         else s' == s.(members := s.members[m := mem.(stops := [])])
  {
    var mem := s.members[m];
    var k := Election.CompleteKey(s.name, mem);
    var s1 := Election.AfterStop(s, m, 0, Election.Delivered);
    hide Election.CompleteKey, Exec, Election.StopNext;
    var r := Election.Answer(s.store, Read(k));
    assert r.ok && (r.found.Some? <==> k in s.store.kvs) && s1.store == s.store by {
      ReadTells(s.store, k);
    }
    if k in s.store.kvs {
      var mem1 := mem.(stops := [Election.StopPut(k)], stopping := true);
      assert s1.members == s.members[m := mem1] by {
        StopReadNext(mem, k, r);
      }
      var s2 := Election.AfterStop(s1, m, 0, Election.Delivered);
      assert s2.members == s.members[m := mem.(stopping := true, stops := [])] by {
        StopPutNext(mem1, k, Election.Answer(s1.store, Election.StopRequest(s.name, mem1, Election.StopPut(k))));
      }
      assert s2.store == WithPut(s.store, k, Registered(Farewell(s.name, mem)), mem.lease) by {
        WriteWrites(s.store, k, Registered(Farewell(s.name, mem)), mem.lease.value);
      }
      NoStopping(s2, m);
      StoppingStep(s1, m, 0);
      StoppingStep(s, m, 1);
    } else {
      assert s1.members == s.members[m := mem.(stops := [])] by {
        StopReadNext(mem, k, r);
      }
      NoStopping(s1, m);
      StoppingStep(s, m, 0);
    }
  }

  lemma OnlyStopsStop(s: Election.State, e: Election.Step, m: nat)
    requires Election.Enabled(s, e) && !(e.StopStep? && e.m == m)
    requires m in s.members ==> !s.members[m].stopping
    ensures m in Election.Apply(s, e).members ==> !Election.Apply(s, e).members[m].stopping
  {
  }

  /** Everybody else is announced as new: only a GoingStop call makes a session stop. */
  lemma {:induction false} OnlyStoppersStop(s: Election.State, steps: seq<Election.Step>, m: nat)
    requires Election.IsRun(s, steps) && forall e | e in steps :: !(e.StopStep? && e.m == m)
    requires m in s.members ==> !s.members[m].stopping
    ensures var s' := Election.Last(s, steps);
      m in s'.members ==>
        && !s'.members[m].stopping
        && forall k, rev :: Discovery.Classify(Put(k, Election.Json(s'.name, s'.members[m]), rev))
             == [Discovery.SessionEvent(Discovery.Add,
                   Session(s'.name, Election.IdOf(s'.members[m]), s'.members[m].address, false, s'.members[m].lease))]
    decreases |steps|
  {
    if steps != [] {
      OnlyStopsStop(s, steps[0], m);
      OnlyStoppersStop(Election.Apply(s, steps[0]), steps[1..], m);
    }
  }

  // ---------- a key that is taken ----------

  predicate NobodyRemoves(s: Election.State) {
    forall m | m in s.members :: !s.members[m].pc.RegRemove?
  }

  /** What stands under a session's own key is never an earlier session's. */
  lemma NobodyIsOutlived(s: Election.State, m: nat)
    requires SessionsOk(s) && m in s.members
    ensures !Election.OutlivedBy(s, s.members[m])
  {
    NodePrefixIsOwn(s.name);
    var k := NodeKey(s.name, Election.IdOf(s.members[m]));
    if k in s.store.kvs {
      assert Belongs(s, s.store.kvs[k].value);
      assert Discovery.Keyed(NodePrefix(s.name), k, s.store.kvs[k].value);
      NodeKeyInjective(s.name, s.store.kvs[k].value.session.id, Election.IdOf(s.members[m]));
    }
  }

  lemma RemovalComesOfRead(mem: Election.Member, r: Response, got: bool)
    requires !mem.pc.RegRemove?
    ensures Election.MainNext(mem, r, got).pc.RegRemove? ==>
              && mem.pc.RegRead? && r.found.Some? && r.found.value.Registered?
              && r.found.value.session.address == mem.address && r.found.value.session.id < Election.IdOf(mem)
  {
  }

  lemma RemovalIsOfOutlived(s: Election.State, m: nat, reply: Election.Reply)
    requires m in s.members && !s.members[m].pc.RegRemove?
    ensures Election.AfterMain(s, m, reply).members[m].pc.RegRemove? ==> Election.OutlivedBy(s, s.members[m])
  {
    hide Election.MainNext, NodeKey;
    var mem := s.members[m];
    var q := Election.RequestOf(s.name, mem);
    RemovalComesOfRead(mem, Election.Answer(s.store, q), reply == Election.Delivered);
  }

  lemma StepRemovesNobody(s: Election.State, e: Election.Step)
    requires SessionsOk(s) && Election.Enabled(s, e) && NobodyRemoves(s)
    ensures NobodyRemoves(Election.Apply(s, e))
  {
    hide SessionsOk, Exec, Election.MainNext, Election.RequestOf, Election.OutlivedBy, Election.StopRequest,
         Election.Pending, Election.OthersAsk, Lists;
    if e.Main? {
      NobodyIsOutlived(s, e.m);
      RemovalIsOfOutlived(s, e.m, e.reply);
    }
  }

  lemma {:induction false} RunRemovesNobody(s: Election.State, steps: seq<Election.Step>)
    requires SessionsOk(s) && NobodyRemoves(s)
    requires Election.IsRun(s, steps) && forall e | e in steps :: Aside(s.name, e)
    ensures NobodyRemoves(Election.Last(s, steps))
    decreases |steps|
  {
    hide SessionsOk, NobodyRemoves, Election.Enabled, Election.Apply, Aside;
    if steps != [] {
      StepOk(s, steps[0]);
      StepRemovesNobody(s, steps[0]);
      RunRemovesNobody(Election.Apply(s, steps[0]), steps[1..]);
    }
  }

  lemma ReadGoesBack(s: Election.State, m: nat)
    requires SessionsOk(s) && NobodyRemoves(s) && m in s.members
    ensures !s.members[m].pc.RegRemove? && !Election.OutlivedBy(s, s.members[m])
    ensures s.members[m].pc.RegRead? ==> forall reply :: Election.AfterMain(s, m, reply).members[m].pc.RegGrant?
  {
    NobodyIsOutlived(s, m);
    hide SessionsOk, Exec, NodeKey, Election.RequestOf;
    if s.members[m].pc.RegRead? {
      forall reply ensures Election.AfterMain(s, m, reply).members[m].pc.RegGrant? {
        RemovalIsOfOutlived(s, m, reply);
      }
    }
  }

  /** With active/standby no registration ever deletes a key: each session has a key of its own, and one that finds it
      taken waits for the end of a lease it had itself. */
  lemma NothingIsPurged(name: string, before: seq<Election.Step>, m: nat)
    requires name != ID_KEY && Election.IsRun(Election.Init(name), before) && forall e | e in before :: Aside(name, e)
    requires m in Evolved(name, before).members
    ensures var s := Evolved(name, before);
      && !s.members[m].pc.RegRemove? && !Election.OutlivedBy(s, s.members[m])
      && (s.members[m].pc.RegRead? ==> forall reply :: Election.AfterMain(s, m, reply).members[m].pc.RegGrant?)
  {
    InitOk(name);
    RunRemovesNobody(Election.Init(name), before);
    var s := Evolved(name, before);
    hide SessionsOk, NobodyRemoves, Evolved, Aside, Election.IsRun, Election.Last, Election.AfterMain,
         Election.OutlivedBy;
    ReadGoesBack(s, m);
  }

  /** The key under which a registered session that is not in the middle of anything stops. */
  lemma StopKeyStands(s: Election.State, m: nat)
    requires SessionsOk(s) && m in s.members && IsRegistered(s, s.members[m])
    ensures Election.CompleteKey(s.name, s.members[m])
         == if s.members[m].exclusive && Election.Leads(s, m) then s.name else NodeKey(s.name, s.members[m].id.value)
    ensures Election.CompleteKey(s.name, s.members[m]) in s.store.kvs
  {
    hide NodeKey, Discovery.AllKeyed, AllBelong, Election.IdsOk, Election.LeasesOk, Valid;
    var mem := s.members[m];
    assert Election.MemberOk(s.name, mem) && Election.WinnerOk(s, mem) && Stands(s, mem);
    assert mem.standby == Some(true) || mem.standby == Some(false) by {
      assert mem.standby.Some? && (mem.standby.value || !mem.standby.value);
    }
  }

  lemma SameKey(name: string, mem: Election.Member, stops: seq<Election.Stop>)
    ensures Election.CompleteKey(name, mem.(stops := stops)) == Election.CompleteKey(name, mem)
    ensures Farewell(name, mem.(stops := stops)) == Farewell(name, mem)
  {
  }

  /** Every registered session can say goodbye: a GoingStop call that nothing disturbs leaves it stored as stopping,
      under the active key if it leads, and under its own key otherwise. */
  lemma StopGoesThrough(name: string, before: seq<Election.Step>, m: nat)
    requires name != ID_KEY && Election.IsRun(Election.Init(name), before) && forall e | e in before :: Aside(name, e)
    requires var s := Evolved(name, before);
      m in s.members && IsRegistered(s, s.members[m]) && s.members[m].stops == []
    ensures var s := Evolved(name, before);
      var mem, begun := s.members[m], Election.Apply(s, Election.BeginStop(m));
      var k := if mem.exclusive && Election.Leads(s, m) then name else NodeKey(name, mem.id.value);
      && k in s.store.kvs && Election.IsRun(begun, Stopping(m, 2))
      && Election.Last(begun, Stopping(m, 2)).store.kvs
         == s.store.kvs[k := Entry(Registered(Farewell(name, mem)), mem.lease)]
  {
    var s := Evolved(name, before);
    hide SessionsOk, Evolved, Aside, Election.IsRun, Election.Last, Stopping, Election.CompleteKey, Exec, NodeKey,
         Election.Leads, Election.Pending;
    StopKeyStands(s, m);
    var mem := s.members[m];
    var begun := Election.Apply(s, Election.BeginStop(m));
    assert begun.store == s.store && begun.name == s.name;
    assert begun.members[m] == mem.(stops := [Election.StopRead(Election.CompleteKey(s.name, mem))]);
    SameKey(s.name, mem, begun.members[m].stops);
    StopActs(begun, m);
  }
}
