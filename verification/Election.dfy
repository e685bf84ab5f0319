/** Server ids, registration and active/standby election: any number of sessions of one service and of others, their
    goroutines and the store interleaving in atomic steps. */
module Election {
  import opened Bytes
  import opened Etcd

  /** Where the main goroutine of a session is: in Init (Id*), in Register (Reg*), or in ProcessActiveStandBy. */
  datatype Pc =
    | Fresh | IdCheck | IdGet | IdCas(v: nat) | Ready
    | RegGrant | RegCreate | RegRead | RegRemove | Enrolled
    | Electing | Won | Watching(from: nat) | Active
    | Dead

  /** A GoingStop call in progress, with the key it computed when it began. */
  datatype Stop = StopRead(k: Key) | StopPut(k: Key)

  /** A session. `won` records that its election transaction was seen to succeed. */
  datatype Member = Member(
    pc: Pc, exclusive: bool, address: string, id: Option<nat>, lease: Option<LeaseId>,
    standby: Option<bool>, stopping: bool, won: bool, stops: seq<Stop>)

  /** `members` are the sessions of the service `name`. `committed` lists the ids that compare-and-swap transactions
      gave out, replies lost or not; `others` those that sessions of other services got. */
  datatype State = State(
    store: Store, members: map<nat, Member>, committed: seq<nat>, others: seq<nat>, name: string)

  /** A request is carried out and answered, carried out with the answer lost, or not carried out. */
  datatype Reply = Delivered | Lost | Refused

  datatype Step =
    | Join(m: nat, exclusive: bool, address: string)
    | Main(m: nat, reply: Reply)
    | BeginStop(m: nat)
    | StopStep(m: nat, i: nat, reply: Reply)
    | Crash(m: nat)
    | LeaseDies(lease: LeaseId, order: seq<Key>)
    | Compacts(r: nat)
    | Other(q: Request, reply: Reply)
    | ForeignPut(k: Key, v: Value)

  function IdOf(mem: Member): nat {
    if mem.id.Some? then mem.id.value else 0
  }

  function Json(name: string, mem: Member): Value {
    Registered(Session(name, IdOf(mem), mem.address, mem.stopping, mem.lease))
  }

  /** getCompleteKey, with active/standby enabled. */
  function CompleteKey(name: string, mem: Member): Key {
    if !mem.exclusive || mem.standby == Some(true) then NodeKey(name, IdOf(mem)) else name
  }

  /** The request the main goroutine sends next. Register computes its key as a standby. */
  function RequestOf(name: string, mem: Member): Request {
    match mem.pc
    case IdCheck => Create(ID_KEY, Counter(1), None)
    case IdGet => Read(ID_KEY)
    case IdCas(v) => Swap(ID_KEY, Counter(v), Counter(v + 1))
    case RegGrant => Grant
    case RegCreate => Create(NodeKey(name, IdOf(mem)), Json(name, mem), mem.lease)
    case RegRead => Read(NodeKey(name, IdOf(mem)))
    case RegRemove => Remove(NodeKey(name, IdOf(mem)))
    case Electing => Create(name, Json(name, mem), mem.lease)
    case _ => Nothing
  }

  /** How the main goroutine goes on; `got` is false when no answer arrived. */
  function MainNext(mem: Member, r: Response, got: bool): Member {
    var done := got && r.ok;
    match mem.pc
    case Fresh => mem.(pc := IdCheck)
    case IdCheck => mem.(pc := IdGet)
    case IdGet =>
      if !done then mem.(pc := Dead)
      else if r.found.Some? && r.found.value.Counter? then mem.(pc := IdCas(r.found.value.n))
      else mem
    case IdCas(v) =>
      if !done then mem.(pc := Dead)
      else if r.succeeded then mem.(pc := Ready, id := Some(v))
      else mem.(pc := IdGet)
    case Ready => mem.(pc := RegGrant, standby := Some(true))
    case RegGrant => if done then mem.(pc := RegCreate, lease := Some(r.lease)) else mem
    case RegCreate => mem.(pc := if !done then RegGrant else if r.succeeded then Enrolled else RegRead)
    case RegRead =>
      var stale := done && r.found.Some? && r.found.value.Registered?
                   && r.found.value.session.address == mem.address && r.found.value.session.id < IdOf(mem);
      mem.(pc := if stale then RegRemove else RegGrant)
    case RegRemove => mem.(pc := RegGrant)
    case Enrolled => mem.(pc := Electing, standby := Some(true))
    case Electing =>
      if !done then mem.(pc := Enrolled)
      else if r.succeeded then mem.(pc := Won, won := true)
      else mem.(pc := Watching(r.rev))
    case Won => mem.(pc := Active, standby := Some(false))
    case Watching(_) => mem.(pc := Electing)
    case Active => mem.(pc := Electing, standby := Some(true))
    case Dead => mem
  }

  /** A watch of the active key from revision `from` has something to deliver: an event at or after it, or the notice
      that the revision was compacted. */
  ghost predicate Pending(s: Store, name: Key, from: nat) {
    from < s.compacted || exists i :: 0 <= i < |s.log| && s.log[i].key == name && s.log[i].rev >= from
  }

  /** Keys that are neither the active key of this service nor the common counter: all that other services use. */
  predicate Foreign(name: string, k: Key) {
    k != ID_KEY && k != name
  }

  /** What sessions of other services ask for: anything about foreign keys, leases, and ids from the common counter. */
  predicate OthersAsk(name: string, q: Request) {
    match q
    case Create(k, v, lease) => Foreign(name, k) || (k == ID_KEY && v == Counter(1) && lease == None)
    case Swap(k, old_, new_) => Foreign(name, k) || (k == ID_KEY && old_.Counter? && new_ == Counter(old_.n + 1))
    case Write(k, _, _) => Foreign(name, k)
    case Remove(k) => Foreign(name, k)
    case _ => true
  }

  ghost predicate Enabled(s: State, step: Step) {
    match step
    case Join(m, _, _) => m !in s.members
    case Main(m, reply) =>
      && m in s.members && s.members[m].pc != Dead
      && (s.members[m].pc.Watching? && reply == Delivered ==> Pending(s.store, s.name, s.members[m].pc.from))
    case BeginStop(m) => m in s.members && s.members[m].pc != Dead && s.members[m].lease.Some?
    case StopStep(m, i, _) => m in s.members && i < |s.members[m].stops| && s.members[m].lease.Some?
    case Crash(m) => m in s.members
    case LeaseDies(lease, order) => lease in s.store.leases && Lists(s.store, lease, order)
    case Compacts(r) => s.store.compacted <= r <= s.store.rev
    case Other(q, _) => OthersAsk(s.name, q)
    case ForeignPut(k, _) => Foreign(s.name, k)
  }

  function Execute(s: Store, q: Request, reply: Reply): Store {
    if reply == Refused then s else Exec(s, q).0
  }

  function Answer(s: Store, q: Request): Response {
    Exec(s, q).1
  }

  function AfterMain(s: State, m: nat, reply: Reply): State
    requires m in s.members
  {
    var mem := s.members[m];
    var q := RequestOf(s.name, mem);
    var gave := mem.pc.IdCas? && reply != Refused && Answer(s.store, q).succeeded;
    s.(store := Execute(s.store, q, reply),
       members := s.members[m := MainNext(mem, Answer(s.store, q), reply == Delivered)],
       committed := if gave then s.committed + [mem.pc.v] else s.committed)
  }

  function StopRequest(name: string, mem: Member, stop: Stop): Request
    requires mem.lease.Some?
  {
    match stop
    case StopRead(k) => Read(k)
    case StopPut(k) => Write(k, Json(name, mem), mem.lease.value)
  }

  /** A GoingStop call reads its key; if there is one, the session is stopping and the call writes it back under the
      session's lease. */
  function StopNext(mem: Member, i: nat, r: Response, got: bool): Member
    requires i < |mem.stops|
  {
    var rest := mem.stops[..i] + mem.stops[i + 1..];
    match mem.stops[i]
    case StopRead(k) =>
      if got && r.ok && r.found.Some? then mem.(stops := mem.stops[i := StopPut(k)], stopping := true)
      else mem.(stops := rest)
    case StopPut(_) => mem.(stops := rest)
  }

  function AfterStop(s: State, m: nat, i: nat, reply: Reply): State
    requires m in s.members && i < |s.members[m].stops| && s.members[m].lease.Some?
  {
    var mem := s.members[m];
    var q := StopRequest(s.name, mem, mem.stops[i]);
    s.(store := Execute(s.store, q, reply),
       members := s.members[m := StopNext(mem, i, Answer(s.store, q), reply == Delivered)])
  }

  /** Whether the request takes an id. */
  predicate TakesId(q: Request) {
    q.Swap? && q.k == ID_KEY && q.old_.Counter?
  }

  function AfterOther(s: State, q: Request, reply: Reply): State {
    var gave := TakesId(q) && reply != Refused && Answer(s.store, q).succeeded;
    s.(store := Execute(s.store, q, reply),
       committed := if gave then s.committed + [q.old_.n] else s.committed,
       others := if gave && reply == Delivered then s.others + [q.old_.n] else s.others)
  }

  ghost function Apply(s: State, step: Step): State
    requires Enabled(s, step)
  {
    match step
    case Join(m, exclusive, address) =>
      s.(members := s.members[m := Member(Fresh, exclusive, address, None, None, None, false, false, [])])
    case Main(m, reply) => AfterMain(s, m, reply)
    case BeginStop(m) =>
      var mem := s.members[m];
      s.(members := s.members[m := mem.(stops := mem.stops + [StopRead(CompleteKey(s.name, mem))])])
    case StopStep(m, i, reply) => AfterStop(s, m, i, reply)
    case Crash(m) => s.(members := s.members[m := s.members[m].(pc := Dead, stops := [])])
    case LeaseDies(lease, order) => s.(store := LeaseEnds(s.store, lease, order))
    case Compacts(r) => s.(store := s.store.(compacted := r))
    case Other(q, reply) => AfterOther(s, q, reply)
    case ForeignPut(k, v) => s.(store := WithPut(s.store, k, v, None))
  }

  function Init(name: string): State {
    State(Empty(), map[], [], [], name)
  }

  // ---------- invariants ----------

  /** The ids given out are 1, 2, 3, ... and the counter holds the next one. */
  ghost predicate IdsOk(s: State) {
    && (if ID_KEY in s.store.kvs then s.store.kvs[ID_KEY] == Entry(Counter(|s.committed| + 1), None)
        else s.committed == [])
    && (forall i | 0 <= i < |s.committed| :: s.committed[i] == i + 1)
    && (forall m | m in s.members && s.members[m].id.Some? :: 1 <= s.members[m].id.value <= |s.committed|)
    && (forall m, n | m in s.members && n in s.members && m != n && s.members[m].id.Some? ::
          s.members[m].id != s.members[n].id)
    && (forall i | 0 <= i < |s.others| :: 1 <= s.others[i] <= |s.committed|)
    && (forall i, j | 0 <= i < j < |s.others| :: s.others[i] != s.others[j])
    && (forall m, i | m in s.members && 0 <= i < |s.others| :: s.members[m].id != Some(s.others[i]))
  }

  /** No two sessions share a lease. */
  ghost predicate LeasesOk(s: State) {
    && (forall m | m in s.members && s.members[m].lease.Some? :: s.members[m].lease.value < s.store.granted)
    && (forall m, n | m in s.members && n in s.members && m != n && s.members[m].lease.Some? ::
          s.members[m].lease != s.members[n].lease)
  }

  predicate Early(pc: Pc) {
    pc.Fresh? || pc.IdCheck? || pc.IdGet? || pc.IdCas? || pc.Ready?
    || pc.RegGrant? || pc.RegCreate? || pc.RegRead? || pc.RegRemove?
  }

  /** How victory, standby mode and lease go with the program point. */
  ghost predicate PhaseOk(mem: Member) {
    && (mem.won ==> !Early(mem.pc) && mem.lease.Some?)
    && (mem.pc in {Won, Active} ==> mem.won)
    && (mem.pc == Active ==> mem.standby == Some(false))
    && (mem.standby == Some(false) ==> mem.won && mem.pc in {Active, Dead})
    && (mem.standby == None ==> mem.lease == None)
    && (mem.pc in {RegGrant, RegCreate, RegRead, RegRemove} ==> mem.standby.Some?)
  }

  /** What a session's own fields say about each other. */
  ghost predicate MemberOk(name: string, mem: Member) {
    && PhaseOk(mem)
    && (mem.pc == RegCreate || (!Early(mem.pc) && mem.pc != Dead) ==> mem.lease.Some?)
    && (forall i | 0 <= i < |mem.stops| :: mem.stops[i].k != ID_KEY && (mem.stops[i].k == name ==> mem.won))
    && (forall i | 0 <= i < |mem.stops| :: mem.stops[i].StopPut? ==> mem.stopping)
  }

  /** A winner whose lease lives has the active key. */
  ghost predicate WinnerOk(s: State, mem: Member) {
    mem.won && mem.lease.Some? && mem.lease.value in s.store.leases ==> Attached(s.store, s.name, mem.lease.value)
  }

  /** A watch starts at a revision at which the active key was there. */
  ghost predicate WatchOk(s: State, mem: Member) {
    mem.pc.Watching? ==> mem.pc.from <= s.store.rev && s.name in Replay(UpTo(s.store.log, mem.pc.from))
  }

  ghost predicate Inv(s: State) {
    && s.name != ID_KEY
    && Valid(s.store)
    && IdsOk(s)
    && LeasesOk(s)
    && forall m | m in s.members ::
         MemberOk(s.name, s.members[m]) && WinnerOk(s, s.members[m]) && WatchOk(s, s.members[m])
  }

  lemma InitInv(name: string)
    requires name != ID_KEY
    ensures Inv(Init(name))
  {
  }

  // ---------- ids and leases, apart from everything else ----------

  /** Whoever has an id in `s'` had it in `s`. */
  ghost predicate IdsFrom(s: State, s': State) {
    forall m | m in s'.members && s'.members[m].id.Some? :: m in s.members && s.members[m].id == s'.members[m].id
  }

  /** The counter stays, or is set up. */
  ghost predicate CounterStays(s: Store, s': Store) {
    if ID_KEY in s.kvs then ID_KEY in s'.kvs && s'.kvs[ID_KEY] == s.kvs[ID_KEY]
    else ID_KEY in s'.kvs ==> s'.kvs[ID_KEY] == Entry(Counter(1), None)
  }

  /** The counter stands at `v` and moves on. */
  ghost predicate CounterGives(s: Store, s': Store, v: nat) {
    && ID_KEY in s.kvs && s.kvs[ID_KEY].value == Counter(v)
    && ID_KEY in s'.kvs && s'.kvs[ID_KEY] == Entry(Counter(v + 1), None)
  }

  lemma IdsStay(s: State, s': State)
    requires IdsOk(s) && IdsFrom(s, s') && CounterStays(s.store, s'.store)
    requires s'.committed == s.committed && s'.others == s.others
    ensures IdsOk(s')
  {
  }

  /** One id is given out, to a session of the service, to one of another or, its reply lost, to nobody. */
  lemma IdsGiven(s: State, s': State, v: nat, m: nat)
    requires IdsOk(s) && CounterGives(s.store, s'.store, v) && s'.committed == s.committed + [v]
    requires s'.others == s.others || s'.others == s.others + [v]
    requires forall n | n in s'.members && s'.members[n].id.Some? ::
               (n in s.members && s.members[n].id == s'.members[n].id)
               || (n == m && s'.members[n].id == Some(v) && s'.others == s.others)
    ensures IdsOk(s')
  {
    assert v == |s.committed| + 1;
  }

  lemma LeasesStay(s: State, s': State)
    requires LeasesOk(s) && s.store.granted <= s'.store.granted
    requires forall m | m in s'.members && s'.members[m].lease.Some? ::
               m in s.members && s.members[m].lease == s'.members[m].lease
    ensures LeasesOk(s')
  {
  }

  // ---------- what a request does to the active key and to the past ----------

  /** A request that cannot take the active key away from a living lease. */
  ghost predicate Gentle(name: string, s: Store, q: Request) {
    && q != Remove(name)
    && !(q.Swap? && q.k == name)
    && (q.Write? && q.k == name && q.to in s.leases ==> Attached(s, name, q.to))
  }

  lemma GentleKeepsActive(name: string, s: Store, q: Request, lease: LeaseId)
    requires Gentle(name, s, q) && Attached(s, name, lease)
    ensures Attached(Exec(s, q).0, name, lease)
  {
  }

  lemma RequestIsGentle(name: string, s: Store, mem: Member)
    requires name != ID_KEY
    ensures Gentle(name, s, RequestOf(name, mem))
  {
    KeysDistinct(name, IdOf(mem));
  }

  /** The put of GoingStop is unconditional, but it goes to the active key only for a winner, whose lease - if it
      lives - holds that key already; a dead lease makes it fail. */
  lemma StopIsGentle(s: State, mem: Member, i: nat)
    requires MemberOk(s.name, mem) && WinnerOk(s, mem) && mem.lease.Some? && i < |mem.stops|
    ensures Gentle(s.name, s.store, StopRequest(s.name, mem, mem.stops[i]))
  {
  }

  /** A gentle request leaves the standing of every session as it was. */
  lemma RequestKeepsStanding(s: State, q: Request, reply: Reply, mem: Member, s': State)
    requires Valid(s.store) && Gentle(s.name, s.store, q) && WinnerOk(s, mem) && WatchOk(s, mem)
    requires mem.lease.Some? ==> mem.lease.value < s.store.granted
    requires s'.store == Execute(s.store, q, reply) && s'.name == s.name
    ensures WinnerOk(s', mem) && WatchOk(s', mem)
  {
    if reply != Refused {
      ExecKeepsValid(s.store, q);
      if mem.won && mem.lease.Some? && mem.lease.value in s'.store.leases {
        GentleKeepsActive(s.name, s.store, q, mem.lease.value);
      }
      if mem.pc.Watching? {
        ExecKeepsPast(s.store, q, mem.pc.from);
      }
    }
  }

  // ---------- the main goroutine ----------

  lemma NextPhaseOk(mem: Member, r: Response, got: bool)
    requires PhaseOk(mem) && (mem.pc == RegCreate || (!Early(mem.pc) && mem.pc != Dead) ==> mem.lease.Some?)
    ensures PhaseOk(MainNext(mem, r, got))
  {
  }

  lemma NextIsAttached(mem: Member, r: Response, got: bool)
    requires mem.pc == RegCreate || (!Early(mem.pc) && mem.pc != Dead) ==> mem.lease.Some?
    ensures var mem' := MainNext(mem, r, got);
      mem'.pc == RegCreate || (!Early(mem'.pc) && mem'.pc != Dead) ==> mem'.lease.Some?
  {
  }

  lemma NextKeepsWon(mem: Member, r: Response, got: bool)
    ensures mem.won ==> MainNext(mem, r, got).won
  {
  }

  lemma NextMemberOk(name: string, mem: Member, r: Response, got: bool)
    requires MemberOk(name, mem)
    ensures MemberOk(name, MainNext(mem, r, got))
  {
    hide PhaseOk;
    assert MainNext(mem, r, got).stops == mem.stops && MainNext(mem, r, got).stopping == mem.stopping;
    NextPhaseOk(mem, r, got);
    NextIsAttached(mem, r, got);
    NextKeepsWon(mem, r, got);
  }

  /** Leases, ids, victories and watches come from the answers of four requests and nowhere else. */
  lemma NextSources(mem: Member, r: Response, got: bool)
    ensures var mem' := MainNext(mem, r, got);
            && (mem'.lease == mem.lease || (mem.pc.RegGrant? && got && r.ok && mem'.lease == Some(r.lease)))
            && (mem'.id == mem.id || (mem.pc.IdCas? && got && r.ok && r.succeeded && mem'.id == Some(mem.pc.v)))
            && (mem'.won == mem.won || (mem.pc.Electing? && got && r.ok && r.succeeded && mem'.lease == mem.lease))
  {
  }

  lemma WatchSource(mem: Member, r: Response, got: bool)
    requires MainNext(mem, r, got).pc.Watching?
    ensures mem.pc.Electing? && got && r.ok && !r.succeeded && MainNext(mem, r, got).pc.from == r.rev
  {
  }

  lemma WonMeansAttached(s: Store, name: string, v: Value, lease: Option<LeaseId>)
    ensures var (s', r) := Exec(s, Create(name, v, lease));
            r.ok && r.succeeded && lease.Some? ==> Attached(s', name, lease.value)
  {
  }

  lemma MainKeepsWinner(s: State, m: nat, reply: Reply)
    requires Inv(s) && m in s.members
    ensures WinnerOk(AfterMain(s, m, reply), AfterMain(s, m, reply).members[m])
  {
    hide Exec, MainNext, Valid, IdsOk;
    var mem, s' := s.members[m], AfterMain(s, m, reply);
    var q := RequestOf(s.name, mem);
    assert MemberOk(s.name, mem) && WinnerOk(s, mem) && WatchOk(s, mem);
    NextSources(mem, Answer(s.store, q), reply == Delivered);
    if mem.won {
      RequestIsGentle(s.name, s.store, mem);
      RequestKeepsStanding(s, q, reply, mem, s');
      assert !mem.pc.RegGrant?;
    } else if mem.pc.Electing? {
      WonMeansAttached(s.store, s.name, Json(s.name, mem), mem.lease);
    }
  }

  /** A lost election answers with a revision at which the active key was there. */
  lemma LostMeansPresent(s: Store, name: string, v: Value, lease: Option<LeaseId>)
    requires Valid(s)
    ensures var (s', r) := Exec(s, Create(name, v, lease));
            r.ok && !r.succeeded ==> s' == s && r.rev == s.rev && name in Replay(UpTo(s.log, s.rev))
  {
    AllUpTo(s.log, s.rev);
    assert name in ContentOf(s) <==> name in s.kvs;
  }

  lemma MainKeepsWatch(s: State, m: nat, reply: Reply)
    requires Inv(s) && m in s.members
    ensures WatchOk(AfterMain(s, m, reply), AfterMain(s, m, reply).members[m])
  {
    hide MainNext, IdsOk, LeasesOk, MemberOk, WinnerOk, UpTo, Replay;
    var mem := s.members[m];
    if AfterMain(s, m, reply).members[m].pc.Watching? {
      WatchSource(mem, Answer(s.store, RequestOf(s.name, mem)), reply == Delivered);
      LostMeansPresent(s.store, s.name, Json(s.name, mem), mem.lease);
    }
  }

  lemma GrantIsFresh(s: Store, q: Request)
    ensures s.granted <= Exec(s, q).0.granted
    ensures q.Grant? ==> Exec(s, q).1.lease == s.granted < Exec(s, q).0.granted
  {
  }

  lemma MainKeepsLeases(s: State, m: nat, reply: Reply)
    requires Inv(s) && m in s.members
    ensures LeasesOk(AfterMain(s, m, reply))
  {
    hide Exec, MainNext, Valid, IdsOk, MemberOk, WinnerOk, WatchOk;
    var mem := s.members[m];
    var q := RequestOf(s.name, mem);
    NextSources(mem, Answer(s.store, q), reply == Delivered);
    GrantIsFresh(s.store, q);
  }

  /** Only the initialising create and the compare-and-swap touch the counter; the latter one step up. */
  lemma CounterMoves(name: string, s: Store, mem: Member)
    requires name != ID_KEY
    ensures var (s', r) := Exec(s, RequestOf(name, mem));
            if mem.pc.IdCas? && r.succeeded then CounterGives(s, s', mem.pc.v) else CounterStays(s, s')
  {
    KeysDistinct(name, IdOf(mem));
  }

  lemma MainKeepsIds(s: State, m: nat, reply: Reply)
    requires Inv(s) && m in s.members
    ensures IdsOk(AfterMain(s, m, reply))
  {
    hide Exec, MainNext, RequestOf, IdsOk, LeasesOk, MemberOk, WinnerOk, WatchOk, Valid;
    var mem, s' := s.members[m], AfterMain(s, m, reply);
    var q := RequestOf(s.name, mem);
    CounterMoves(s.name, s.store, mem);
    NextSources(mem, Answer(s.store, q), reply == Delivered);
    if mem.pc.IdCas? && reply != Refused && Answer(s.store, q).succeeded {
      IdsGiven(s, s', mem.pc.v, m);
    } else {
      IdsStay(s, s');
    }
  }

  lemma MainKeepsOther(s: State, m: nat, reply: Reply, n: nat)
    requires Inv(s) && m in s.members && n in s.members
    ensures WinnerOk(AfterMain(s, m, reply), s.members[n]) && WatchOk(AfterMain(s, m, reply), s.members[n])
  {
    RequestIsGentle(s.name, s.store, s.members[m]);
    RequestKeepsStanding(s, RequestOf(s.name, s.members[m]), reply, s.members[n], AfterMain(s, m, reply));
  }

  lemma MainKeepsInv(s: State, m: nat, reply: Reply)
    requires Inv(s) && m in s.members
    ensures Inv(AfterMain(s, m, reply))
  {
    hide Exec, MainNext, RequestOf, IdsOk, LeasesOk, MemberOk, WinnerOk, WatchOk, Valid;
    var s' := AfterMain(s, m, reply);
    ExecKeepsValid(s.store, RequestOf(s.name, s.members[m]));
    MainKeepsIds(s, m, reply);
    MainKeepsLeases(s, m, reply);
    NextMemberOk(s.name, s.members[m], Answer(s.store, RequestOf(s.name, s.members[m])), reply == Delivered);
    MainKeepsWinner(s, m, reply);
    MainKeepsWatch(s, m, reply);
    forall n | n in s'.members && n != m
      ensures MemberOk(s'.name, s'.members[n]) && WinnerOk(s', s'.members[n]) && WatchOk(s', s'.members[n])
    {
      MainKeepsOther(s, m, reply, n);
    }
  }

  // ---------- GoingStop ----------

  lemma StopKeepsMember(s: State, mem: Member, i: nat, r: Response, got: bool)
    requires MemberOk(s.name, mem) && i < |mem.stops|
    ensures MemberOk(s.name, StopNext(mem, i, r, got))
    ensures var mem' := StopNext(mem, i, r, got);
            mem'.lease == mem.lease && mem'.id == mem.id && mem'.won == mem.won && mem'.pc == mem.pc
  {
  }

  lemma StopLeavesCounter(name: string, s: Store, mem: Member, stop: Stop)
    requires mem.lease.Some? && stop.k != ID_KEY
    ensures var s' := Exec(s, StopRequest(name, mem, stop)).0; CounterStays(s, s') && s'.granted == s.granted
  {
  }

  lemma StopKeepsIds(s: State, m: nat, i: nat, reply: Reply)
    requires Inv(s) && Enabled(s, StopStep(m, i, reply))
    ensures IdsOk(AfterStop(s, m, i, reply)) && LeasesOk(AfterStop(s, m, i, reply))
  {
    hide Exec, StopRequest, StopNext, Valid, WinnerOk, WatchOk, IdsOk, LeasesOk;
    var mem, s' := s.members[m], AfterStop(s, m, i, reply);
    assert MemberOk(s.name, mem);
    StopKeepsMember(s, mem, i, Answer(s.store, StopRequest(s.name, mem, mem.stops[i])), reply == Delivered);
    StopLeavesCounter(s.name, s.store, mem, mem.stops[i]);
    IdsStay(s, s');
    LeasesStay(s, s');
  }

  lemma StopKeepsStanding(s: State, m: nat, i: nat, reply: Reply, n: nat)
    requires Inv(s) && Enabled(s, StopStep(m, i, reply)) && n in s.members
    ensures WinnerOk(AfterStop(s, m, i, reply), s.members[n]) && WatchOk(AfterStop(s, m, i, reply), s.members[n])
  {
    assert MemberOk(s.name, s.members[m]) && WinnerOk(s, s.members[m]);
    StopIsGentle(s, s.members[m], i);
    var q := StopRequest(s.name, s.members[m], s.members[m].stops[i]);
    RequestKeepsStanding(s, q, reply, s.members[n], AfterStop(s, m, i, reply));
  }

  lemma StopKeepsInv(s: State, m: nat, i: nat, reply: Reply)
    requires Inv(s) && Enabled(s, StopStep(m, i, reply))
    ensures Inv(AfterStop(s, m, i, reply))
  {
    hide Exec, StopRequest, StopNext, IdsOk, LeasesOk, MemberOk, Valid;
    var mem, s' := s.members[m], AfterStop(s, m, i, reply);
    var q := StopRequest(s.name, mem, mem.stops[i]);
    ExecKeepsValid(s.store, q);
    StopKeepsIds(s, m, i, reply);
    StopKeepsMember(s, mem, i, Answer(s.store, q), reply == Delivered);
    forall n | n in s'.members
      ensures MemberOk(s'.name, s'.members[n]) && WinnerOk(s', s'.members[n]) && WatchOk(s', s'.members[n])
    {
      assert MemberOk(s.name, s.members[n]);
      StopKeepsStanding(s, m, i, reply, n);
    }
  }

  // ---------- the environment ----------

  /** A foreign session, the server or time changes the store: what matters stays. */
  lemma StoreChangeKeepsInv(s: State, st: Store)
    requires Inv(s) && Valid(st)
    requires ID_KEY in st.kvs <==> ID_KEY in s.store.kvs
    requires ID_KEY in s.store.kvs ==> st.kvs[ID_KEY] == s.store.kvs[ID_KEY]
    requires st.granted == s.store.granted && st.leases <= s.store.leases && s.store.rev <= st.rev
    requires forall l | l in st.leases && Attached(s.store, s.name, l) :: Attached(st, s.name, l)
    requires forall r: nat | r <= s.store.rev :: UpTo(st.log, r) == UpTo(s.store.log, r)
    ensures Inv(s.(store := st))
  {
    var s' := s.(store := st);
    forall n | n in s'.members
      ensures MemberOk(s'.name, s'.members[n]) && WinnerOk(s', s'.members[n]) && WatchOk(s', s'.members[n])
    {
      assert MemberOk(s.name, s.members[n]) && WinnerOk(s, s.members[n]) && WatchOk(s, s.members[n]);
    }
  }

  lemma LeaseDeathKeepsInv(s: State, lease: LeaseId, order: seq<Key>)
    requires Inv(s) && Enabled(s, LeaseDies(lease, order))
    ensures Inv(Apply(s, LeaseDies(lease, order)))
  {
    var st := LeaseEnds(s.store, lease, order);
    LeaseEndKeepsValid(s.store, lease, order);
    forall r: nat | r <= s.store.rev ensures UpTo(st.log, r) == UpTo(s.store.log, r) {
      LeaseEndKeepsPast(s.store, lease, order, r);
    }
    if ID_KEY in s.store.kvs {
      LeaseEndKeepsOthers(s.store, lease, order, ID_KEY);
    }
    forall l | l in st.leases && Attached(s.store, s.name, l) ensures Attached(st, s.name, l) {
      LeaseEndKeepsOthers(s.store, lease, order, s.name);
    }
    StoreChangeKeepsInv(s, st);
  }

  lemma ForeignPutKeepsInv(s: State, k: Key, v: Value)
    requires Inv(s) && Enabled(s, ForeignPut(k, v))
    ensures Inv(Apply(s, ForeignPut(k, v)))
  {
    var st := WithPut(s.store, k, v, None);
    PutKeepsValid(s.store, k, v, None);
    forall r: nat | r <= s.store.rev ensures UpTo(st.log, r) == UpTo(s.store.log, r) {
      PutKeepsPast(s.store, k, v, None, r);
    }
    StoreChangeKeepsInv(s, st);
  }

  lemma OthersAreGentle(name: string, s: Store, q: Request)
    requires OthersAsk(name, q) && name != ID_KEY
    ensures Gentle(name, s, q)
  {
  }

  lemma OthersMoveCounter(name: string, s: Store, q: Request)
    requires OthersAsk(name, q)
    ensures var (s', r) := Exec(s, q);
            if TakesId(q) && r.succeeded then CounterGives(s, s', q.old_.n) else CounterStays(s, s')
  {
  }

  lemma OtherKeepsIds(s: State, q: Request, reply: Reply)
    requires IdsOk(s) && OthersAsk(s.name, q)
    ensures IdsOk(AfterOther(s, q, reply))
  {
    hide Exec, IdsOk;
    OthersMoveCounter(s.name, s.store, q);
    if TakesId(q) && reply != Refused && Answer(s.store, q).succeeded {
      IdsGiven(s, AfterOther(s, q, reply), q.old_.n, 0);
    } else {
      IdsStay(s, AfterOther(s, q, reply));
    }
  }

  lemma OtherKeepsInv(s: State, q: Request, reply: Reply)
    requires Inv(s) && OthersAsk(s.name, q)
    ensures Inv(AfterOther(s, q, reply))
  {
    hide Exec, IdsOk, OthersAsk, Gentle;
    var s' := AfterOther(s, q, reply);
    ExecKeepsValid(s.store, q);
    OtherKeepsIds(s, q, reply);
    GrantIsFresh(s.store, q);
    OthersAreGentle(s.name, s.store, q);
    forall n | n in s'.members
      ensures MemberOk(s'.name, s'.members[n]) && WinnerOk(s', s'.members[n]) && WatchOk(s', s'.members[n])
    {
      RequestKeepsStanding(s, q, reply, s.members[n], s');
    }
  }

  lemma CompactionKeepsInv(s: State, r: nat)
    requires Inv(s) && Enabled(s, Compacts(r))
    ensures Inv(Apply(s, Compacts(r)))
  {
    StoreChangeKeepsInv(s, s.store.(compacted := r));
  }

  /** A session changes fields that concern nobody else. */
  lemma MemberChangeKeepsInv(s: State, m: nat, mem: Member)
    requires Inv(s) && m in s.members && MemberOk(s.name, mem)
    requires mem.id == s.members[m].id && mem.lease == s.members[m].lease && mem.won == s.members[m].won
    requires mem.pc.Watching? ==> mem.pc == s.members[m].pc
    ensures Inv(s.(members := s.members[m := mem]))
  {
    hide IdsOk, LeasesOk, MemberOk, Valid, Attached, Replay, UpTo;
    var s' := s.(members := s.members[m := mem]);
    IdsStay(s, s');
    LeasesStay(s, s');
    assert WinnerOk(s, s.members[m]) && WatchOk(s, s.members[m]);
    forall n | n in s'.members
      ensures MemberOk(s'.name, s'.members[n]) && WinnerOk(s', s'.members[n]) && WatchOk(s', s'.members[n])
    {
      if n != m {
        assert MemberOk(s.name, s.members[n]) && WinnerOk(s, s.members[n]) && WatchOk(s, s.members[n]);
      }
    }
  }

  lemma BeginStopKeepsInv(s: State, m: nat)
    requires Inv(s) && Enabled(s, BeginStop(m))
    ensures Inv(Apply(s, BeginStop(m)))
  {
    var mem := s.members[m];
    assert MemberOk(s.name, mem);
    KeysDistinct(s.name, IdOf(mem));
    var k := CompleteKey(s.name, mem);
    if k == s.name {
      assert mem.standby.Some? && mem.standby != Some(true);
      assert !mem.standby.value;
    }
    var stops := mem.stops + [StopRead(k)];
    forall i | 0 <= i < |stops| ensures stops[i].k != ID_KEY && (stops[i].k == s.name ==> mem.won) {
      if i < |mem.stops| {
        assert stops[i] == mem.stops[i];
      }
    }
    MemberChangeKeepsInv(s, m, mem.(stops := stops));
  }

  lemma CrashKeepsInv(s: State, m: nat)
    requires Inv(s) && Enabled(s, Crash(m))
    ensures Inv(Apply(s, Crash(m)))
  {
    assert MemberOk(s.name, s.members[m]);
    MemberChangeKeepsInv(s, m, s.members[m].(pc := Dead, stops := []));
  }

  lemma JoinKeepsInv(s: State, m: nat, exclusive: bool, address: string)
    requires Inv(s) && Enabled(s, Join(m, exclusive, address))
    ensures Inv(Apply(s, Join(m, exclusive, address)))
  {
    hide IdsOk, LeasesOk, Valid, Attached, Replay, UpTo;
    var s' := Apply(s, Join(m, exclusive, address));
    IdsStay(s, s');
    LeasesStay(s, s');
    forall n | n in s'.members
      ensures MemberOk(s'.name, s'.members[n]) && WinnerOk(s', s'.members[n]) && WatchOk(s', s'.members[n])
    {
      if n != m {
        assert MemberOk(s.name, s.members[n]) && WinnerOk(s, s.members[n]) && WatchOk(s, s.members[n]);
      }
    }
  }

  lemma StepKeepsInv(s: State, step: Step)
    requires Inv(s) && Enabled(s, step)
    ensures Inv(Apply(s, step))
  {
    match step {
      case Main(m, reply) => MainKeepsInv(s, m, reply);
      case StopStep(m, i, reply) => StopKeepsInv(s, m, i, reply);
      case LeaseDies(lease, order) => LeaseDeathKeepsInv(s, lease, order);
      case ForeignPut(k, v) => ForeignPutKeepsInv(s, k, v);
      case Other(q, reply) => OtherKeepsInv(s, q, reply);
      case Compacts(r) => CompactionKeepsInv(s, r);
      case Join(m, exclusive, address) => JoinKeepsInv(s, m, exclusive, address);
      case BeginStop(m) => BeginStopKeepsInv(s, m);
      case Crash(m) => CrashKeepsInv(s, m);
    }
  }

  // ---------- whole runs ----------

  ghost predicate IsRun(s: State, steps: seq<Step>)
    decreases |steps|
  {
    steps == [] || (Enabled(s, steps[0]) && IsRun(Apply(s, steps[0]), steps[1..]))
  }

  ghost function Last(s: State, steps: seq<Step>): State
    requires IsRun(s, steps)
    decreases |steps|
  {
    if steps == [] then s else Last(Apply(s, steps[0]), steps[1..])
  }

  lemma {:induction false} RunKeepsInv(s: State, steps: seq<Step>)
    requires Inv(s) && IsRun(s, steps)
    ensures Inv(Last(s, steps)) && Last(s, steps).name == s.name
    decreases |steps|
  {
    if steps != [] {
      StepKeepsInv(s, steps[0]);
      RunKeepsInv(Apply(s, steps[0]), steps[1..]);
    }
  }

  /** A session whose lease lives and that has left STANDBY. */
  predicate Leads(s: State, m: nat) {
    m in s.members && s.members[m].standby == Some(false)
    && s.members[m].lease.Some? && s.members[m].lease.value in s.store.leases
  }

  /** Election safety: in every reachable state at most one session with a living lease has left STANDBY, and the
      active key is attached to its lease. */
  lemma AtMostOneLeader(name: string, steps: seq<Step>, m: nat, n: nat)
    requires name != ID_KEY && IsRun(Init(name), steps)
    requires Leads(Last(Init(name), steps), m)
    ensures var s := Last(Init(name), steps); Attached(s.store, name, s.members[m].lease.value)
    ensures Leads(Last(Init(name), steps), n) ==> m == n
  {
    InitInv(name);
    RunKeepsInv(Init(name), steps);
    var s := Last(Init(name), steps);
    assert MemberOk(s.name, s.members[m]) && WinnerOk(s, s.members[m]);
    if Leads(s, n) {
      assert MemberOk(s.name, s.members[n]) && WinnerOk(s, s.members[n]);
    }
  }

  /** Server ids: under any interleaving, lost replies included, no two sessions of any services get the same id, and
      the ids given out so far are exactly 1 up to the counter minus one. */
  lemma IdsAreUniqueAndDense(name: string, steps: seq<Step>, m: nat, n: nat)
    requires name != ID_KEY && IsRun(Init(name), steps)
    ensures var s := Last(Init(name), steps);
            && (m in s.members && n in s.members && m != n && s.members[m].id.Some? ==>
                  s.members[m].id != s.members[n].id)
            && (m in s.members && s.members[m].id.Some? ==>
                  s.members[m].id.value in s.committed && s.members[m].id.value !in s.others)
            && (forall i, j | 0 <= i < j < |s.others| :: s.others[i] != s.others[j])
            && (forall i | 0 <= i < |s.others| :: s.others[i] in s.committed)
            && (forall i | 0 <= i < |s.committed| :: s.committed[i] == i + 1)
            && (ID_KEY in s.store.kvs ==> s.store.kvs[ID_KEY].value == Counter(|s.committed| + 1))
            && (ID_KEY !in s.store.kvs ==> s.committed == [])
  {
    InitInv(name);
    RunKeepsInv(Init(name), steps);
    var s := Last(Init(name), steps);
    if m in s.members && s.members[m].id.Some? {
      assert s.committed[s.members[m].id.value - 1] == s.members[m].id.value;
    }
    forall i | 0 <= i < |s.others| ensures s.others[i] in s.committed {
      assert s.committed[s.others[i] - 1] == s.others[i];
    }
  }

  /** No hand-over is lost: a standby blocked on its watch - nothing pending - has had the active key in front of it
      at every revision since the one at which its own transaction lost. */
  lemma NoLostHandOver(name: string, steps: seq<Step>, m: nat, r: nat)
    requires name != ID_KEY && IsRun(Init(name), steps)
    requires var s := Last(Init(name), steps);
             && m in s.members && s.members[m].pc.Watching? && !Pending(s.store, name, s.members[m].pc.from)
             && s.members[m].pc.from <= r <= s.store.rev
    ensures var s := Last(Init(name), steps);
            name in s.store.kvs && name in Replay(UpTo(s.store.log, r))
  {
    InitInv(name);
    RunKeepsInv(Init(name), steps);
    var s := Last(Init(name), steps);
    var from := s.members[m].pc.from;
    assert WatchOk(s, s.members[m]);
    UntouchedSince(s.store.log, s.store.rev, from, r, name);
    UntouchedSince(s.store.log, s.store.rev, from, s.store.rev, name);
    AllUpTo(s.store.log, s.store.rev);
    assert name in ContentOf(s.store);
  }

  /** Outside a crash, ACTIVE is where a session with a living lease leads, and nowhere else. */
  lemma ActiveMeansLeading(name: string, steps: seq<Step>, m: nat)
    requires name != ID_KEY && IsRun(Init(name), steps)
    requires var s := Last(Init(name), steps);
             m in s.members && s.members[m].pc != Dead
             && s.members[m].lease.Some? && s.members[m].lease.value in s.store.leases
    ensures var s := Last(Init(name), steps); Leads(s, m) <==> s.members[m].pc == Active
  {
    InitInv(name);
    RunKeepsInv(Init(name), steps);
    var s := Last(Init(name), steps);
    assert MemberOk(s.name, s.members[m]);
  }

  /** The session's next `n` steps, all of them answered. */
  function Undisturbed(m: nat, n: nat): (steps: seq<Step>)
    ensures forall e | e in steps :: e == Main(m, Delivered)
  {
    if n == 0 then [] else [Main(m, Delivered)] + Undisturbed(m, n - 1)
  }

  lemma UndisturbedStep(s: State, m: nat, n: nat)
    requires Enabled(s, Main(m, Delivered)) && IsRun(AfterMain(s, m, Delivered), Undisturbed(m, n))
    ensures IsRun(s, Undisturbed(m, n + 1))
    ensures Last(s, Undisturbed(m, n + 1)) == Last(AfterMain(s, m, Delivered), Undisturbed(m, n))
  {
    hide AfterMain, Pending;
    var steps := Undisturbed(m, n + 1);
    assert steps[0] == Main(m, Delivered) && steps[1..] == Undisturbed(m, n);
    assert Apply(s, steps[0]) == AfterMain(s, m, Delivered);
  }

  /** The session is about to ask for the active key, which nobody has. */
  lemma ElectionIsWon(s: State, m: nat)
    requires m in s.members && s.members[m].pc == Electing && s.name !in s.store.kvs
    requires s.members[m].lease.Some? && s.members[m].lease.value in s.store.leases
    ensures IsRun(s, Undisturbed(m, 2))
    ensures var s' := Last(s, Undisturbed(m, 2));
      && Leads(s', m) && s'.name == s.name && s'.members[m].lease == s.members[m].lease
      && Attached(s'.store, s.name, s.members[m].lease.value)
  {
    var s1 := AfterMain(s, m, Delivered);
    var s2 := AfterMain(s1, m, Delivered);
    assert IsRun(s2, Undisturbed(m, 0)) && Last(s2, Undisturbed(m, 0)) == s2;
    UndisturbedStep(s1, m, 0);
    UndisturbedStep(s, m, 1);
  }

  /** From its watch, or as it comes in. */
  lemma WokenSessionLeads(s: State, m: nat)
    requires Enabled(s, Main(m, Delivered)) && s.name !in s.store.kvs
    requires s.members[m].pc.Watching? || s.members[m].pc == Enrolled
    requires s.members[m].lease.Some? && s.members[m].lease.value in s.store.leases
    ensures IsRun(s, Undisturbed(m, 3))
    ensures var s' := Last(s, Undisturbed(m, 3)); Leads(s', m) && Attached(s'.store, s.name, s.members[m].lease.value)
  {
    hide Undisturbed, IsRun, Last, Leads, Pending;
    var s1 := AfterMain(s, m, Delivered);
    ElectionIsWon(s1, m);
    UndisturbedStep(s, m, 2);
  }

  /** Put the other way round: whenever the active key is gone, every watching standby has something to wake it; and a
      session that watches or comes in, if its lease lives and no other is quicker, leads after its next three steps,
      and the active key is attached to its lease. */
  lemma EveryDeletionWakes(name: string, steps: seq<Step>, m: nat)
    requires name != ID_KEY && IsRun(Init(name), steps)
    requires var s := Last(Init(name), steps);
             m in s.members && (s.members[m].pc.Watching? || s.members[m].pc == Enrolled) && name !in s.store.kvs
    ensures var s := Last(Init(name), steps);
            && Enabled(s, Main(m, Delivered))
            && (s.members[m].lease.Some? && s.members[m].lease.value in s.store.leases ==>
                  && IsRun(s, Undisturbed(m, 3))
                  && var s' := Last(s, Undisturbed(m, 3));
                     Leads(s', m) && Attached(s'.store, name, s.members[m].lease.value))
  {
    InitInv(name);
    RunKeepsInv(Init(name), steps);
    var s := Last(Init(name), steps);
    if s.members[m].pc.Watching? && !Pending(s.store, name, s.members[m].pc.from) {
      assert WatchOk(s, s.members[m]);
      NoLostHandOver(name, steps, m, s.store.rev);
    }
    if s.members[m].lease.Some? && s.members[m].lease.value in s.store.leases {
      WokenSessionLeads(s, m);
    }
  }

  /** The active key was written or deleted at revision `r`. */
  ghost predicate TouchedAt(s: State, r: nat) {
    exists i :: 0 <= i < |s.store.log| && s.store.log[i].key == s.name && s.store.log[i].rev == r
  }

  /** A session that finds the active key taken watches it, from the revision of the answer on, and stays a standby. If
      the key was written at that very revision it is woken at once, and otherwise it is blocked. */
  lemma LoserWatches(s: State, m: nat)
    requires Inv(s) && m in s.members && s.members[m].pc == Electing && s.name in s.store.kvs
    ensures AfterMain(s, m, Delivered)
         == s.(members := s.members[m := s.members[m].(pc := Watching(s.store.rev))])
    ensures Enabled(AfterMain(s, m, Delivered), Main(m, Delivered)) <==> TouchedAt(s, s.store.rev)
  {
    assert forall i | 0 <= i < |s.store.log| :: s.store.log[i].rev <= s.store.rev;
  }

  /** Sessions of other services may take ids as those of this one do, and do what they like with their own keys. */
  lemma OthersAreFree(s: State, reply: Reply, n: nat, k: Key, v: Value, old_: Value, lease: Option<LeaseId>,
                      to: LeaseId)
    ensures Enabled(s, Other(Create(ID_KEY, Counter(1), None), reply))
    ensures Enabled(s, Other(Swap(ID_KEY, Counter(n), Counter(n + 1)), reply))
    ensures Enabled(s, Other(Grant, reply)) && Enabled(s, Other(Read(k), reply))
    ensures k != ID_KEY && k != s.name ==>
      && Enabled(s, Other(Create(k, v, lease), reply)) && Enabled(s, Other(Swap(k, old_, v), reply))
      && Enabled(s, Other(Write(k, v, to), reply)) && Enabled(s, Other(Remove(k), reply))
      && Enabled(s, ForeignPut(k, v))
  {
  }

  /** Compaction past that revision ends the watch as well. */
  lemma CompactionWakes(s: State, m: nat, r: nat)
    requires m in s.members && s.members[m].pc.Watching? && s.members[m].pc.from < r
    requires Enabled(s, Compacts(r))
    ensures Enabled(Apply(s, Compacts(r)), Main(m, Delivered))
    ensures AfterMain(Apply(s, Compacts(r)), m, Delivered).members[m].pc == Electing
  {
  }

  /** A leader that goes into the election once more is a standby again before it asks for the key. */
  lemma LeaderStepsBack(s: State, m: nat, reply: Reply)
    requires Leads(s, m) && s.members[m].pc == Active
    ensures var s' := AfterMain(s, m, reply);
      s'.store == s.store && !Leads(s', m) && s'.members[m].standby == Some(true) && s'.members[m].pc == Electing
  {
  }

  // ---------- taking an id, registering, failing ----------

  /** How many steps a session that looks for an id has left, if nobody disturbs it. */
  function IdSteps(s: State, pc: Pc): nat {
    match pc
    case Fresh => 4
    case IdCheck => 3
    case IdGet => 2
    case IdCas(v) => if ID_KEY in s.store.kvs && s.store.kvs[ID_KEY].value == Counter(v) then 1 else 3
    case _ => 0
  }

  /** The session with the next id, and the counter moved on. */
  ghost predicate TookNextId(s: State, s': State, m: nat) {
    var next := |s.committed| + 1;
    && m in s'.members && s'.members[m].id == Some(next) && s'.members[m].pc == Ready
    && s'.committed == s.committed + [next]
    && ID_KEY in s'.store.kvs && s'.store.kvs[ID_KEY].value == Counter(next + 1)
  }

  lemma NoSteps(s: State, m: nat)
    ensures IsRun(s, Undisturbed(m, 0)) && Last(s, Undisturbed(m, 0)) == s
  {
  }

  lemma CasTakesId(s: State, m: nat)
    requires IdsOk(s) && m in s.members && ID_KEY in s.store.kvs && s.members[m].pc == IdCas(|s.committed| + 1)
    ensures IsRun(s, Undisturbed(m, 1)) && TookNextId(s, Last(s, Undisturbed(m, 1)), m)
  {
    var s' := AfterMain(s, m, Delivered);
    NoSteps(s', m);
    UndisturbedStep(s, m, 0);
  }

  lemma GetTakesId(s: State, m: nat)
    requires IdsOk(s) && m in s.members && ID_KEY in s.store.kvs && s.members[m].pc == IdGet
    ensures IsRun(s, Undisturbed(m, 2)) && TookNextId(s, Last(s, Undisturbed(m, 2)), m)
  {
    hide Undisturbed, IsRun, Last;
    var s' := AfterMain(s, m, Delivered);
    assert s'.members[m].pc == IdCas(|s.committed| + 1) && s'.store == s.store;
    CasTakesId(s', m);
    UndisturbedStep(s, m, 1);
  }

  lemma SameNextId(s: State, s': State, m: nat)
    requires s'.committed == s.committed
    ensures forall t :: TookNextId(s', t, m) ==> TookNextId(s, t, m)
  {
  }

  lemma CheckKeepsIds(s: State, m: nat)
    requires IdsOk(s) && m in s.members && s.members[m].pc == IdCheck
    ensures var s' := AfterMain(s, m, Delivered);
      && IdsOk(s') && m in s'.members && s'.members[m].pc == IdGet && s'.committed == s.committed
      && ID_KEY in s'.store.kvs
  {
    IdsStay(s, AfterMain(s, m, Delivered));
  }

  lemma CheckTakesId(s: State, m: nat)
    requires IdsOk(s) && m in s.members && s.members[m].pc == IdCheck
    ensures IsRun(s, Undisturbed(m, 3)) && TookNextId(s, Last(s, Undisturbed(m, 3)), m)
  {
    hide Undisturbed, IsRun, Last, TookNextId, IdsOk, AfterMain;
    var s' := AfterMain(s, m, Delivered);
    CheckKeepsIds(s, m);
    SameNextId(s, s', m);
    GetTakesId(s', m);
    UndisturbedStep(s, m, 2);
  }

  lemma FreshTakesId(s: State, m: nat)
    requires IdsOk(s) && m in s.members && s.members[m].pc == Fresh
    ensures IsRun(s, Undisturbed(m, 4)) && TookNextId(s, Last(s, Undisturbed(m, 4)), m)
  {
    hide Undisturbed, IsRun, Last, TookNextId;
    var s' := AfterMain(s, m, Delivered);
    assert s'.members[m].pc == IdCheck && s'.store == s.store && s'.committed == s.committed;
    SameNextId(s, s', m);
    CheckTakesId(s', m);
    UndisturbedStep(s, m, 3);
  }

  lemma LostRaceKeepsIds(s: State, m: nat)
    requires IdsOk(s) && m in s.members && ID_KEY in s.store.kvs && s.members[m].pc.IdCas?
    requires s.store.kvs[ID_KEY].value != Counter(s.members[m].pc.v)
    ensures var s' := AfterMain(s, m, Delivered);
      && IdsOk(s') && m in s'.members && s'.members[m].pc == IdGet && s'.committed == s.committed
      && s'.store == s.store
  {
    IdsStay(s, AfterMain(s, m, Delivered));
  }

  /** The counter has moved on since it was read. */
  lemma LostRaceTakesId(s: State, m: nat)
    requires IdsOk(s) && m in s.members && ID_KEY in s.store.kvs && s.members[m].pc.IdCas?
    requires s.store.kvs[ID_KEY].value != Counter(s.members[m].pc.v)
    ensures IsRun(s, Undisturbed(m, 3)) && TookNextId(s, Last(s, Undisturbed(m, 3)), m)
  {
    hide Undisturbed, IsRun, Last, TookNextId, IdsOk, AfterMain;
    var s' := AfterMain(s, m, Delivered);
    LostRaceKeepsIds(s, m);
    SameNextId(s, s', m);
    GetTakesId(s', m);
    UndisturbedStep(s, m, 2);
  }

  lemma NextIdIsTaken(s: State, m: nat)
    requires IdsOk(s) && m in s.members && (s.members[m].pc in {Fresh, IdCheck, IdGet} || s.members[m].pc.IdCas?)
    requires s.members[m].pc in {Fresh, IdCheck} || ID_KEY in s.store.kvs
    ensures var n := IdSteps(s, s.members[m].pc);
      IsRun(s, Undisturbed(m, n)) && TookNextId(s, Last(s, Undisturbed(m, n)), m)
  {
    hide Undisturbed, IsRun, Last, TookNextId, AfterMain;
    match s.members[m].pc {
      case Fresh => FreshTakesId(s, m);
      case IdCheck => CheckTakesId(s, m);
      case IdGet => GetTakesId(s, m);
      case IdCas(v) =>
        if s.store.kvs[ID_KEY].value == Counter(v) {
          CasTakesId(s, m);
        } else {
          LostRaceTakesId(s, m);
        }
    }
  }

  /** From every reachable state a session that looks for an id, undisturbed, soon has the next one - also when it has
      just lost a race for one. */
  lemma IdIsTaken(name: string, steps: seq<Step>, m: nat)
    requires name != ID_KEY && IsRun(Init(name), steps)
    requires var s := Last(Init(name), steps);
      && m in s.members && (s.members[m].pc in {Fresh, IdCheck, IdGet} || s.members[m].pc.IdCas?)
      && (s.members[m].pc in {Fresh, IdCheck} || ID_KEY in s.store.kvs)
    ensures var s := Last(Init(name), steps);
      var n := IdSteps(s, s.members[m].pc);
      IsRun(s, Undisturbed(m, n)) && TookNextId(s, Last(s, Undisturbed(m, n)), m)
  {
    hide TookNextId, Undisturbed, AfterMain, IdSteps;
    InitInv(name);
    RunKeepsInv(Init(name), steps);
    NextIdIsTaken(Last(Init(name), steps), m);
  }

  /** A registration that finds its key free: undisturbed, the session stands under it with a lease of its own. */
  lemma RegistrationGoesThrough(s: State, m: nat)
    requires m in s.members && s.members[m].pc == RegGrant && NodeKey(s.name, IdOf(s.members[m])) !in s.store.kvs
    ensures IsRun(s, Undisturbed(m, 2))
    ensures var s', lease := Last(s, Undisturbed(m, 2)), s.store.granted;
      && m in s'.members && s'.members[m] == s.members[m].(pc := Enrolled, lease := Some(lease))
      && lease in s'.store.leases && Attached(s'.store, NodeKey(s.name, IdOf(s.members[m])), lease)
      && s'.store.kvs[NodeKey(s.name, IdOf(s.members[m]))].value == Json(s.name, s'.members[m])
  {
    var s1 := AfterMain(s, m, Delivered);
    var s2 := AfterMain(s1, m, Delivered);
    NoSteps(s2, m);
    UndisturbedStep(s1, m, 0);
    UndisturbedStep(s, m, 1);
  }

  /** No answer, or an error for one. */
  predicate Fails(s: State, m: nat, reply: Reply)
    requires m in s.members
  {
    reply != Delivered || !Answer(s.store, RequestOf(s.name, s.members[m])).ok
  }

  /** Which failures end a session: those of reading the counter and of moving it on. A registration that fails starts
      again with a new lease, and an election that fails ends and can be held again. Nothing else about the session
      changes. */
  lemma FailureMeans(s: State, m: nat, reply: Reply)
    requires m in s.members && RequestOf(s.name, s.members[m]) != Nothing && Fails(s, m, reply)
    ensures var mem, mem' := s.members[m], AfterMain(s, m, reply).members[m];
      && mem' == mem.(pc := mem'.pc)
      && (mem'.pc == Dead <==> mem.pc == IdGet || mem.pc.IdCas?)
      && (mem.pc == IdCheck ==> mem'.pc == IdGet)
      && (mem.pc in {RegGrant, RegCreate, RegRead, RegRemove} ==> mem'.pc == RegGrant)
      && (mem.pc == Electing ==> mem'.pc == Enrolled)
  {
  }

  // ---------- crashes and calls ----------

  predicate Crashed(s: State, m: nat) {
    m in s.members && s.members[m].pc == Dead && s.members[m].stops == []
  }

  lemma CrashedTakesNoStep(s: State, step: Step, m: nat)
    requires Enabled(s, step) && Crashed(s, m)
    ensures Apply(s, step).members[m := s.members[m]] == Apply(s, step).members
    ensures Crashed(Apply(s, step), m) && Apply(s, step).members[m] == s.members[m]
  {
    hide Exec, Pending, OthersAsk, MainNext, RequestOf, StopNext, StopRequest;
  }

  lemma CrashEndsCalls(s: State, m: nat)
    requires Enabled(s, Crash(m))
    ensures Crashed(Apply(s, Crash(m)), m)
  {
  }

  /** A crash is final: over the rest of any run the session does nothing more, whatever it was in the middle of. */
  lemma {:induction false} CrashIsFinal(s: State, steps: seq<Step>, m: nat)
    requires IsRun(s, steps) && (Crashed(s, m) || (steps != [] && steps[0] == Crash(m)))
    ensures Crashed(Last(s, steps), m)
    ensures Crashed(s, m) ==> Last(s, steps).members[m] == s.members[m]
    decreases |steps|
  {
    hide Enabled, Apply;
    if steps != [] {
      if Crashed(s, m) {
        CrashedTakesNoStep(s, steps[0], m);
      } else {
        CrashEndsCalls(s, m);
      }
      CrashIsFinal(Apply(s, steps[0]), steps[1..], m);
    }
  }

  /** A step of one GoingStop call leaves the session's other calls where they are. */
  lemma CallsAreApart(mem: Member, i: nat, r: Response, got: bool)
    requires i < |mem.stops|
    ensures var stops' := StopNext(mem, i, r, got).stops;
      || multiset(stops') + multiset{mem.stops[i]} == multiset(mem.stops)
      || (mem.stops[i].StopRead?
          && multiset(stops') + multiset{mem.stops[i]} == multiset(mem.stops) + multiset{StopPut(mem.stops[i].k)})
  {
    assert mem.stops == mem.stops[..i] + [mem.stops[i]] + mem.stops[i + 1..];
  }

  // ---------- making way for a restarted session ----------

  /** What stands under a session's own key was written by an earlier session at the same address. */
  predicate OutlivedBy(s: State, mem: Member) {
    var k := NodeKey(s.name, IdOf(mem));
    k in s.store.kvs && s.store.kvs[k].value.Registered?
    && s.store.kvs[k].value.session.address == mem.address && s.store.kvs[k].value.session.id < IdOf(mem)
  }

  /** A registration that finds its key taken looks at it. */
  lemma TakenKeyIsRead(s: State, m: nat)
    requires m in s.members && s.members[m].pc == RegCreate && NodeKey(s.name, IdOf(s.members[m])) in s.store.kvs
    ensures AfterMain(s, m, Delivered) == s.(members := s.members[m := s.members[m].(pc := RegRead)])
  {
  }

  /**
   * A registration that found its key taken: undisturbed, it deletes what stands there exactly if an earlier session
   * at the same address wrote it, and touches nothing else; either way it then tries again.
   */
  lemma RestartMakesWay(s: State, m: nat)
    requires m in s.members && s.members[m].pc == RegRead
    ensures var s1 := AfterMain(s, m, Delivered);
      if OutlivedBy(s, s.members[m]) then
        && s1.store == s.store && m in s1.members
        && var s2 := AfterMain(s1, m, Delivered);
           && s2.store == WithDelete(s.store, NodeKey(s.name, IdOf(s.members[m])))
           && s2.members == s.members[m := s.members[m].(pc := RegGrant)]
      else s1 == s.(members := s.members[m := s.members[m].(pc := RegGrant)])
    ensures forall reply :: AfterMain(s, m, reply).store == s.store
  {
    var s1 := AfterMain(s, m, Delivered);
    if OutlivedBy(s, s.members[m]) {
      var s2 := AfterMain(s1, m, Delivered);
      assert s2.members == s.members[m := s.members[m].(pc := RegGrant)];
    }
  }
}
