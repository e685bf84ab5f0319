/** The versioned notifier on its channel-based condition variable, one atomic step of one goroutine at a time. */
module Notifier {
  import opened Bytes

  type Thread = nat
  type Listener = nat
  type Channel = nat

  /** Program points. N*: NotifyAll; W*: VersionedListener.Wait with ContextCond.Wait inside; C*: WaitChan; S*: Sync;
      L*: Listen at the latest version. *Lock points wait for the mutex. */
  datatype Pc =
    | Idle
    | NLock | NBroadcast | NBump | NUnlock
    | WLock(l: Listener) | WTest(l: Listener) | WEnter(l: Listener) | WUnlock(l: Listener, c: Channel)
    | WBlocked(l: Listener, c: Channel) | WTake(l: Listener) | WExit(l: Listener)
    | CLock(l: Listener) | CTest(l: Listener) | CEnter(l: Listener) | CUnlock(l: Listener, c: Channel)
    | CHolding(l: Listener, c: Channel) | CTake(l: Listener) | CExit(l: Listener)
    | SLock(l: Listener) | SSet(l: Listener) | SUnlock(l: Listener)
    | LLock | LRead | LUnlock(v: int)

  /** `locked` is Go's mutex, which knows no owner; `ch` is ContextCond.ch; `last` holds lastNotifiedVersion of every
      listener; `panicked` records a close of a closed channel or an unlock of an unlocked mutex. */
  datatype State = State(
    locked: bool, version: int, ch: Option<Channel>, made: nat, closed: set<Channel>,
    last: map<Listener, int>, listeners: nat, pcs: map<Thread, Pc>, panicked: bool)

  datatype At = Earliest | Latest | Other

  datatype Action =
    | StartNotify
    | StartWait(l: Listener)
    | StartWaitChan(l: Listener)
    | StartSync(l: Listener)
    | StartListen(at: At)
    | Advance
    | Cancel

  datatype Step = Step(t: Thread, a: Action)

  function PcOf(s: State, t: Thread): Pc {
    if t in s.pcs then s.pcs[t] else Idle
  }

  function Init(): State {
    State(false, 0, None, 0, {}, map[], 0, map[], false)
  }

  /** The points between a Lock and the matching Unlock. */
  predicate Holds(p: Pc) {
    || p in {NBroadcast, NBump, NUnlock}
    || p.WTest? || p.WEnter? || p.WUnlock? || p.WTake? || p.WExit?
    || p.CTest? || p.CEnter? || p.CUnlock? || p.CTake? || p.CExit?
    || p.SSet? || p.SUnlock? || p.LRead? || p.LUnlock?
  }

  predicate AtLock(p: Pc) {
    p.NLock? || p.WLock? || p.CLock? || p.SLock? || p.LLock?
  }

  predicate Enabled(s: State, step: Step) {
    var p := PcOf(s, step.t);
    match step.a
    case StartNotify => p.Idle?
    case StartWait(l) => p.Idle? && l in s.last
    case StartWaitChan(l) => p.Idle? && l in s.last
    case StartSync(l) => p.Idle? && l in s.last
    case StartListen(_) => p.Idle?
    case Cancel => p.WBlocked?
    case Advance =>
      && !p.Idle?
      && (AtLock(p) ==> !s.locked)
      && (p.WBlocked? || p.CHolding? ==> p.c in s.closed)
  }

  function Goto(s: State, t: Thread, p: Pc): State {
    s.(pcs := s.pcs[t := p])
  }

  function Locked(s: State): State {
    s.(locked := true)
  }

  function Unlocked(s: State): State {
    s.(locked := false, panicked := s.panicked || !s.locked)
  }

  /** ContextCond.LockAndBroadcast after its Lock. */
  function Broadcast(s: State): State {
    match s.ch
    case None => s
    case Some(c) => s.(closed := s.closed + {c}, ch := None, panicked := s.panicked || c in s.closed)
  }

  /** The channel ContextCond.Wait and WaitChan hand out, made if there is none. */
  function WithChannel(s: State): (r: State)
    ensures r.ch.Some? && r.pcs == s.pcs
  {
    if s.ch == None then s.(ch := Some(s.made), made := s.made + 1) else s
  }

  function LastOf(s: State, l: Listener): int {
    if l in s.last then s.last[l] else -1
  }

  /** A new listener object. */
  function Created(s: State, v: int): State {
    s.(last := s.last[s.listeners := v], listeners := s.listeners + 1)
  }

  function Synced(s: State, l: Listener): State {
    s.(last := s.last[l := s.version])
  }

  /** What a goroutine at program point `p` does to the shared variables in its next step. */
  function Effect(s: State, p: Pc): (r: State)
    ensures r.pcs == s.pcs
  {
    match p
    case NBroadcast => Broadcast(s)
    case NBump => s.(version := s.version + 1)
    case WEnter(_) => WithChannel(s)
    case CEnter(_) => WithChannel(s)
    case WTake(l) => Synced(s, l)
    case CTake(l) => Synced(s, l)
    case SSet(l) => Synced(s, l)
    case LUnlock(v) => Created(Unlocked(s), v)
    case _ =>
      if AtLock(p) then Locked(s)
      else if p.NUnlock? || p.WUnlock? || p.WExit? || p.CUnlock? || p.CExit? || p.SUnlock? then Unlocked(s)
      else s
  }

  function NextPc(s: State, p: Pc): Pc {
    match p
    case NLock => NBroadcast
    case NBroadcast => NBump
    case NBump => NUnlock
    case WLock(l) => WTest(l)
    case WTest(l) => if LastOf(s, l) >= s.version then WEnter(l) else WTake(l)
    case WEnter(l) => WUnlock(l, WithChannel(s).ch.value)
    case WUnlock(l, c) => WBlocked(l, c)
    case WBlocked(l, _) => WLock(l)
    case WTake(l) => WExit(l)
    case CLock(l) => CTest(l)
    case CTest(l) => if LastOf(s, l) < s.version then CTake(l) else CEnter(l)
    case CEnter(l) => CUnlock(l, WithChannel(s).ch.value)
    case CUnlock(l, c) => CHolding(l, c)
    case CTake(l) => CExit(l)
    case SLock(l) => SSet(l)
    case SSet(l) => SUnlock(l)
    case LLock => LRead
    case LRead => LUnlock(s.version)
    case _ => Idle
  }

  function Advanced(s: State, t: Thread, p: Pc): State {
    Goto(Effect(s, p), t, NextPc(s, p))
  }

  /** A channel in a listener's hands: closed already, or the current one with nothing to miss. */
  ghost predicate Handed(s: State, l: Listener, c: Channel) {
    l in s.last && c < s.made && (c in s.closed || (s.ch == Some(c) && s.last[l] >= s.version))
  }

  /** A program point that fits the shared variables. */
  ghost predicate PointOk(s: State, p: Pc) {
    match p
    case NBump => s.ch == None
    case WLock(l) => l in s.last
    case WTest(l) => l in s.last
    case WEnter(l) => l in s.last && s.last[l] >= s.version
    case WUnlock(l, c) => Handed(s, l, c)
    case WBlocked(l, c) => Handed(s, l, c)
    case WTake(l) => l in s.last && s.last[l] < s.version
    case WExit(l) => l in s.last && s.last[l] == s.version
    case CLock(l) => l in s.last
    case CTest(l) => l in s.last
    case CEnter(l) => l in s.last && s.last[l] >= s.version
    case CUnlock(l, c) => Handed(s, l, c)
    case CHolding(l, c) => Handed(s, l, c)
    case CTake(l) => l in s.last && s.last[l] < s.version
    case CExit(l) => l in s.last && s.last[l] == s.version
    case SLock(l) => l in s.last
    case SSet(l) => l in s.last
    case SUnlock(l) => l in s.last && s.last[l] == s.version
    case LUnlock(v) => v == s.version
    case _ => true
  }

  ghost predicate SharedOk(s: State) {
    && !s.panicked
    && (s.ch.Some? ==> s.ch.value !in s.closed && s.ch.value < s.made)
    && (forall c | c in s.closed :: c < s.made)
    && (forall l | l in s.last :: l < s.listeners && s.last[l] <= s.version)
    && s.version >= 0
  }

  ghost predicate MutexOk(s: State) {
    && (forall t, u | t in s.pcs && u in s.pcs && Holds(s.pcs[t]) && Holds(s.pcs[u]) :: t == u)
    && (s.locked <==> exists t :: t in s.pcs && Holds(s.pcs[t]))
  }

  ghost predicate Inv(s: State) {
    && SharedOk(s)
    && MutexOk(s)
    && forall t | t in s.pcs :: PointOk(s, s.pcs[t])
  }

  /** Starting a call, or giving a Wait up because its context ended. */
  function Started(s: State, step: Step): State
    requires Enabled(s, step) && step.a != Advance
  {
    var t := step.t;
    match step.a
    case StartNotify => Goto(s, t, NLock)
    case StartWait(l) => Goto(s, t, WLock(l))
    case StartWaitChan(l) => Goto(s, t, CLock(l))
    case StartSync(l) => Goto(s, t, SLock(l))
    case StartListen(Earliest) => Created(s, -1)
    case StartListen(Latest) => Goto(s, t, LLock)
    case StartListen(Other) => Created(s, 0)
    case Cancel => Goto(s, t, Idle)
  }

  function Apply(s: State, step: Step): State
    requires Enabled(s, step)
  {
    if step.a == Advance then Advanced(s, step.t, PcOf(s, step.t)) else Started(s, step)
  }

  // ---------- what a step of one goroutine means for the others ----------

  /** Shared variables moved on while the mutex was held by somebody else, or a listener was added. */
  ghost predicate MovedOn(s: State, s': State) {
    && (forall l | l in s.last :: l in s'.last && s.last[l] <= s'.last[l])
    && s.made <= s'.made && s.closed <= s'.closed
    && (s.ch.Some? ==> s.ch.value in s'.closed || (s'.ch == s.ch && s'.version == s.version))
  }

  lemma WaitersUndisturbed(s: State, s': State, p: Pc)
    requires PointOk(s, p) && !Holds(p) && MovedOn(s, s')
    ensures PointOk(s', p)
  {
  }

  lemma OnlyListenersAdded(s: State, s': State, p: Pc)
    requires PointOk(s, p)
    requires forall l | l in s.last :: l in s'.last && s'.last[l] == s.last[l]
    requires s'.made == s.made && s'.closed == s.closed && s'.ch == s.ch && s'.version == s.version
    ensures PointOk(s', p)
  {
  }

  lemma OwnPointOk(s: State, t: Thread)
    requires Inv(s) && Enabled(s, Step(t, Advance))
    ensures PointOk(Advanced(s, t, PcOf(s, t)), PcOf(Advanced(s, t, PcOf(s, t)), t))
  {
    assert PointOk(s, s.pcs[t]);
  }

  lemma AdvanceKeepsShared(s: State, t: Thread)
    requires Inv(s) && Enabled(s, Step(t, Advance))
    ensures SharedOk(Advanced(s, t, PcOf(s, t)))
  {
    assert PointOk(s, s.pcs[t]);
  }

  lemma AdvanceMovesOn(s: State, t: Thread)
    requires Inv(s) && Enabled(s, Step(t, Advance))
    ensures MovedOn(s, Advanced(s, t, PcOf(s, t)))
  {
    assert PointOk(s, s.pcs[t]);
  }

  /** The mutex bit follows the program points: a Lock finds nobody inside, an Unlock leaves nobody inside. */
  lemma MutexAfter(s: State, s': State, t: Thread, p': Pc)
    requires MutexOk(s) && s'.pcs == s.pcs[t := p']
    requires Holds(p') && !Holds(PcOf(s, t)) ==> !s.locked
    requires s'.locked == if Holds(p') then true else if Holds(PcOf(s, t)) then false else s.locked
    ensures MutexOk(s')
  {
    if Holds(p') {
      assert t in s'.pcs && Holds(s'.pcs[t]);
    } else if s.locked && !Holds(PcOf(s, t)) {
      var u :| u in s.pcs && Holds(s.pcs[u]);
      assert u in s'.pcs && Holds(s'.pcs[u]);
    }
  }

  /** A step takes the mutex when it enters the part that holds it, and gives it back when it leaves. */
  lemma EffectLocks(s: State, p: Pc)
    requires !p.Idle? && (AtLock(p) ==> !s.locked) && (Holds(p) ==> s.locked)
    ensures Effect(s, p).locked == if Holds(NextPc(s, p)) then true else if Holds(p) then false else s.locked
    ensures Holds(NextPc(s, p)) && !Holds(p) ==> !s.locked
  {
  }

  lemma AdvanceKeepsMutex(s: State, t: Thread)
    requires Inv(s) && Enabled(s, Step(t, Advance))
    ensures MutexOk(Advanced(s, t, PcOf(s, t)))
  {
    hide SharedOk, PointOk, Effect, NextPc, Holds, AtLock;
    var p := s.pcs[t];
    var s' := Advanced(s, t, p);
    assert Holds(p) ==> s.locked;
    EffectLocks(s, p);
    MutexAfter(s, s', t, PcOf(s', t));
  }

  lemma AdvanceKeepsOthers(s: State, t: Thread, u: Thread)
    requires Inv(s) && Enabled(s, Step(t, Advance)) && u != t && u in s.pcs
    ensures PointOk(Advanced(s, t, PcOf(s, t)), s.pcs[u])
  {
    var p := s.pcs[t];
    if Holds(s.pcs[u]) {
      assert s.locked && !Holds(p) && !AtLock(p);
      OnlyListenersAdded(s, Advanced(s, t, p), s.pcs[u]);
    } else {
      AdvanceMovesOn(s, t);
      WaitersUndisturbed(s, Advanced(s, t, p), s.pcs[u]);
    }
  }

  lemma StartKeepsPoints(s: State, step: Step)
    requires Inv(s) && Enabled(s, step) && step.a != Advance
    ensures var s' := Started(s, step); forall u | u in s'.pcs :: PointOk(s', s'.pcs[u])
  {
    var s' := Started(s, step);
    forall u | u in s'.pcs ensures PointOk(s', s'.pcs[u]) {
      if u in s.pcs {
        OnlyListenersAdded(s, s', s.pcs[u]);
      }
    }
  }

  lemma StartKeepsMutex(s: State, step: Step)
    requires Inv(s) && Enabled(s, step) && step.a != Advance
    ensures MutexOk(Started(s, step))
  {
    hide SharedOk, PointOk;
    var s' := Started(s, step);
    if step.a.StartListen? && step.a.at != Latest {
      assert s'.pcs == s.pcs;
      if s.locked {
        var u :| u in s.pcs && Holds(s.pcs[u]);
        assert Holds(s'.pcs[u]);
      }
    } else {
      MutexAfter(s, s', step.t, PcOf(s', step.t));
    }
  }

  lemma AdvanceKeepsPoints(s: State, t: Thread)
    requires Inv(s) && Enabled(s, Step(t, Advance))
    ensures var s' := Advanced(s, t, PcOf(s, t)); forall u | u in s'.pcs :: PointOk(s', s'.pcs[u])
  {
    var s' := Advanced(s, t, PcOf(s, t));
    OwnPointOk(s, t);
    forall u | u in s'.pcs ensures PointOk(s', s'.pcs[u]) {
      if u != t {
        AdvanceKeepsOthers(s, t, u);
      }
    }
  }

  lemma StepKeepsInv(s: State, step: Step)
    requires Inv(s) && Enabled(s, step)
    ensures Inv(Apply(s, step))
  {
    if step.a != Advance {
      StartKeepsPoints(s, step);
      StartKeepsMutex(s, step);
    } else {
      AdvanceKeepsShared(s, step.t);
      AdvanceKeepsMutex(s, step.t);
      AdvanceKeepsPoints(s, step.t);
    }
  }

  // ---------- whole runs ----------

  ghost predicate IsRun(s: State, steps: seq<Step>)
    decreases |steps|
  {
    steps == [] || (Enabled(s, steps[0]) && IsRun(Apply(s, steps[0]), steps[1..]))
  }

  ghost function Last(s: State, steps: seq<Step>): State
    requires IsRun(s, steps)
    decreases |steps|
  {
    if steps == [] then s else Last(Apply(s, steps[0]), steps[1..])
  }

  lemma {:induction false} RunKeepsInv(s: State, steps: seq<Step>)
    requires Inv(s) && IsRun(s, steps)
    ensures Inv(Last(s, steps))
    decreases |steps|
  {
    if steps != [] {
      StepKeepsInv(s, steps[0]);
      RunKeepsInv(Apply(s, steps[0]), steps[1..]);
    }
  }

  /** In every reachable state: one goroutine at most is inside the mutex, the mutex is taken exactly then, nothing has
      panicked - so no channel was closed twice and no unlock went to an unlocked mutex - and a call that waits for
      nothing, or was cancelled, is not inside. */
  lemma EveryRunIsExclusive(steps: seq<Step>, t: Thread, u: Thread)
    requires IsRun(Init(), steps)
    ensures var s := Last(Init(), steps);
            && !s.panicked
            && (Holds(PcOf(s, t)) && Holds(PcOf(s, u)) ==> t == u)
            && (Holds(PcOf(s, t)) ==> s.locked)
            && (s.locked ==> exists v :: v in s.pcs && Holds(s.pcs[v]))
  {
    RunKeepsInv(Init(), steps);
  }

  /** The goroutine waits on a channel it was handed. */
  predicate WaitsOn(p: Pc, l: Listener, c: Channel) {
    p == WBlocked(l, c) || p == CHolding(l, c)
  }

  /** No notification is lost: in every reachable state a listener that waits on an open channel is blocked, holds the
      current one and has seen the current version; if the version has moved past it, its channel is closed and it can
      go on. */
  lemma NoLostNotification(steps: seq<Step>, t: Thread, l: Listener, c: Channel)
    requires IsRun(Init(), steps) && WaitsOn(PcOf(Last(Init(), steps), t), l, c)
    ensures var s := Last(Init(), steps);
            && (c !in s.closed ==>
                  s.ch == Some(c) && LastOf(s, l) == s.version && !Enabled(s, Step(t, Advance)))
            && (LastOf(s, l) < s.version ==> Enabled(s, Step(t, Advance)))
  {
    RunKeepsInv(Init(), steps);
    var s := Last(Init(), steps);
    assert PointOk(s, s.pcs[t]);
  }

  /** How many own steps a Wait on `l` has left once its listener is behind. */
  function WaitLeft(p: Pc): nat {
    match p
    case WUnlock(_, _) => 6
    case WBlocked(_, _) => 5
    case WLock(_) => 4
    case WTest(_) => 3
    case WTake(_) => 2
    case WExit(_) => 1
    case _ => 0
  }

  predicate InWait(p: Pc, l: Listener) {
    (p.WLock? || p.WTest? || p.WUnlock? || p.WBlocked? || p.WTake? || p.WExit?) && p.l == l
  }

  /** A Wait whose listener is behind never blocks again: it is stopped by nothing but a mutex somebody else holds,
      and every own step brings it nearer to returning nil, with the listener raised to the current version. */
  lemma BehindMeansReturns(s: State, t: Thread, l: Listener)
    requires Inv(s) && InWait(PcOf(s, t), l) && (LastOf(s, l) < s.version || PcOf(s, t) == WExit(l))
    ensures Enabled(s, Step(t, Advance)) || (AtLock(PcOf(s, t)) && s.locked)
    ensures Enabled(s, Step(t, Advance)) ==>
              var s' := Apply(s, Step(t, Advance));
              && WaitLeft(PcOf(s', t)) < WaitLeft(PcOf(s, t))
              && (PcOf(s, t) == WExit(l) ==> PcOf(s', t) == Idle && LastOf(s, l) == s.version)
              && (PcOf(s, t) != WExit(l) ==>
                    InWait(PcOf(s', t), l) && (LastOf(s', l) < s'.version || PcOf(s', t) == WExit(l)))
  {
    assert PointOk(s, s.pcs[t]);
  }

  /** Whoever is inside the mutex can always take its next step, and is out after a bounded number of them. */
  function InsideLeft(p: Pc): nat {
    match p
    case NBroadcast => 3
    case NBump => 2
    case NUnlock => 1
    case WTest(_) => 3
    case WEnter(_) => 2
    case WUnlock(_, _) => 1
    case WTake(_) => 2
    case WExit(_) => 1
    case CTest(_) => 3
    case CEnter(_) => 2
    case CUnlock(_, _) => 1
    case CTake(_) => 2
    case CExit(_) => 1
    case SSet(_) => 2
    case SUnlock(_) => 1
    case LRead => 2
    case LUnlock(_) => 1
    case _ => 0
  }

  lemma HolderLeaves(s: State, t: Thread)
    requires Inv(s) && Holds(PcOf(s, t))
    ensures Enabled(s, Step(t, Advance))
    ensures var s' := Apply(s, Step(t, Advance));
            && InsideLeft(PcOf(s', t)) < InsideLeft(PcOf(s, t))
            && (Holds(PcOf(s', t)) || !s'.locked)
  {
    hide Inv;
  }

  lemma AdvanceKeepsSeen(s: State, t: Thread, l: Listener)
    requires Inv(s) && Enabled(s, Step(t, Advance)) && l in s.last
    requires PcOf(s, t) !in {WTake(l), CTake(l), SSet(l)}
    ensures LastOf(Advanced(s, t, PcOf(s, t)), l) == LastOf(s, l)
    ensures s.version <= Advanced(s, t, PcOf(s, t)).version
  {
  }

  /** Other goroutines neither move a waiting goroutine nor take its lead away, as long as they do not use its
      listener: a notification completed after the last sync stays unseen until this listener looks. */
  lemma OthersKeepLead(s: State, step: Step, t: Thread, l: Listener)
    requires Inv(s) && Enabled(s, step) && step.t != t && l in s.last
    requires PcOf(s, step.t) !in {WTake(l), CTake(l), SSet(l)}
    ensures PcOf(Apply(s, step), t) == PcOf(s, t)
    ensures LastOf(Apply(s, step), l) == LastOf(s, l)
    ensures s.version <= Apply(s, step).version
  {
    if step.a == Advance {
      AdvanceKeepsSeen(s, step.t, l);
    }
  }

  /** Only NotifyAll changes the version, one up each time; only a listener's own looks change what it has seen, and
      they raise it to the current version - a Wait or a WaitChan that returns at once from strictly below it. */
  lemma VersionsMoveUp(s: State, step: Step, l: Listener)
    requires Inv(s) && Enabled(s, step) && l in s.last
    ensures var p, s' := PcOf(s, step.t), Apply(s, step);
            && s'.version == s.version + (if step.a == Advance && p == NBump then 1 else 0)
            && LastOf(s', l) == (if step.a == Advance && p in {WTake(l), CTake(l), SSet(l)} then s.version
                                 else LastOf(s, l))
            && (step.a == Advance && p in {WTake(l), CTake(l)} ==> LastOf(s, l) < LastOf(s', l) == s'.version)
  {
    if step.t in s.pcs {
      assert PointOk(s, s.pcs[step.t]);
    }
  }

  function OwnSteps(steps: seq<Step>, t: Thread): nat {
    if steps == [] then 0 else (if steps[0].t == t then 1 else 0) + OwnSteps(steps[1..], t)
  }

  /** Nobody else looks through listener `l`, and `t` is not cancelled. */
  ghost predicate Undisturbed(s: State, steps: seq<Step>, t: Thread, l: Listener)
    requires IsRun(s, steps)
    decreases |steps|
  {
    steps == [] ||
    (&& (if steps[0].t == t then steps[0].a == Advance else PcOf(s, steps[0].t) !in {WTake(l), CTake(l), SSet(l)})
     && Undisturbed(Apply(s, steps[0]), steps[1..], t, l))
  }

  lemma ListenersStay(s: State, step: Step, l: Listener)
    requires Enabled(s, step) && l in s.last
    ensures l in Apply(s, step).last
  {
  }

  /** The last own step of a Wait: it unlocks and returns, and nothing it has seen changes. */
  lemma TakenOwnStep(s: State, t: Thread, l: Listener)
    requires Inv(s) && Enabled(s, Step(t, Advance)) && l in s.last && PcOf(s, t) in {WExit(l), Idle}
    ensures var s' := Apply(s, Step(t, Advance));
      PcOf(s, t) == WExit(l) && PcOf(s', t) == Idle && l in s'.last && LastOf(s', l) == LastOf(s, l)
  {
    hide Inv;
  }

  lemma TakenStep(s: State, step: Step, t: Thread, l: Listener)
    requires Inv(s) && Enabled(s, step) && l in s.last && PcOf(s, t) in {WExit(l), Idle}
    requires if step.t == t then step.a == Advance else PcOf(s, step.t) !in {WTake(l), CTake(l), SSet(l)}
    ensures var s' := Apply(s, step);
            && Inv(s') && l in s'.last && LastOf(s', l) == LastOf(s, l)
            && if step.t == t then PcOf(s, t) == WExit(l) && PcOf(s', t) == Idle else PcOf(s', t) == PcOf(s, t)
  {
    hide Inv;
    StepKeepsInv(s, step);
    if step.t == t {
      TakenOwnStep(s, t, l);
    } else {
      OthersKeepLead(s, step, t, l);
      ListenersStay(s, step, l);
    }
  }

  lemma {:induction false} TakenWaitReturns(s: State, steps: seq<Step>, t: Thread, l: Listener)
    requires Inv(s) && IsRun(s, steps) && Undisturbed(s, steps, t, l)
    requires l in s.last && PcOf(s, t) in {WExit(l), Idle}
    ensures OwnSteps(steps, t) <= WaitLeft(PcOf(s, t))
    ensures OwnSteps(steps, t) == WaitLeft(PcOf(s, t)) ==> PcOf(Last(s, steps), t) == Idle
    ensures LastOf(Last(s, steps), l) == LastOf(s, l)
    decreases |steps|
  {
    if steps != [] {
      TakenStep(s, steps[0], t, l);
      TakenWaitReturns(Apply(s, steps[0]), steps[1..], t, l);
    }
  }

  /** The Wait of a listener that is behind - a NotifyAll has completed since its last sync - returns after a fixed
      number of own steps, whatever the others do in between, and has then seen that version or a newer one. */
  lemma {:induction false} BehindWaitReturns(s: State, steps: seq<Step>, t: Thread, l: Listener)
    requires Inv(s) && IsRun(s, steps) && Undisturbed(s, steps, t, l)
    requires InWait(PcOf(s, t), l) && LastOf(s, l) < s.version
    ensures OwnSteps(steps, t) <= WaitLeft(PcOf(s, t))
    ensures OwnSteps(steps, t) == WaitLeft(PcOf(s, t)) ==>
              PcOf(Last(s, steps), t) == Idle && LastOf(Last(s, steps), l) >= s.version > LastOf(s, l)
    decreases |steps|
  {
    assert PointOk(s, s.pcs[t]);
    if steps != [] {
      var s' := Apply(s, steps[0]);
      StepKeepsInv(s, steps[0]);
      if steps[0].t != t {
        OthersKeepLead(s, steps[0], t, l);
        BehindWaitReturns(s', steps[1..], t, l);
      } else {
        BehindMeansReturns(s, t, l);
        if PcOf(s', t) == WExit(l) {
          assert PointOk(s', s'.pcs[t]);
          TakenWaitReturns(s', steps[1..], t, l);
        } else {
          BehindWaitReturns(s', steps[1..], t, l);
        }
      }
    }
  }

  lemma SeenAtMostVersion(s: State, l: Listener)
    requires Inv(s)
    ensures LastOf(s, l) <= s.version
  {
  }

  lemma WaitGoesOn(s: State, t: Thread, l: Listener)
    requires Inv(s) && Enabled(s, Step(t, Advance)) && l in s.last
    requires (InWait(PcOf(s, t), l) && PcOf(s, t) != WExit(l)) || PcOf(s, t) == WEnter(l)
    ensures var s' := Apply(s, Step(t, Advance));
      && l in s'.last
      && if PcOf(s', t) == WExit(l) then LastOf(s', l) > LastOf(s, l)
         else LastOf(s', l) == LastOf(s, l) && (InWait(PcOf(s', t), l) || PcOf(s', t) == WEnter(l))
  {
    assert PointOk(s, s.pcs[t]);
  }

  /** A Wait never returns for nothing: over any run, once it has returned without being cancelled, its listener has
      seen a version that is new to it. */
  lemma {:induction false} WaitBringsNews(s: State, steps: seq<Step>, t: Thread, l: Listener)
    requires Inv(s) && IsRun(s, steps) && Undisturbed(s, steps, t, l) && l in s.last
    requires (InWait(PcOf(s, t), l) && PcOf(s, t) != WExit(l)) || PcOf(s, t) == WEnter(l)
    ensures PcOf(Last(s, steps), t) in {WExit(l), Idle} ==>
              LastOf(s, l) < LastOf(Last(s, steps), l) <= Last(s, steps).version
    decreases |steps|
  {
    hide Inv, Enabled, Apply;
    if steps != [] {
      var s' := Apply(s, steps[0]);
      StepKeepsInv(s, steps[0]);
      if steps[0].t != t {
        OthersKeepLead(s, steps[0], t, l);
        ListenersStay(s, steps[0], l);
        WaitBringsNews(s', steps[1..], t, l);
      } else {
        WaitGoesOn(s, t, l);
        if PcOf(s', t) == WExit(l) {
          TakenWaitReturns(s', steps[1..], t, l);
          RunKeepsInv(s', steps[1..]);
          SeenAtMostVersion(Last(s', steps[1..]), l);
        } else {
          WaitBringsNews(s', steps[1..], t, l);
        }
      }
    }
  }

  // ---------- how often the version moves ----------

  predicate IsBump(s: State, step: Step) {
    step.a == Advance && PcOf(s, step.t) == NBump
  }

  /** How often the version was raised over a run. */
  ghost function Bumps(s: State, steps: seq<Step>): nat
    requires IsRun(s, steps)
    decreases |steps|
  {
    if steps == [] then 0 else (if IsBump(s, steps[0]) then 1 else 0) + Bumps(Apply(s, steps[0]), steps[1..])
  }

  /** How often `t` raised it. */
  ghost function BumpsBy(s: State, steps: seq<Step>, t: Thread): nat
    requires IsRun(s, steps)
    decreases |steps|
  {
    if steps == [] then 0
    else (if steps[0].t == t && IsBump(s, steps[0]) then 1 else 0) + BumpsBy(Apply(s, steps[0]), steps[1..], t)
  }

  /** How many NotifyAll calls `t` began. */
  function NotifiesBy(steps: seq<Step>, t: Thread): nat {
    if steps == [] then 0
    else (if steps[0] == Step(t, StartNotify) then 1 else 0) + NotifiesBy(steps[1..], t)
  }

  /** A NotifyAll call is under way that has not raised the version yet. */
  function Owed(p: Pc): nat {
    if p in {NLock, NBroadcast, NBump} then 1 else 0
  }

  lemma StepPaysOwed(s: State, step: Step, t: Thread)
    requires Enabled(s, step)
    ensures (if step.t == t && IsBump(s, step) then 1 else 0) + Owed(PcOf(Apply(s, step), t))
         == Owed(PcOf(s, t)) + if step == Step(t, StartNotify) then 1 else 0
  {
  }

  /** Every NotifyAll call raises the version, once: over any run a goroutine has raised it as often as it began to,
      but for the call it is in. */
  lemma {:induction false} EveryNotifyCounts(s: State, steps: seq<Step>, t: Thread)
    requires IsRun(s, steps)
    ensures BumpsBy(s, steps, t) + Owed(PcOf(Last(s, steps), t)) == Owed(PcOf(s, t)) + NotifiesBy(steps, t)
    decreases |steps|
  {
    hide Enabled, Apply, IsBump, Owed;
    if steps != [] {
      StepPaysOwed(s, steps[0], t);
      EveryNotifyCounts(Apply(s, steps[0]), steps[1..], t);
    }
  }

  lemma EffectRaises(s: State, p: Pc)
    ensures Effect(s, p).version == s.version + if p == NBump then 1 else 0
  {
  }

  lemma StepRaises(s: State, step: Step)
    requires Enabled(s, step)
    ensures Apply(s, step).version == s.version + if IsBump(s, step) then 1 else 0
  {
    if step.a == Advance {
      EffectRaises(s, PcOf(s, step.t));
    }
  }

  lemma {:induction false} VersionCounts(s: State, steps: seq<Step>)
    requires IsRun(s, steps)
    ensures Last(s, steps).version == s.version + Bumps(s, steps)
    decreases |steps|
  {
    hide Enabled, Apply, IsBump;
    if steps != [] {
      StepRaises(s, steps[0]);
      VersionCounts(Apply(s, steps[0]), steps[1..]);
    }
  }

  // ---------- where a listener starts ----------

  /**
   * What a new listener has seen, in every reachable state and with `n` notifications made so far: one at the earliest
   * position has seen less than nothing, so that it is behind from the start; one at the latest position has seen all
   * `n` of them, no more and no less, and only the call that read them makes it; one made at any other position is
   * behind exactly if there was a notification.
   */
  lemma NewListenerHasSeen(steps: seq<Step>, t: Thread)
    requires IsRun(Init(), steps)
    ensures var s := Last(Init(), steps);
      var n, l := Bumps(Init(), steps), s.listeners;
      && s.version == n && l !in s.last
      && (PcOf(s, t).Idle? ==>
            var e := Apply(s, Step(t, StartListen(Earliest)));
            && l in e.last && e.version == n && LastOf(e, l) < 0 && PcOf(e, t).Idle?)
      && (PcOf(s, t).Idle? ==>
            var o := Apply(s, Step(t, StartListen(Other)));
            && l in o.last && o.version == n && PcOf(o, t).Idle? && (LastOf(o, l) < n <==> n > 0)
            && LastOf(o, l) >= 0)
      && (PcOf(s, t).Idle? ==>
            var s' := Apply(s, Step(t, StartListen(Latest)));
            s' == s.(pcs := s'.pcs) && PcOf(s', t).LLock?)
      && (PcOf(s, t).LUnlock? ==>
            var s' := Apply(s, Step(t, Advance));
            && l in s'.last && s'.version == n && LastOf(s', l) == n && PcOf(s', t).Idle? && !s'.locked)
  {
    RunKeepsInv(Init(), steps);
    VersionCounts(Init(), steps);
    var s := Last(Init(), steps);
    if t in s.pcs {
      assert PointOk(s, s.pcs[t]);
    }
  }

  /** From every reachable state: the first Wait of a listener made at the earliest position returns within four own
      steps, whatever the others do meanwhile and without any notification to come, and has seen all that came
      before. */
  lemma EarliestWaitReturns(steps: seq<Step>, t: Thread, more: seq<Step>)
    requires IsRun(Init(), steps) && PcOf(Last(Init(), steps), t).Idle?
    requires var s := Last(Init(), steps);
      var waiting := Apply(Apply(s, Step(t, StartListen(Earliest))), Step(t, StartWait(s.listeners)));
      IsRun(waiting, more) && Undisturbed(waiting, more, t, s.listeners)
    ensures var s := Last(Init(), steps);
      var waiting := Apply(Apply(s, Step(t, StartListen(Earliest))), Step(t, StartWait(s.listeners)));
      && OwnSteps(more, t) <= 4
      && (OwnSteps(more, t) == 4 ==>
            PcOf(Last(waiting, more), t).Idle? && LastOf(Last(waiting, more), s.listeners) >= s.version)
  {
    RunKeepsInv(Init(), steps);
    var s := Last(Init(), steps);
    var made := Apply(s, Step(t, StartListen(Earliest)));
    StepKeepsInv(s, Step(t, StartListen(Earliest)));
    StepKeepsInv(made, Step(t, StartWait(s.listeners)));
    var waiting := Apply(made, Step(t, StartWait(s.listeners)));
    BehindWaitReturns(waiting, more, t, s.listeners);
  }

  // ---------- channels and cancellation ----------

  /** The next `n` steps of `t`, one after the other. */
  function Own(t: Thread, n: nat): seq<Step> {
    if n == 0 then [] else [Step(t, Advance)] + Own(t, n - 1)
  }

  lemma OwnStep(s: State, t: Thread, n: nat)
    requires Enabled(s, Step(t, Advance)) && IsRun(Advanced(s, t, PcOf(s, t)), Own(t, n))
    ensures IsRun(s, Own(t, n + 1)) && Last(s, Own(t, n + 1)) == Last(Advanced(s, t, PcOf(s, t)), Own(t, n))
  {
    hide Advanced, Enabled;
    assert Own(t, n + 1)[0] == Step(t, Advance) && Own(t, n + 1)[1..] == Own(t, n);
    assert Apply(s, Step(t, Advance)) == Advanced(s, t, PcOf(s, t));
  }

  /** Four steps. */
  lemma FourSteps(s: State, s1: State, s2: State, s3: State, s4: State, t: Thread)
    requires Enabled(s, Step(t, Advance)) && s1 == Advanced(s, t, PcOf(s, t))
    requires Enabled(s1, Step(t, Advance)) && s2 == Advanced(s1, t, PcOf(s1, t))
    requires Enabled(s2, Step(t, Advance)) && s3 == Advanced(s2, t, PcOf(s2, t))
    requires Enabled(s3, Step(t, Advance)) && s4 == Advanced(s3, t, PcOf(s3, t))
    ensures IsRun(s, Own(t, 4)) && Last(s, Own(t, 4)) == s4
  {
    hide Advanced, Enabled;
    assert IsRun(s4, Own(t, 0)) && Last(s4, Own(t, 0)) == s4;
    OwnStep(s3, t, 0);
    OwnStep(s2, t, 1);
    OwnStep(s1, t, 2);
    OwnStep(s, t, 3);
  }

  /** The shared variables of two states but for what the listeners have seen. */
  predicate SameSignal(s: State, s': State) {
    s'.version == s.version && s'.closed == s.closed && s'.locked == s.locked && s'.panicked == s.panicked
  }

  lemma ChanLocks(s: State, t: Thread, l: Listener)
    requires PcOf(s, t) == CLock(l) && !s.locked
    ensures Enabled(s, Step(t, Advance))
    ensures Advanced(s, t, PcOf(s, t)) == s.(locked := true, pcs := s.pcs[t := CTest(l)])
  {
  }

  lemma ChanTests(s: State, t: Thread, l: Listener)
    requires PcOf(s, t) == CTest(l)
    ensures Enabled(s, Step(t, Advance))
    ensures Advanced(s, t, PcOf(s, t))
         == s.(pcs := s.pcs[t := if LastOf(s, l) < s.version then CTake(l) else CEnter(l)])
  {
  }

  lemma ChanTakes(s: State, t: Thread, l: Listener)
    requires PcOf(s, t) == CTake(l)
    ensures Enabled(s, Step(t, Advance))
    ensures Advanced(s, t, PcOf(s, t)) == s.(last := s.last[l := s.version], pcs := s.pcs[t := CExit(l)])
  {
  }

  lemma ChanExits(s: State, t: Thread, l: Listener)
    requires PcOf(s, t) == CExit(l) && s.locked
    ensures Enabled(s, Step(t, Advance))
    ensures Advanced(s, t, PcOf(s, t)) == s.(locked := false, pcs := s.pcs[t := Idle])
  {
  }

  /** The channel a listener that is not behind is given. */
  function NextChannel(s: State): Channel {
    if s.ch.Some? then s.ch.value else s.made
  }

  lemma NextChannelIsOpen(s: State)
    requires Inv(s)
    ensures NextChannel(s) !in s.closed
  {
  }

  lemma SameChannel(s: State, s': State)
    requires s'.ch == s.ch && s'.made == s.made
    ensures NextChannel(s') == NextChannel(s)
  {
  }

  lemma ChanEnters(s: State, t: Thread, l: Listener)
    requires PcOf(s, t) == CEnter(l)
    ensures Enabled(s, Step(t, Advance))
    ensures var c := NextChannel(s);
      Advanced(s, t, PcOf(s, t))
        == s.(ch := Some(c), made := if s.ch.Some? then s.made else s.made + 1, pcs := s.pcs[t := CUnlock(l, c)])
  {
  }

  lemma ChanUnlocks(s: State, t: Thread, l: Listener, c: Channel)
    requires PcOf(s, t) == CUnlock(l, c) && s.locked
    ensures Enabled(s, Step(t, Advance))
    ensures Advanced(s, t, PcOf(s, t)) == s.(locked := false, pcs := s.pcs[t := CHolding(l, c)])
  {
  }

  lemma BehindChanReturns(s: State, t: Thread, l: Listener)
    requires PcOf(s, t) == CLock(l) && !s.locked && LastOf(s, l) < s.version
    ensures IsRun(s, Own(t, 4))
    ensures Last(s, Own(t, 4)) == s.(last := s.last[l := s.version], pcs := Last(s, Own(t, 4)).pcs)
    ensures PcOf(Last(s, Own(t, 4)), t).Idle?
  {
    hide Advanced, Enabled, Effect, NextPc, Own, IsRun, Last;
    ChanLocks(s, t, l);
    var s1 := Advanced(s, t, PcOf(s, t));
    ChanTests(s1, t, l);
    var s2 := Advanced(s1, t, PcOf(s1, t));
    ChanTakes(s2, t, l);
    var s3 := Advanced(s2, t, PcOf(s2, t));
    ChanExits(s3, t, l);
    FourSteps(s, s1, s2, s3, Advanced(s3, t, PcOf(s3, t)), t);
  }

  lemma OpenChanIsHandedOut(s: State, t: Thread, l: Listener)
    requires Inv(s) && PcOf(s, t) == CLock(l) && !s.locked && LastOf(s, l) >= s.version
    ensures IsRun(s, Own(t, 4))
    ensures var s', c := Last(s, Own(t, 4)), NextChannel(s);
      && c !in s.closed && PcOf(s', t) == CHolding(l, c)
      && s' == s.(ch := Some(c), made := if s.ch.Some? then s.made else s.made + 1, pcs := s'.pcs)
  {
    hide Inv, Advanced, Enabled, Effect, NextPc, Own, IsRun, Last, NextChannel;
    NextChannelIsOpen(s);
    ChanLocks(s, t, l);
    var s1 := Advanced(s, t, PcOf(s, t));
    ChanTests(s1, t, l);
    var s2 := Advanced(s1, t, PcOf(s1, t));
    SameChannel(s, s2);
    ChanEnters(s2, t, l);
    var s3 := Advanced(s2, t, PcOf(s2, t));
    ChanUnlocks(s3, t, l, NextChannel(s));
    FourSteps(s, s1, s2, s3, Advanced(s3, t, PcOf(s3, t)), t);
  }

  /** A WaitChan that gets the mutex returns after four steps: with the version seen, if its listener is behind, and
      otherwise with the channel that is open now, which the next NotifyAll closes. */
  lemma WaitChanReturns(s: State, t: Thread, l: Listener)
    requires Inv(s) && PcOf(s, t) == CLock(l) && !s.locked
    ensures IsRun(s, Own(t, 4))
    ensures var s' := Last(s, Own(t, 4));
      && SameSignal(s, s')
      && if LastOf(s, l) < s.version then PcOf(s', t).Idle? && LastOf(s', l) == s.version && s'.ch == s.ch
         else
           && PcOf(s', t).CHolding? && PcOf(s', t).l == l && LastOf(s', l) == LastOf(s, l)
           && s'.ch == Some(PcOf(s', t).c) && PcOf(s', t).c !in s'.closed
  {
    hide Inv, IsRun, Last, Own;
    if LastOf(s, l) < s.version {
      BehindChanReturns(s, t, l);
    } else {
      OpenChanIsHandedOut(s, t, l);
    }
  }

  /** A Wait can be given up exactly while it is blocked. That changes nothing for anybody: the mutex was not held, the
      listener has seen what it had seen, and the goroutine may call again. */
  lemma CancelledWaitReturns(s: State, t: Thread)
    requires Inv(s)
    ensures Enabled(s, Step(t, Cancel)) <==> PcOf(s, t).WBlocked?
    ensures PcOf(s, t).WBlocked? ==>
              var s' := Apply(s, Step(t, Cancel));
              && s' == s.(pcs := s'.pcs) && PcOf(s', t).Idle? && !Holds(PcOf(s, t))
              && (forall u | u != t :: PcOf(s', u) == PcOf(s, u))
              && Enabled(s', Step(t, StartWait(PcOf(s, t).l)))
  {
    if t in s.pcs {
      assert PointOk(s, s.pcs[t]);
    }
  }
}
