/** The parallel batch runner: goroutines over unbuffered `done` and `errc` channels, a `quit` broadcast and a wait
    group, as a transition system whose steps interleave in any order. */
module Parallel {
  import opened Bytes

  type Error = int

  /** Where a worker goroutine is: before its first look at `quit`, in its batch loop, in the final select, between its
      return and the deferred `wg.Done`, or gone. */
  datatype Pc = Starting | Running | Sending | Leaving | Exited

  /** A worker on [begin, end), about to call index `next`; `err` is its local error, `counted` tells whether it left
      through the `done` channel. */
  datatype Worker = Worker(begin: int, end: int, next: int, err: Option<Error>, pc: Pc, counted: bool)

  datatype Main =
    | Spawning(begin: int)
    | Collecting
    | Closing(error: Error)
    | Waiting(result: Option<Error>)
    | Returned(result: Option<Error>)

  /** `wg` is the counter of the wait group, `closes` counts the close(quit) calls; `ran` and `errors` record which
      calls of the callback were made and which errors came back. */
  datatype State = State(
    total: int, per: int, main: Main, workers: seq<Worker>, routineNum: nat, count: nat,
    wg: int, closes: nat, ran: multiset<int>, errors: set<Error>)

  datatype MainStep = Spawn | EndSpawn | CloseQuit | Finish
  datatype Action = CheckQuit | Invoke(outcome: Option<Error>) | EndBatch | Deliver | Abandon | SignalDone

  /** One atomic step of the caller's goroutine or of worker `i`; Deliver is the rendezvous of both. */
  datatype Step = OfMain(m: MainStep) | OfWorker(i: nat, a: Action)

  /** Go's integer division truncates towards zero. */
  function Quotient(a: int, b: int): int
    requires b > 0
  {
    if a >= 0 then a / b else -(-a / b)
  }

  function Workers(maxParallel: int): (n: int)
    ensures n >= 1
  {
    if maxParallel <= 0 then 1 else maxParallel
  }

  function Init(total: int, maxParallel: int): State {
    var m := Workers(maxParallel);
    State(total, Quotient(total + m - 1, m), Spawning(0), [], 0, 0, 0, 0, multiset{}, {})
  }

  /** Whether a worker is at the point where it takes the action. */
  predicate Ready(w: Worker, a: Action) {
    match a
    case CheckQuit => w.pc == Starting
    case Invoke(_) => w.pc == Running && w.next < w.end
    case EndBatch => w.pc == Running && w.next >= w.end
    case Deliver => w.pc == Sending
    case Abandon => w.pc == Sending
    case SignalDone => w.pc == Leaving
  }

  /** The worker after its action; `quit` tells whether the channel of that name is closed. */
  function Moved(w: Worker, a: Action, quit: bool): Worker {
    match a
    case CheckQuit => w.(pc := if quit then Leaving else Running)
    case Invoke(outcome) => w.(next := w.next + 1, err := outcome, pc := if outcome.Some? then Sending else Running)
    case EndBatch => w.(pc := Sending)
    case Deliver => w.(pc := Leaving, counted := w.err == None)
    case Abandon => w.(pc := Leaving)
    case SignalDone => w.(pc := Exited)
  }

  predicate Enabled(s: State, step: Step) {
    match step
    case OfMain(Spawn) => s.main.Spawning? && s.main.begin < s.total
    case OfMain(EndSpawn) => s.main.Spawning? && s.main.begin >= s.total
    case OfMain(CloseQuit) => s.main.Closing?
    case OfMain(Finish) => s.main.Waiting? && s.wg == 0
    case OfWorker(i, a) =>
      && i < |s.workers| && Ready(s.workers[i], a)
      && (a.Deliver? ==> s.main.Collecting?)
      && (a.Abandon? ==> s.closes > 0)
  }

  function AfterMain(s: State, m: MainStep): State
    requires Enabled(s, OfMain(m))
  {
    match m
    case Spawn =>
      var b := s.main.begin;
      s.(workers := s.workers + [Worker(b, Min(s.total, b + s.per), b, None, Starting, false)],
         wg := s.wg + 1, routineNum := s.routineNum + 1, main := Spawning(b + s.per))
    case EndSpawn => s.(main := if s.routineNum <= 0 then Returned(None) else Collecting)
    case CloseQuit => s.(closes := s.closes + 1, main := Waiting(Some(s.main.error)))
    case Finish => s.(main := Returned(s.main.result))
  }

  function AfterWorker(s: State, i: nat, a: Action): State
    requires Enabled(s, OfWorker(i, a))
  {
    var w := s.workers[i];
    var s' := s.(workers := s.workers[i := Moved(w, a, s.closes > 0)]);
    match a
    case Invoke(outcome) =>
      s'.(ran := s.ran + multiset{w.next},
          errors := if outcome.Some? then s.errors + {outcome.value} else s.errors)
    case Deliver =>
      if w.err.Some? then s'.(main := Closing(w.err.value))
      else s'.(count := s.count + 1, main := if s.count + 1 == s.routineNum then Waiting(None) else Collecting)
    case SignalDone => s'.(wg := s.wg - 1)
    case _ => s'
  }

  function Apply(s: State, step: Step): State
    requires Enabled(s, step)
  {
    match step
    case OfMain(m) => AfterMain(s, m)
    case OfWorker(i, a) => AfterWorker(s, i, a)
  }

  // ---------- sums over the workers ----------

  function Live(ws: seq<Worker>): nat {
    if ws == [] then 0 else (if ws[|ws| - 1].pc == Exited then 0 else 1) + Live(ws[..|ws| - 1])
  }

  function Counted(ws: seq<Worker>): nat {
    if ws == [] then 0 else (if ws[|ws| - 1].counted then 1 else 0) + Counted(ws[..|ws| - 1])
  }

  /** An upper bound on the steps a worker has left. */
  function WorkLeft(w: Worker): nat {
    var batch := if w.next < w.end then w.end - w.next else 0;
    match w.pc
    case Starting => batch + 5
    case Running => batch + 4
    case Sending => 3
    case Leaving => 1
    case Exited => 0
  }

  function TotalWork(ws: seq<Worker>): nat {
    if ws == [] then 0 else WorkLeft(ws[|ws| - 1]) + TotalWork(ws[..|ws| - 1])
  }

  lemma {:induction false} SumsAfterUpdate(ws: seq<Worker>, i: nat, w: Worker)
    requires i < |ws|
    ensures Live(ws[i := w]) == Live(ws) - (if ws[i].pc == Exited then 0 else 1) + (if w.pc == Exited then 0 else 1)
    ensures Counted(ws[i := w]) == Counted(ws) - (if ws[i].counted then 1 else 0) + (if w.counted then 1 else 0)
    ensures TotalWork(ws[i := w]) == TotalWork(ws) - WorkLeft(ws[i]) + WorkLeft(w)
  {
    var n := |ws| - 1;
    if i == n {
      assert ws[i := w][..n] == ws[..n];
    } else {
      assert ws[i := w][..n] == ws[..n][i := w];
      SumsAfterUpdate(ws[..n], i, w);
    }
  }

  lemma SumsAfterAppend(ws: seq<Worker>, w: Worker)
    ensures Live(ws + [w]) == Live(ws) + (if w.pc == Exited then 0 else 1)
    ensures Counted(ws + [w]) == Counted(ws) + (if w.counted then 1 else 0)
    ensures TotalWork(ws + [w]) == TotalWork(ws) + WorkLeft(w)
  {
    assert (ws + [w])[..|ws|] == ws;
  }

  lemma {:induction false} CountedBounds(ws: seq<Worker>)
    ensures Counted(ws) <= |ws|
    ensures Counted(ws) == |ws| <==> forall i | 0 <= i < |ws| :: ws[i].counted
    ensures Live(ws) == 0 <==> forall i | 0 <= i < |ws| :: ws[i].pc == Exited
  {
    if ws != [] {
      CountedBounds(ws[..|ws| - 1]);
    }
  }

  // ---------- the batches ----------

  /** Where the next batch would begin. */
  function Frontier(ws: seq<Worker>, per: int): int {
    if ws == [] then 0 else ws[|ws| - 1].begin + per
  }

  /** The batches are consecutive intervals of `per` indices from 0 on, the last one cut off at `total`. */
  ghost predicate Layout(ws: seq<Worker>, total: int, per: int) {
    && (ws != [] ==> ws[0].begin == 0)
    && (forall i | 0 <= i < |ws| :: 0 <= ws[i].begin < total && ws[i].end == Min(total, ws[i].begin + per))
    && (forall i, j | 0 <= i < j < |ws| && j == i + 1 :: ws[j].begin == ws[i].begin + per)
  }

  lemma {:induction false} BatchesOrdered(ws: seq<Worker>, total: int, per: int, i: nat, j: nat)
    requires Layout(ws, total, per) && per > 0 && i < j < |ws|
    ensures ws[i].end <= ws[j].begin
    decreases j
  {
    if i < j - 1 {
      BatchesOrdered(ws, total, per, i, j - 1);
    }
  }

  /** Every index below the frontier belongs to a batch. */
  lemma {:induction false} OwnerOf(ws: seq<Worker>, total: int, per: int, idx: int) returns (i: nat)
    requires Layout(ws, total, per) && per > 0 && 0 <= idx < total && idx < Frontier(ws, per)
    ensures i < |ws| && ws[i].begin <= idx < ws[i].end
  {
    i := |ws| - 1;
    if idx < ws[i].begin {
      assert ws[..i][|ws[..i]| - 1].begin + per == ws[i].begin;
      i := OwnerOf(ws[..i], total, per, idx);
    }
  }

  lemma {:induction false} BeginAt(ws: seq<Worker>, total: int, per: int, i: nat)
    requires Layout(ws, total, per) && i < |ws|
    ensures ws[i].begin == i * per
  {
    if i > 0 {
      BeginAt(ws, total, per, i - 1);
      assert (i - 1) * per + per == i * per;
    }
  }

  // ---------- the invariant ----------

  ghost predicate GoodWorker(w: Worker, receiving: bool) {
    && w.begin <= w.next <= w.end
    && (w.pc == Starting ==> w.next == w.begin)
    && (w.pc in {Starting, Running} ==> w.err == None)
    && (w.pc == Sending && w.err == None ==> w.next == w.end)
    && (w.counted ==> w.pc in {Leaving, Exited} && w.err == None && w.next == w.end)
    && (receiving && w.pc in {Leaving, Exited} ==> w.counted)
  }

  ghost predicate Receiving(s: State) {
    s.main.Spawning? || s.main.Collecting?
  }

  ghost predicate Decided(s: State) {
    s.main.Waiting? || s.main.Returned?
  }

  /** The calls made are those of every worker up to its position. */
  ghost predicate CallsMatch(s: State) {
    && (forall i, idx | 0 <= i < |s.workers| && s.workers[i].begin <= idx < s.workers[i].end ::
          s.ran[idx] == if idx < s.workers[i].next then 1 else 0)
    && (forall idx | idx in s.ran :: 0 <= idx < s.total && idx < Frontier(s.workers, s.per))
  }

  ghost predicate Holder(s: State, e: Error) {
    exists i :: 0 <= i < |s.workers| && s.workers[i].err == Some(e)
  }

  /** The errors returned are those the workers hold. */
  ghost predicate ErrorsMatch(s: State) {
    && (forall i | 0 <= i < |s.workers| && s.workers[i].err.Some? :: s.workers[i].err.value in s.errors)
    && (forall e | e in s.errors :: Holder(s, e))
  }

  ghost predicate MainMatches(s: State) {
    && s.routineNum == |s.workers| && s.wg == Live(s.workers) && s.count == Counted(s.workers)
    && (s.main.Spawning? ==> s.main.begin == Frontier(s.workers, s.per) && s.count == 0)
    && (!s.main.Spawning? ==> Frontier(s.workers, s.per) >= s.total)
    && (s.main.Collecting? ==> s.count < s.routineNum)
    && (s.main.Closing? ==> s.main.error in s.errors)
    && (Decided(s) ==>
          if s.main.result == None then s.count == s.routineNum else s.main.result.value in s.errors)
    && (s.main.Returned? ==> s.wg == 0)
    && s.closes == (if Decided(s) && s.main.result.Some? then 1 else 0)
  }

  ghost predicate Inv(s: State) {
    && (s.total > 0 ==> s.per > 0)
    && Layout(s.workers, s.total, s.per)
    && (forall i | 0 <= i < |s.workers| :: GoodWorker(s.workers[i], Receiving(s)))
    && CallsMatch(s)
    && ErrorsMatch(s)
    && MainMatches(s)
  }

  lemma InitInv(total: int, maxParallel: int)
    ensures Inv(Init(total, maxParallel))
  {
    var m := Workers(maxParallel);
    if total > 0 {
      assert (total + m - 1) / m >= 1;
    }
  }

  lemma LayoutAfterUpdate(ws: seq<Worker>, total: int, per: int, i: nat, w: Worker)
    requires Layout(ws, total, per) && i < |ws| && w.begin == ws[i].begin && w.end == ws[i].end
    ensures Layout(ws[i := w], total, per) && Frontier(ws[i := w], per) == Frontier(ws, per)
  {
  }

  lemma LayoutAfterAppend(ws: seq<Worker>, total: int, per: int, w: Worker)
    requires Layout(ws, total, per) && w.begin == Frontier(ws, per) && 0 <= w.begin < total
    requires w.end == Min(total, w.begin + per)
    ensures Layout(ws + [w], total, per) && Frontier(ws + [w], per) == w.begin + per
  {
  }

  lemma MovedIsGood(w: Worker, a: Action, quit: bool, receiving: bool, receiving': bool)
    requires GoodWorker(w, receiving) && Ready(w, a) && (quit ==> !receiving)
    requires receiving' ==> receiving
    requires a.Deliver? && w.err.Some? ==> !receiving'
    requires a.Abandon? ==> !receiving
    ensures GoodWorker(Moved(w, a, quit), receiving')
    ensures Moved(w, a, quit).begin == w.begin && Moved(w, a, quit).end == w.end
  {
  }

  lemma WorkerStepKeepsLayout(s: State, i: nat, a: Action)
    requires Inv(s) && Enabled(s, OfWorker(i, a))
    ensures var s' := AfterWorker(s, i, a);
            && Layout(s'.workers, s'.total, s'.per) && Frontier(s'.workers, s'.per) == Frontier(s.workers, s.per)
            && forall j | 0 <= j < |s'.workers| :: GoodWorker(s'.workers[j], Receiving(s'))
  {
    var s' := AfterWorker(s, i, a);
    MovedIsGood(s.workers[i], a, s.closes > 0, Receiving(s), Receiving(s'));
    LayoutAfterUpdate(s.workers, s.total, s.per, i, s'.workers[i]);
    forall j | 0 <= j < |s'.workers| ensures GoodWorker(s'.workers[j], Receiving(s')) {
      assert GoodWorker(s.workers[j], Receiving(s));
    }
  }

  lemma DeliverKeepsMain(s: State, i: nat)
    requires Inv(s) && Enabled(s, OfWorker(i, Deliver))
    ensures MainMatches(AfterWorker(s, i, Deliver))
  {
    var s' := AfterWorker(s, i, Deliver);
    LayoutAfterUpdate(s.workers, s.total, s.per, i, s'.workers[i]);
    SumsAfterUpdate(s.workers, i, s'.workers[i]);
  }

  lemma WorkerStepKeepsMain(s: State, i: nat, a: Action)
    requires Inv(s) && Enabled(s, OfWorker(i, a))
    ensures MainMatches(AfterWorker(s, i, a))
  {
    hide CallsMatch, ErrorsMatch, Layout, Live, Counted, TotalWork, WorkLeft;
    var s' := AfterWorker(s, i, a);
    assert GoodWorker(s.workers[i], Receiving(s));
    LayoutAfterUpdate(s.workers, s.total, s.per, i, s'.workers[i]);
    SumsAfterUpdate(s.workers, i, s'.workers[i]);
    if a.Deliver? {
      DeliverKeepsMain(s, i);
    } else if a.SignalDone? {
      assert s.wg > 0;
    }
  }

  lemma CallsAfterUpdate(s: State, s': State, i: nat)
    requires CallsMatch(s) && i < |s.workers| && |s'.workers| == |s.workers|
    requires s'.workers == s.workers[i := s'.workers[i]]
    requires s'.workers[i].begin == s.workers[i].begin && s'.workers[i].end == s.workers[i].end
    requires s'.workers[i].next == s.workers[i].next
    requires s'.ran == s.ran && s'.total == s.total && s'.per == s.per
    ensures CallsMatch(s')
  {
  }

  lemma ErrorsAfterUpdate(s: State, s': State, i: nat)
    requires ErrorsMatch(s) && i < |s.workers| && |s'.workers| == |s.workers|
    requires s'.workers == s.workers[i := s'.workers[i]] && s'.workers[i].err == s.workers[i].err
    requires s'.errors == s.errors
    ensures ErrorsMatch(s')
  {
    forall e | e in s'.errors ensures Holder(s', e) {
      assert Holder(s, e);
      var j :| 0 <= j < |s.workers| && s.workers[j].err == Some(e);
      assert s'.workers[j].err == Some(e);
    }
  }

  lemma BatchesDisjoint(ws: seq<Worker>, total: int, per: int, i: nat, j: nat)
    requires Layout(ws, total, per) && per > 0 && i < |ws| && j < |ws| && i != j
    ensures ws[i].end <= ws[j].begin || ws[j].end <= ws[i].begin
  {
    if i < j {
      BatchesOrdered(ws, total, per, i, j);
    } else {
      BatchesOrdered(ws, total, per, j, i);
    }
  }

  lemma BelowFrontier(ws: seq<Worker>, total: int, per: int, i: nat)
    requires Layout(ws, total, per) && per > 0 && i < |ws|
    ensures ws[i].end <= total && ws[i].end <= Frontier(ws, per)
  {
    if i < |ws| - 1 {
      BatchesOrdered(ws, total, per, i, |ws| - 1);
    }
  }

  lemma InvokeKeepsCalls(s: State, i: nat, outcome: Option<Error>)
    requires Inv(s) && Enabled(s, OfWorker(i, Invoke(outcome)))
    ensures CallsMatch(AfterWorker(s, i, Invoke(outcome)))
  {
    hide ErrorsMatch, MainMatches;
    var s' := AfterWorker(s, i, Invoke(outcome));
    var w := s.workers[i];
    assert GoodWorker(w, Receiving(s));
    LayoutAfterUpdate(s.workers, s.total, s.per, i, s'.workers[i]);
    assert s'.ran == s.ran + multiset{w.next};
    BelowFrontier(s.workers, s.total, s.per, i);
    forall j, k | 0 <= j < |s'.workers| && s'.workers[j].begin <= k < s'.workers[j].end
      ensures s'.ran[k] == if k < s'.workers[j].next then 1 else 0
    {
      if j != i {
        BatchesDisjoint(s.workers, s.total, s.per, i, j);
        assert k != w.next && s'.workers[j] == s.workers[j];
      }
    }
  }

  lemma InvokeKeepsErrors(s: State, i: nat, outcome: Option<Error>)
    requires Inv(s) && Enabled(s, OfWorker(i, Invoke(outcome)))
    ensures ErrorsMatch(AfterWorker(s, i, Invoke(outcome)))
  {
    var s' := AfterWorker(s, i, Invoke(outcome));
    assert GoodWorker(s.workers[i], Receiving(s));
    forall e | e in s'.errors ensures Holder(s', e) {
      if outcome == Some(e) {
        assert s'.workers[i].err == Some(e);
      } else {
        assert Holder(s, e);
        var j :| 0 <= j < |s.workers| && s.workers[j].err == Some(e);
        assert s'.workers[j].err == Some(e);
      }
    }
  }

  lemma WorkerStepKeepsInv(s: State, i: nat, a: Action)
    requires Inv(s) && Enabled(s, OfWorker(i, a))
    ensures Inv(AfterWorker(s, i, a))
  {
    var s' := AfterWorker(s, i, a);
    WorkerStepKeepsLayout(s, i, a);
    WorkerStepKeepsMain(s, i, a);
    if a.Invoke? {
      InvokeKeepsCalls(s, i, a.outcome);
      InvokeKeepsErrors(s, i, a.outcome);
    } else {
      CallsAfterUpdate(s, s', i);
      ErrorsAfterUpdate(s, s', i);
    }
  }

  lemma SpawnKeepsCalls(s: State)
    requires Inv(s) && Enabled(s, OfMain(Spawn))
    ensures CallsMatch(AfterMain(s, Spawn))
  {
    var s' := AfterMain(s, Spawn);
    forall i, idx | 0 <= i < |s'.workers| && s'.workers[i].begin <= idx < s'.workers[i].end
      ensures s'.ran[idx] == if idx < s'.workers[i].next then 1 else 0
    {
      if i == |s.workers| {
        assert idx !in s.ran;
      } else {
        assert s'.workers[i] == s.workers[i];
      }
    }
  }

  lemma SpawnKeepsErrors(s: State)
    requires Inv(s) && Enabled(s, OfMain(Spawn))
    ensures ErrorsMatch(AfterMain(s, Spawn))
  {
    var s' := AfterMain(s, Spawn);
    forall e | e in s'.errors ensures Holder(s', e) {
      assert Holder(s, e);
      var i :| 0 <= i < |s.workers| && s.workers[i].err == Some(e);
      assert s'.workers[i].err == Some(e);
    }
  }

  lemma SpawnKeepsInv(s: State)
    requires Inv(s) && Enabled(s, OfMain(Spawn))
    ensures Inv(AfterMain(s, Spawn))
  {
    var s' := AfterMain(s, Spawn);
    SumsAfterAppend(s.workers, s'.workers[|s.workers|]);
    SpawnKeepsCalls(s);
    SpawnKeepsErrors(s);
    LayoutAfterAppend(s.workers, s.total, s.per, s'.workers[|s.workers|]);
    forall j | 0 <= j < |s'.workers| ensures GoodWorker(s'.workers[j], Receiving(s')) {
      if j < |s.workers| {
        assert GoodWorker(s.workers[j], Receiving(s));
      }
    }
  }

  /** What was called and what came back stays with the workers, whatever the caller does. */
  lemma RecordsStay(s: State, s': State)
    requires CallsMatch(s) && ErrorsMatch(s)
    requires s'.workers == s.workers && s'.ran == s.ran && s'.errors == s.errors
    requires s'.total == s.total && s'.per == s.per
    ensures CallsMatch(s') && ErrorsMatch(s')
  {
    forall e | e in s'.errors ensures Holder(s', e) {
      assert Holder(s, e);
    }
  }

  lemma MainStepKeepsInv(s: State, m: MainStep)
    requires Inv(s) && Enabled(s, OfMain(m)) && m != Spawn
    ensures Inv(AfterMain(s, m))
  {
    hide Layout, CallsMatch, ErrorsMatch, Live, Counted;
    CountedBounds(s.workers);
    RecordsStay(s, AfterMain(s, m));
  }

  lemma StepKeepsInv(s: State, step: Step)
    requires Inv(s) && Enabled(s, step)
    ensures Inv(Apply(s, step))
  {
    match step {
      case OfMain(Spawn) => SpawnKeepsInv(s);
      case OfMain(m) => MainStepKeepsInv(s, m);
      case OfWorker(i, a) => WorkerStepKeepsInv(s, i, a);
    }
  }

  // ---------- progress ----------

  /** An upper bound on the steps the whole system has left. */
  function StepsLeft(s: State): nat {
    TotalWork(s.workers) +
    match s.main
    case Spawning(begin) => 8 * (if begin < s.total then s.total - begin else 0) + 4
    case Collecting => 3
    case Closing(_) => 2
    case Waiting(_) => 1
    case Returned(_) => 0
  }

  /** The first worker that is not gone. */
  function FirstLive(ws: seq<Worker>): (i: nat)
    ensures i <= |ws|
    ensures i < |ws| ==> ws[i].pc != Exited
    ensures i == |ws| ==> forall j | 0 <= j < |ws| :: ws[j].pc == Exited
  {
    if ws == [] then 0
    else
      var i := FirstLive(ws[..|ws| - 1]);
      if i < |ws| - 1 then i else if ws[|ws| - 1].pc != Exited then |ws| - 1 else |ws|
  }

  /** Some step that can be taken; a callback it makes returns `outcome(index)`. */
  function NextStep(s: State, outcome: int -> Option<Error>): Step {
    match s.main
    case Spawning(begin) => OfMain(if begin < s.total then Spawn else EndSpawn)
    case Closing(_) => OfMain(CloseQuit)
    case _ =>
      var i := FirstLive(s.workers);
      if i == |s.workers| then OfMain(Finish)
      else
        OfWorker(i,
          match s.workers[i].pc
          case Starting => CheckQuit
          case Running =>
            if s.workers[i].next < s.workers[i].end then Invoke(outcome(s.workers[i].next)) else EndBatch
          case Sending => if s.main.Collecting? then Deliver else Abandon
          case _ => SignalDone)
  }

  /** No deadlock: until the runner has returned there is always a step to take. */
  lemma NeverStuck(s: State, outcome: int -> Option<Error>)
    requires Inv(s) && !s.main.Returned?
    ensures Enabled(s, NextStep(s, outcome))
  {
    CountedBounds(s.workers);
    var i := FirstLive(s.workers);
    if i < |s.workers| {
      assert GoodWorker(s.workers[i], Receiving(s));
    } else if s.main.Collecting? {
      forall j | 0 <= j < |s.workers| ensures s.workers[j].counted {
        assert GoodWorker(s.workers[j], Receiving(s));
      }
    }
  }

  lemma ActionDescends(w: Worker, a: Action, quit: bool)
    requires Ready(w, a)
    ensures WorkLeft(Moved(w, a, quit)) < WorkLeft(w)
    ensures a.Deliver? ==> WorkLeft(Moved(w, a, quit)) + 2 <= WorkLeft(w)
  {
  }

  lemma SpawnDescends(s: State)
    requires Inv(s) && Enabled(s, OfMain(Spawn))
    ensures StepsLeft(AfterMain(s, Spawn)) < StepsLeft(s)
  {
    SumsAfterAppend(s.workers, AfterMain(s, Spawn).workers[|s.workers|]);
  }

  lemma WorkerStepDescends(s: State, i: nat, a: Action)
    requires Enabled(s, OfWorker(i, a))
    ensures StepsLeft(AfterWorker(s, i, a)) < StepsLeft(s)
  {
    hide WorkLeft, Moved, TotalWork, Live, Counted;
    ActionDescends(s.workers[i], a, s.closes > 0);
    SumsAfterUpdate(s.workers, i, AfterWorker(s, i, a).workers[i]);
  }

  lemma MainStepDescends(s: State, m: MainStep)
    requires Enabled(s, OfMain(m)) && m != Spawn
    ensures StepsLeft(AfterMain(s, m)) < StepsLeft(s)
  {
    hide TotalWork;
  }

  /** No livelock: every step, whichever it is, uses up one of finitely many. */
  lemma EveryStepDescends(s: State, step: Step)
    requires Inv(s) && Enabled(s, step)
    ensures StepsLeft(Apply(s, step)) < StepsLeft(s)
  {
    hide Inv, StepsLeft, AfterMain, AfterWorker;
    match step {
      case OfWorker(i, a) => WorkerStepDescends(s, i, a);
      case OfMain(Spawn) => SpawnDescends(s);
      case OfMain(m) => MainStepDescends(s, m);
    }
  }

  // ---------- whole runs ----------

  ghost predicate IsRun(s: State, steps: seq<Step>)
    decreases |steps|
  {
    steps == [] || (Enabled(s, steps[0]) && IsRun(Apply(s, steps[0]), steps[1..]))
  }

  ghost function Last(s: State, steps: seq<Step>): State
    requires IsRun(s, steps)
    decreases |steps|
  {
    if steps == [] then s else Last(Apply(s, steps[0]), steps[1..])
  }

  lemma StepKeepsShape(s: State, step: Step)
    requires Enabled(s, step)
    ensures Apply(s, step).total == s.total && Apply(s, step).per == s.per
  {
  }

  lemma {:induction false} RunKeepsInv(s: State, steps: seq<Step>)
    requires Inv(s) && IsRun(s, steps)
    ensures Inv(Last(s, steps)) && |steps| + StepsLeft(Last(s, steps)) <= StepsLeft(s)
    ensures Last(s, steps).total == s.total && Last(s, steps).per == s.per
    decreases |steps|
  {
    if steps != [] {
      StepKeepsInv(s, steps[0]);
      EveryStepDescends(s, steps[0]);
      StepKeepsShape(s, steps[0]);
      RunKeepsInv(Apply(s, steps[0]), steps[1..]);
    }
  }

  lemma NothingTwice(s: State, idx: int)
    requires Inv(s)
    ensures s.ran[idx] <= 1
  {
    if idx in s.ran {
      var i := OwnerOf(s.workers, s.total, s.per, idx);
    }
  }

  lemma NilMeansAll(s: State)
    requires Inv(s) && s.main == Returned(None)
    ensures s.errors == {}
    ensures forall idx: int :: s.ran[idx] == if 0 <= idx < s.total then 1 else 0
  {
    CountedBounds(s.workers);
    forall i | 0 <= i < |s.workers| ensures s.workers[i].counted && s.workers[i].next == s.workers[i].end {
      assert GoodWorker(s.workers[i], Receiving(s));
    }
    forall idx: int ensures s.ran[idx] == if 0 <= idx < s.total then 1 else 0 {
      if 0 <= idx < s.total {
        var i := OwnerOf(s.workers, s.total, s.per, idx);
      } else {
        assert idx !in s.ran;
      }
    }
    assert forall e: Error :: e !in s.errors;
  }

  lemma CeilingCovers(total: int, m: int)
    requires total > 0 && m > 0
    ensures m * ((total + m - 1) / m) >= total
  {
  }

  lemma MultiplyMonotone(a: int, b: int, c: int)
    requires a <= b && c >= 0
    ensures a * c <= b * c
  {
  }

  /** At most max(1, maxParallel) goroutines are ever started. */
  lemma WorkerBound(s: State, maxParallel: int)
    requires Inv(s) && s.per == Init(s.total, maxParallel).per
    ensures |s.workers| <= Workers(maxParallel)
  {
    var m, n := Workers(maxParallel), |s.workers|;
    if n > m {
      BeginAt(s.workers, s.total, s.per, n - 1);
      CeilingCovers(s.total, m);
      MultiplyMonotone(m, n - 1, s.per);
    }
  }

  /** The runner over all interleavings: no index is called twice; a nil result means that every index of [0, total)
      was called once and none failed; a failure anywhere makes the result an error some call returned; and nobody
      is left running. */
  lemma EveryRunIsSafe(total: int, maxParallel: int, steps: seq<Step>)
    requires IsRun(Init(total, maxParallel), steps)
    ensures var s := Last(Init(total, maxParallel), steps);
            && (forall idx: int :: s.ran[idx] <= 1)
            && |s.workers| <= Workers(maxParallel) && s.closes <= 1
            && (s.main.Returned? ==>
                  && (s.main.result == None <==> s.errors == {})
                  && (s.main.result == None ==>
                        forall idx: int :: s.ran[idx] == if 0 <= idx < total then 1 else 0)
                  && (s.main.result.Some? ==> s.main.result.value in s.errors)
                  && forall i | 0 <= i < |s.workers| :: s.workers[i].pc == Exited)
  {
    var s0 := Init(total, maxParallel);
    InitInv(total, maxParallel);
    RunKeepsInv(s0, steps);
    var s := Last(s0, steps);
    forall idx: int ensures s.ran[idx] <= 1 {
      NothingTwice(s, idx);
    }
    if s.main == Returned(None) {
      NilMeansAll(s);
    }
    CountedBounds(s.workers);
    WorkerBound(s, maxParallel);
  }

  /** The runner always returns: no run is longer than a bound fixed at the start, and a run that cannot be continued
      has returned. */
  lemma EveryRunReturns(total: int, maxParallel: int, steps: seq<Step>, outcome: int -> Option<Error>)
    requires IsRun(Init(total, maxParallel), steps)
    ensures |steps| <= StepsLeft(Init(total, maxParallel)) == (if total > 0 then 8 * total + 4 else 4)
    ensures var s := Last(Init(total, maxParallel), steps);
            s.main.Returned? || Enabled(s, NextStep(s, outcome))
  {
    var s0 := Init(total, maxParallel);
    InitInv(total, maxParallel);
    RunKeepsInv(s0, steps);
    if !Last(s0, steps).main.Returned? {
      NeverStuck(Last(s0, steps), outcome);
    }
  }

  lemma BatchIsLeast(total: int, m: int)
    requires total > 0 && m > 0
    ensures var per := (total + m - 1) / m; per > 0 && (per - 1) * m < total <= per * m
  {
    var per := (total + m - 1) / m;
    assert per * m <= total + m - 1 < per * m + m;
    assert (per - 1) * m == per * m - m;
  }

  /** How the work is shared out: batches are the least size with which the allowed number of workers covers the total,
      and as many workers are started as it takes to cover it with batches of that size. */
  lemma WorkIsShared(total: int, maxParallel: int, steps: seq<Step>)
    requires total > 0 && IsRun(Init(total, maxParallel), steps)
    ensures var s, m := Last(Init(total, maxParallel), steps), if maxParallel <= 0 then 1 else maxParallel;
      && (s.per - 1) * m < total <= s.per * m
      && (!s.main.Spawning? ==> (|s.workers| - 1) * s.per < total <= |s.workers| * s.per)
      && forall i | 0 <= i < |s.workers| ::
           s.workers[i].begin == i * s.per && s.workers[i].end == Min(total, i * s.per + s.per)
  {
    var s0 := Init(total, maxParallel);
    InitInv(total, maxParallel);
    RunKeepsInv(s0, steps);
    BatchIsLeast(total, Workers(maxParallel));
    var s := Last(s0, steps);
    forall i | 0 <= i < |s.workers| ensures s.workers[i].begin == i * s.per {
      BeginAt(s.workers, s.total, s.per, i);
    }
    var n := |s.workers|;
    if !s.main.Spawning? {
      assert s.workers[n - 1].begin == (n - 1) * s.per;
      assert (n - 1) * s.per + s.per == n * s.per;
    }
  }

  // ---------- after the first failure ----------

  /** The worker has called nothing and is on its way out, or has not looked at `quit` yet. */
  predicate Standby(w: Worker) {
    w.pc in {Starting, Leaving, Exited} && w.next == w.begin && w.err == None
  }

  /** `quit` is closed, and worker `i` comes too late. */
  predicate TooLate(s: State, i: nat) {
    s.closes > 0 && i < |s.workers| && Standby(s.workers[i])
  }

  lemma StepStaysTooLate(s: State, step: Step, i: nat)
    requires Enabled(s, step) && TooLate(s, i)
    ensures TooLate(Apply(s, step), i)
    ensures Apply(s, step).workers[i].begin == s.workers[i].begin && Apply(s, step).workers[i].end == s.workers[i].end
  {
  }

  /** After close(quit), which the first failure to arrive brings about, a worker that has not looked yet calls
      nothing: over the rest of the run no index of its batch is called. */
  lemma {:induction false} LateWorkerCallsNothing(s: State, steps: seq<Step>, i: nat, idx: int)
    requires Inv(s) && IsRun(s, steps) && TooLate(s, i) && s.workers[i].begin <= idx < s.workers[i].end
    ensures TooLate(Last(s, steps), i) && Last(s, steps).ran[idx] == 0
    decreases |steps|
  {
    if steps != [] {
      StepKeepsInv(s, steps[0]);
      StepStaysTooLate(s, steps[0], i);
      LateWorkerCallsNothing(Apply(s, steps[0]), steps[1..], i, idx);
    }
  }

  // ---------- one callback ----------

  /** The errors at hand come from calls of `f` that were made, and no failed call is forgotten by its worker. */
  ghost predicate Faithful(s: State, f: int -> Option<Error>) {
    && (forall e | e in s.errors :: exists idx :: idx in s.ran && f(idx) == Some(e))
    && (forall i, idx | 0 <= i < |s.workers| && s.workers[i].begin <= idx < s.workers[i].next && f(idx).Some? ::
          s.workers[i].err.Some?)
  }

  predicate Follows(s: State, step: Step, f: int -> Option<Error>)
    requires Enabled(s, step)
  {
    step.OfWorker? && step.a.Invoke? ==> step.a.outcome == f(s.workers[step.i].next)
  }

  lemma WorkerStepKeepsOrigins(s: State, i: nat, a: Action, f: int -> Option<Error>)
    requires Inv(s) && Enabled(s, OfWorker(i, a)) && Follows(s, OfWorker(i, a), f) && Faithful(s, f)
    ensures var s' := AfterWorker(s, i, a);
            forall e | e in s'.errors :: exists idx :: idx in s'.ran && f(idx) == Some(e)
  {
    var s' := AfterWorker(s, i, a);
    forall e | e in s'.errors ensures exists idx :: idx in s'.ran && f(idx) == Some(e) {
      var idx :| (idx in s.ran || (a.Invoke? && idx == s.workers[i].next)) && f(idx) == Some(e);
      assert idx in s'.ran;
    }
  }

  lemma WorkerStepKeepsFailures(s: State, i: nat, a: Action, f: int -> Option<Error>)
    requires Inv(s) && Enabled(s, OfWorker(i, a)) && Follows(s, OfWorker(i, a), f) && Faithful(s, f)
    ensures var ws := AfterWorker(s, i, a).workers;
            forall j, idx | 0 <= j < |ws| && ws[j].begin <= idx < ws[j].next && f(idx).Some? :: ws[j].err.Some?
  {
    var ws := AfterWorker(s, i, a).workers;
    assert GoodWorker(s.workers[i], Receiving(s));
    forall j, idx | 0 <= j < |ws| && ws[j].begin <= idx < ws[j].next && f(idx).Some? ensures ws[j].err.Some? {
      if j != i {
        assert ws[j] == s.workers[j];
      }
    }
  }

  lemma StepKeepsFaithful(s: State, step: Step, f: int -> Option<Error>)
    requires Inv(s) && Enabled(s, step) && Follows(s, step, f) && Faithful(s, f)
    ensures Faithful(Apply(s, step), f)
  {
    match step {
      case OfMain(_) =>
      case OfWorker(i, a) =>
        WorkerStepKeepsOrigins(s, i, a, f);
        WorkerStepKeepsFailures(s, i, a, f);
    }
  }

  ghost predicate Sound(s: State, f: int -> Option<Error>, total: int) {
    Inv(s) && Faithful(s, f) && s.total == total
  }

  lemma StepKeepsAll(s: State, step: Step, f: int -> Option<Error>)
    requires Sound(s, f, s.total) && Enabled(s, step) && Follows(s, step, f)
    ensures Sound(Apply(s, step), f, s.total) && StepsLeft(Apply(s, step)) < StepsLeft(s)
  {
    StepKeepsInv(s, step);
    EveryStepDescends(s, step);
    StepKeepsFaithful(s, step, f);
    StepKeepsShape(s, step);
  }

  lemma NextStepFollows(s: State, f: int -> Option<Error>)
    requires Inv(s) && !s.main.Returned?
    ensures Enabled(s, NextStep(s, f)) && Follows(s, NextStep(s, f), f)
  {
    NeverStuck(s, f);
  }

  lemma NilMeansNoFailure(s: State, f: int -> Option<Error>, idx: int)
    requires Inv(s) && Faithful(s, f) && s.main == Returned(None) && 0 <= idx < s.total
    ensures f(idx) == None
  {
    CountedBounds(s.workers);
    NilMeansAll(s);
    assert idx in s.ran;
    var i := OwnerOf(s.workers, s.total, s.per, idx);
    assert GoodWorker(s.workers[i], Receiving(s));
    assert s.workers[i].counted;
  }

  lemma ResultMeans(s: State, f: int -> Option<Error>)
    requires Inv(s) && Faithful(s, f) && s.main.Returned?
    ensures s.main.result == None <==> forall idx | 0 <= idx < s.total :: f(idx) == None
    ensures s.main.result.Some? ==> exists idx :: 0 <= idx < s.total && idx in s.ran && f(idx) == s.main.result
    ensures forall idx: int :: s.ran[idx] <= if 0 <= idx < s.total then 1 else 0
    ensures s.main.result == None ==> forall idx | 0 <= idx < s.total :: s.ran[idx] == 1
  {
    forall idx: int ensures s.ran[idx] <= if 0 <= idx < s.total then 1 else 0 {
      NothingTwice(s, idx);
      assert idx in s.ran ==> 0 <= idx < s.total;
    }
    if s.main.result == None {
      NilMeansAll(s);
      forall idx | 0 <= idx < s.total ensures f(idx) == None {
        NilMeansNoFailure(s, f, idx);
      }
    } else {
      var e := s.main.result.value;
      assert e in s.errors;
      var idx :| idx in s.ran && f(idx) == Some(e);
      assert 0 <= idx < s.total && f(idx) == s.main.result;
    }
  }

  /** The whole runner on one callback, under a scheduler that may pick any step that can be taken: the result is nil
      exactly when no index fails, and otherwise the error of an index that does. */
  method ProcessFuncParallel(total: int, maxParallel: int, f: int -> Option<Error>, scheduler: State -> Step)
    returns (result: Option<Error>, ran: multiset<int>)
    ensures result == None <==> forall idx | 0 <= idx < total :: f(idx) == None
    ensures result.Some? ==> exists idx :: 0 <= idx < total && idx in ran && f(idx) == result
    ensures forall idx: int :: ran[idx] <= if 0 <= idx < total then 1 else 0
    ensures result == None ==> forall idx | 0 <= idx < total :: ran[idx] == 1
  {
    var s := Init(total, maxParallel);
    InitInv(total, maxParallel);
    while !s.main.Returned?
      invariant Sound(s, f, total)
      decreases StepsLeft(s)
    {
      NextStepFollows(s, f);
      var step := scheduler(s);
      if !Enabled(s, step) || !Follows(s, step, f) {
        step := NextStep(s, f);
      }
      StepKeepsAll(s, step, f);
      s := Apply(s, step);
    }
    result, ran := s.main.result, s.ran;
    ResultMeans(s, f);
  }

  /** The runner on a list of tasks: the same machine, with a task for each index. */
  method ProcessTaskParallel(maxParallel: int, tasks: seq<() -> Option<Error>>, scheduler: State -> Step)
    returns (result: Option<Error>, ran: multiset<int>)
    ensures result == None <==> forall i | 0 <= i < |tasks| :: tasks[i]() == None
    ensures result.Some? ==> exists i :: 0 <= i < |tasks| && i in ran && tasks[i]() == result
    ensures forall i: int :: ran[i] <= if 0 <= i < |tasks| then 1 else 0
    ensures result == None ==> forall i | 0 <= i < |tasks| :: ran[i] == 1
  {
    var f := i => if 0 <= i < |tasks| then tasks[i]() else None;
    result, ran := ProcessFuncParallel(|tasks|, maxParallel, f, scheduler);
    assert forall i | 0 <= i < |tasks| :: f(i) == tasks[i]();
  }
}
