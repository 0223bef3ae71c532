/**
  The boss-worker download engine of mtgf/gfclient_download.c as a transition system. One
  boss enqueues `nrequests * nthreads` requests under a mutex and signals a condition
  variable; each worker pops `nrequests` of them. An action is one atomic step of one
  thread, so a list of actions is an interleaving.
 */
module Downloads {
  import opened Division
  import opened Workloads
  import opened Wrappers

  const MAX_PATH_LENGTH := 256

  datatype ConfigBase = Config(nthreads: nat, nrequests: nat, paths: seq<string>) {
    function Requests(): nat { nrequests * nthreads }
  }

  type Config = c: ConfigBase | c.paths != [] witness Config(0, 0, [""])

  /** Where the boss stands: creating thread `k`, in the enqueue loop, or joining thread `k`. */
  datatype Boss =
    | Create(k: nat)
    | Fetch
    | Lock(slot: nat)
    | Enqueue(slot: nat)
    | Signal
    | Unlock
    | Join(k: nat)
    | Return
    | Exit

  /** `Waiting` has released the mutex inside pthread_cond_wait; `Woken` must take it again. */
  datatype Place = Unborn | Head | Test | Waiting | Woken | Pop | Leave | Work | Done

  /**
    `left` requests to pop, and the local variable `req_path`; `took` and `did` are the slots that the
    worker has popped and has finished working on, in order.
   */
  datatype Worker = Worker(pc: Place, left: nat, req: Option<nat>, took: seq<nat>, did: seq<nat>)

  function NewWorker(nrequests: nat): Worker { Worker(Unborn, nrequests, None, [], []) }

  datatype Holder = Free | ByBoss | ByWorker(w: nat)

  datatype State = State(boss: Boss, sent: nat, counter: nat, lock: Holder,
                         queue: seq<nat>, workers: seq<Worker>, popped: seq<nat>, finished: seq<nat>)

  /** `wake` is the set of waiters that pthread_cond_signal happens to unblock. */
  datatype Action = BossStep(wake: set<nat>) | WorkerStep(w: nat) | Spurious(w: nat)

  function Init(c: Config): State {
    State(Create(0), 0, 0, Free, [], seq(c.nthreads, _ => NewWorker(c.nrequests)), [], [])
  }

  predicate IsWaiting(s: State, w: nat) {
    w < |s.workers| && s.workers[w].pc.Waiting?
  }

  /** A signal unblocks at least one waiter, and only waiters. */
  predicate MayWake(s: State, wake: set<nat>) {
    && (forall w :: w in wake ==> IsWaiting(s, w))
    && (wake == {} ==> forall w :: 0 <= w < |s.workers| ==> !IsWaiting(s, w))
  }

  predicate BossEnabled(s: State, wake: set<nat>) {
    match s.boss
    case Lock(_) => s.lock.Free?
    case Signal => MayWake(s, wake)
    case Join(k) => k < |s.workers| ==> s.workers[k].pc.Done?
    case Return => false
    case Exit => false
    case _ => true
  }

  predicate WorkerEnabled(s: State, w: nat) {
    w < |s.workers| &&
    match s.workers[w].pc
    case Head => s.workers[w].left > 0 ==> s.lock.Free?
    case Woken => s.lock.Free?
    case Unborn => false
    case Waiting => false
    case Done => false
    case _ => true
  }

  /** After `exit` no thread takes a step. */
  predicate Enabled(s: State, a: Action) {
    !s.boss.Exit? &&
    match a
    case BossStep(wake) => BossEnabled(s, wake)
    case WorkerStep(w) => WorkerEnabled(s, w)
    case Spurious(w) => IsWaiting(s, w)
  }

  function Wake(workers: seq<Worker>, wake: set<nat>): seq<Worker> {
    seq(|workers|, i requires 0 <= i < |workers| =>
      if i in wake then workers[i].(pc := Woken) else workers[i])
  }

  function BossNext(c: Config, s: State, wake: set<nat>): State
    requires BossEnabled(s, wake)
  {
    match s.boss
    case Create(k) =>
      if k < |s.workers| then s.(boss := Create(k + 1), workers := s.workers[k := s.workers[k].(pc := Head)])
      else s.(boss := Fetch)
    case Fetch =>
      if s.sent < c.Requests() then
        var slot := s.counter % |c.paths|;
        s.(counter := s.counter + 1, boss := if |c.paths[slot]| > MAX_PATH_LENGTH then Exit else Lock(slot))
      else s.(boss := Join(0))
    case Lock(slot) => s.(boss := Enqueue(slot), lock := ByBoss)
    case Enqueue(slot) => s.(boss := Signal, queue := s.queue + [slot])
    case Signal => s.(boss := Unlock, workers := Wake(s.workers, wake))
    case Unlock => s.(boss := Fetch, sent := s.sent + 1, lock := Free)
    case Join(k) => s.(boss := if k < |s.workers| then Join(k + 1) else Return)
  }

  function Popped(me: Worker, slot: nat): Worker {
    Worker(Leave, if me.left > 0 then me.left - 1 else 0, Some(slot), me.took + [slot], me.did)
  }

  function Worked(me: Worker, slot: nat): Worker {
    me.(pc := Head, did := me.did + [slot])
  }

  function WorkerNext(s: State, w: nat): State
    requires WorkerEnabled(s, w)
  {
    var me := s.workers[w];
    match me.pc
    case Head =>
      if me.left == 0 then s.(workers := s.workers[w := me.(pc := Done)])
      else s.(lock := ByWorker(w), workers := s.workers[w := me.(pc := Test)])
    case Test =>
      if s.queue == [] then s.(lock := Free, workers := s.workers[w := me.(pc := Waiting)])
      else s.(workers := s.workers[w := me.(pc := Pop)])
    case Woken => s.(lock := ByWorker(w), workers := s.workers[w := me.(pc := Test)])
    case Pop =>
      if s.queue == [] then s.(boss := Exit)  // underflow: the program prints an error and exits
      else s.(queue := s.queue[1..], popped := s.popped + [s.queue[0]],
         workers := s.workers[w := Popped(me, s.queue[0])])
    case Leave => s.(lock := Free, workers := s.workers[w := me.(pc := Work)])
    case Work =>
      if me.req.None? then s.(workers := s.workers[w := me.(pc := Head)])
      else s.(finished := s.finished + [me.req.value], workers := s.workers[w := Worked(me, me.req.value)])
  }

  function Next(c: Config, s: State, a: Action): State
    requires Enabled(s, a)
  {
    match a
    case BossStep(wake) => BossNext(c, s, wake)
    case WorkerStep(w) => WorkerNext(s, w)
    case Spurious(w) => s.(workers := s.workers[w := s.workers[w].(pc := Woken)])
  }

  // ---- Runs --------------------------------------------------------------------

  predicate Legal(c: Config, s: State, run: seq<Action>)
    decreases |run|
  {
    run == [] || (Enabled(s, run[0]) && Legal(c, Next(c, s, run[0]), run[1..]))
  }

  function Exec(c: Config, s: State, run: seq<Action>): State
    requires Legal(c, s, run)
    decreases |run|
  {
    if run == [] then s else Exec(c, Next(c, s, run[0]), run[1..])
  }

  function SpuriousCount(run: seq<Action>): nat {
    if run == [] then 0 else (if run[0].Spurious? then 1 else 0) + SpuriousCount(run[1..])
  }

  // ---- Sums over the workers ---------------------------------------------------

  function Sum(f: Worker -> nat, workers: seq<Worker>): nat {
    if workers == [] then 0 else Sum(f, workers[..|workers| - 1]) + f(workers[|workers| - 1])
  }

  lemma {:induction false} SumUpdate(f: Worker -> nat, workers: seq<Worker>, w: nat, x: Worker)
    requires w < |workers|
    ensures Sum(f, workers[w := x]) == Sum(f, workers) - f(workers[w]) + f(x)
    ensures Sum(f, workers) >= f(workers[w])
  {
    var last := |workers| - 1;
    if w == last {
      assert workers[w := x][..last] == workers[..last];
    } else {
      SumUpdate(f, workers[..last], w, x);
      assert workers[w := x][..last] == workers[..last][w := x];
    }
  }

  lemma {:induction false} SumWake(f: Worker -> nat, workers: seq<Worker>, wake: set<nat>, gain: nat)
    requires forall w :: w in wake && w < |workers| ==> f(workers[w].(pc := Woken)) == f(workers[w]) + gain
    ensures Sum(f, workers) <= Sum(f, Wake(workers, wake))
    ensures forall w :: w in wake && w < |workers| ==> Sum(f, workers) + gain <= Sum(f, Wake(workers, wake))
    ensures gain == 0 ==> Sum(f, workers) == Sum(f, Wake(workers, wake))
  {
    if workers != [] {
      var last := |workers| - 1;
      SumWake(f, workers[..last], wake, gain);
      assert Wake(workers, wake)[..last] == Wake(workers[..last], wake);
    }
  }

  lemma {:induction false} SumWakeAtMost(f: Worker -> nat, workers: seq<Worker>, wake: set<nat>)
    requires forall w :: w in wake && w < |workers| ==> f(workers[w].(pc := Woken)) <= f(workers[w]) + 3
    ensures Sum(f, Wake(workers, wake)) <= Sum(f, workers) + 3 * |workers|
  {
    if workers != [] {
      var last := |workers| - 1;
      SumWakeAtMost(f, workers[..last], wake);
      assert Wake(workers, wake)[..last] == Wake(workers[..last], wake);
    }
  }

  lemma {:induction false} SumBound(f: Worker -> nat, workers: seq<Worker>, bound: nat)
    requires forall x :: x in workers ==> f(x) <= bound
    ensures Sum(f, workers) <= bound * |workers|
    ensures (forall x :: x in workers ==> f(x) == bound) ==> Sum(f, workers) == bound * |workers|
  {
    if workers != [] {
      var last := |workers| - 1;
      assert workers[last] in workers;
      forall x | x in workers[..last] ensures x in workers {}
      SumBound(f, workers[..last], bound);
      assert bound * |workers| == bound * last + bound;
    }
  }

  /** What is still to pop. */
  function Left(x: Worker): nat { x.left }

  /** Workers that hold a claim on a queued request: woken, or inside the mutex before the pop. */
  function Claim(x: Worker): nat { if x.pc in {Woken, Test, Pop} then 1 else 0 }

  function WokenOnly(x: Worker): nat { if x.pc.Woken? then 1 else 0 }

  /** Program points of a worker, in the order in which one request passes them. */
  function Rank(x: Worker): nat {
    match x.pc
    case Leave => 6
    case Work => 5
    case Unborn => 5
    case Head => 4
    case Woken => 3
    case Test => 2
    case Pop => 1
    case Waiting => 0
    case Done => 0
  }

  // ---- The invariant -----------------------------------------------------------

  predicate InsideMutex(pc: Place) { pc in {Test, Pop, Leave} }

  predicate BossInside(b: Boss) { b.Enqueue? || b.Signal? || b.Unlock? }

  function Enqueued(s: State): nat {
    s.sent + if s.boss.Signal? || s.boss.Unlock? then 1 else 0
  }

  ghost predicate MutualExclusion(s: State) {
    && (forall w :: 0 <= w < |s.workers| ==> (InsideMutex(s.workers[w].pc) <==> s.lock == ByWorker(w)))
    && (BossInside(s.boss) <==> s.lock.ByBoss?)
    && (s.lock.ByWorker? ==> s.lock.w < |s.workers|)
  }

  ghost predicate WorkersOk(c: Config, s: State) {
    && |s.workers| == c.nthreads
    && forall w {:trigger s.workers[w]} :: 0 <= w < |s.workers| ==>
      var x := s.workers[w];
      && (x.pc.Unborn? <==> s.boss.Create? && s.boss.k <= w)
      && (x.pc in {Test, Waiting, Woken, Pop} ==> x.left > 0)
      && (x.pc.Done? ==> x.left == 0)
      && (x.pc.Pop? ==> s.queue != [])
  }

  ghost predicate BossOk(c: Config, s: State) {
    && s.sent <= c.Requests()
    && s.counter == s.sent + (if s.boss.Lock? || BossInside(s.boss) || s.boss.Exit? then 1 else 0)
    && (s.counter > s.sent ==> s.sent < c.Requests())
    && (s.boss.Create? ==> s.boss.k <= c.nthreads && s.sent == 0)
    && (s.boss.Lock? || s.boss.Enqueue? ==> s.boss.slot == s.sent % |c.paths|)
    && (s.boss.Join? || s.boss.Return? ==> s.sent == c.Requests())
    && (s.boss.Join? ==>
          s.boss.k <= c.nthreads && forall w :: 0 <= w < s.boss.k && w < |s.workers| ==> s.workers[w].pc.Done?)
    && (s.boss.Return? ==> forall w :: 0 <= w < |s.workers| ==> s.workers[w].pc.Done?)
  }

  ghost predicate PathsOk(c: Config, s: State) {
    && (forall i :: 0 <= i < s.counter - (if s.boss.Exit? then 1 else 0) ==>
          |c.paths[i % |c.paths|]| <= MAX_PATH_LENGTH)
    && (s.boss.Exit? ==> s.counter > 0 && |c.paths[(s.counter - 1) % |c.paths|]| > MAX_PATH_LENGTH)
  }

  /** Nothing is lost, duplicated or reordered between the workload and the pops. */
  ghost predicate Fifo(c: Config, s: State) {
    && s.popped + s.queue == Served(|c.paths|, Enqueued(s))
    && |s.popped| + Sum(Left, s.workers) == c.Requests()
  }

  /** A worker between its pop and the end of its work on the popped request. */
  predicate Busy(x: Worker) { x.pc in {Leave, Work} }

  function Hand(x: Worker): multiset<nat> {
    if Busy(x) && x.req.Some? then multiset{x.req.value} else multiset{}
  }

  /** The requests that the workers have in hand. */
  function InHand(workers: seq<Worker>): multiset<nat> {
    if workers == [] then multiset{} else InHand(workers[..|workers| - 1]) + Hand(workers[|workers| - 1])
  }

  lemma {:induction false} InHandUpdate(workers: seq<Worker>, w: nat, x: Worker)
    requires w < |workers|
    ensures InHand(workers[w := x]) + Hand(workers[w]) == InHand(workers) + Hand(x)
  {
    hide Hand;
    var last := |workers| - 1;
    var init := workers[..last];
    if w == last {
      assert workers[w := x][..last] == init;
      Shuffle(InHand(init), Hand(x), Hand(workers[w]));
    } else {
      InHandUpdate(init, w, x);
      assert workers[w := x][..last] == init[w := x];
      Shuffle(InHand(init[w := x]), Hand(workers[last]), Hand(workers[w]));
      Shuffle(InHand(init), Hand(workers[last]), Hand(x));
    }
  }

  lemma Shuffle(a: multiset<nat>, b: multiset<nat>, c: multiset<nat>)
    ensures (a + b) + c == (a + c) + b == a + (b + c)
  {}

  lemma Cancel(a: multiset<nat>, b: multiset<nat>, c: multiset<nat>)
    requires a + c == b + c
    ensures a == b
  {
    assert a == (a + c) - c && b == (b + c) - c;
  }

  lemma {:induction false} InHandSame(a: seq<Worker>, b: seq<Worker>)
    requires |a| == |b| && forall i :: 0 <= i < |a| ==> Hand(a[i]) == Hand(b[i])
    ensures InHand(a) == InHand(b)
  {
    hide Hand;
    if a != [] {
      InHandSame(a[..|a| - 1], b[..|b| - 1]);
    }
  }

  /** What a worker popped is what it worked on, but for the one request that it has in hand. */
  predicate HistoryOk(nrequests: nat, x: Worker) {
    && |x.took| + x.left == nrequests
    && if Busy(x) then x.req.Some? && x.took == x.did + [x.req.value] else x.took == x.did
  }

  /** No popped request is forgotten: it is finished or in the hand of a worker. */
  ghost predicate WorkOk(c: Config, s: State) {
    && multiset(s.popped) == multiset(s.finished) + InHand(s.workers)
    && forall w :: 0 <= w < |s.workers| ==> HistoryOk(c.nrequests, s.workers[w])
  }

  /** Every queued request has a claimant, or the signal for it is about to be sent. */
  ghost predicate NoLostWakeup(s: State) {
    (exists w :: IsWaiting(s, w)) ==>
      |s.queue| <= Sum(Claim, s.workers) + if s.boss.Signal? then 1 else 0
  }

  ghost predicate Inv(c: Config, s: State) {
    && MutualExclusion(s)
    && WorkersOk(c, s)
    && BossOk(c, s)
    && PathsOk(c, s)
    && Fifo(c, s)
    && NoLostWakeup(s)
    && WorkOk(c, s)
  }

  lemma InitInv(c: Config)
    ensures Inv(c, Init(c))
  {
    var s := Init(c);
    forall x | x in s.workers ensures Left(x) == c.nrequests {}
    SumBound(Left, s.workers, c.nrequests);
    EmptyHands(s.workers);
  }

  lemma {:induction false} EmptyHands(workers: seq<Worker>)
    requires forall i :: 0 <= i < |workers| ==> !Busy(workers[i])
    ensures InHand(workers) == multiset{}
  {
    if workers != [] {
      EmptyHands(workers[..|workers| - 1]);
    }
  }

  /** The boss moves a worker's program point at most, and never one that has a request in hand. */
  lemma BossLeavesWork(c: Config, s: State, wake: set<nat>, w: nat)
    requires WorkersOk(c, s) && BossEnabled(s, wake) && w < |s.workers|
    ensures var x, y := s.workers[w], BossNext(c, s, wake).workers[w];
            y == x.(pc := y.pc) && Busy(x) == Busy(y)
  {
    hide Config.Requests;
    assert s.boss.Signal? && w in wake ==> IsWaiting(s, w);
  }

  lemma SameWork(nrequests: nat, x: Worker, y: Worker)
    requires y == x.(pc := y.pc) && Busy(x) == Busy(y)
    ensures Hand(x) == Hand(y) && (HistoryOk(nrequests, x) <==> HistoryOk(nrequests, y))
  {}

  lemma BossKeepsWork(c: Config, s: State, wake: set<nat>)
    requires Inv(c, s) && BossEnabled(s, wake)
    ensures WorkOk(c, BossNext(c, s, wake))
  {
    hide Fifo, NoLostWakeup, MutualExclusion, PathsOk, BossOk, Config.Requests;
    hide InHand, Hand, HistoryOk, WorkersOk, Busy;
    var t := BossNext(c, s, wake);
    forall w | 0 <= w < |s.workers|
      ensures Hand(s.workers[w]) == Hand(t.workers[w]) && HistoryOk(c.nrequests, t.workers[w])
    {
      BossLeavesWork(c, s, wake, w);
      SameWork(c.nrequests, s.workers[w], t.workers[w]);
    }
    InHandSame(s.workers, t.workers);
  }

  lemma BossKeepsFifo(c: Config, s: State, wake: set<nat>)
    requires Inv(c, s) && BossEnabled(s, wake)
    ensures Fifo(c, BossNext(c, s, wake))
  {
    hide WorkOk;
    var t := BossNext(c, s, wake);
    match s.boss
    case Create(k) =>
      if k < |s.workers| {
        SumUpdate(Left, s.workers, k, t.workers[k]);
      }
    case Enqueue(slot) =>
      assert t.popped + t.queue == (s.popped + s.queue) + [slot];
    case Signal =>
      SumWake(Left, s.workers, wake, 0);
    case _ =>
  }

  lemma BossKeepsWakeups(c: Config, s: State, wake: set<nat>)
    requires Inv(c, s) && BossEnabled(s, wake)
    ensures NoLostWakeup(BossNext(c, s, wake))
  {
    hide WorkOk;
    var t := BossNext(c, s, wake);
    if w :| IsWaiting(t, w) {
      assert IsWaiting(s, w);
      match s.boss
      case Create(k) =>
        if k < |s.workers| {
          SumUpdate(Claim, s.workers, k, t.workers[k]);
        }
      case Signal =>
        assert wake != {};
        var v :| v in wake;
        assert IsWaiting(s, v);
        SumWake(Claim, s.workers, wake, 1);
      case _ =>
    }
  }

  lemma BossKeepsPlaces(c: Config, s: State, wake: set<nat>)
    requires Inv(c, s) && BossEnabled(s, wake)
    ensures MutualExclusion(BossNext(c, s, wake)) && WorkersOk(c, BossNext(c, s, wake))
  {
    hide Fifo, NoLostWakeup, PathsOk, Config.Requests, WorkOk;
  }

  lemma BossKeepsCounts(c: Config, s: State, wake: set<nat>)
    requires Inv(c, s) && BossEnabled(s, wake)
    ensures BossOk(c, BossNext(c, s, wake)) && PathsOk(c, BossNext(c, s, wake))
  {
    hide Fifo, NoLostWakeup, MutualExclusion, Config.Requests, WorkOk;
  }

  lemma BossKeepsInv(c: Config, s: State, wake: set<nat>)
    requires Inv(c, s) && BossEnabled(s, wake)
    ensures Inv(c, BossNext(c, s, wake))
  {
    hide BossNext, BossEnabled, MutualExclusion, WorkersOk, BossOk, PathsOk, Fifo, NoLostWakeup, WorkOk;
    BossKeepsWork(c, s, wake);
    BossKeepsPlaces(c, s, wake);
    BossKeepsCounts(c, s, wake);
    BossKeepsFifo(c, s, wake);
    BossKeepsWakeups(c, s, wake);
  }

  lemma WorkerKeepsMutex(c: Config, s: State, w: nat)
    requires Inv(c, s) && WorkerEnabled(s, w)
    ensures MutualExclusion(WorkerNext(s, w))
  {
    hide Fifo, NoLostWakeup, PathsOk, WorkersOk, BossOk, Config.Requests, WorkOk;
    var t := WorkerNext(s, w);
    assert forall v :: 0 <= v < |s.workers| && v != w ==> t.workers[v] == s.workers[v];
  }

  lemma WorkerKeepsPlaces(c: Config, s: State, w: nat)
    requires Inv(c, s) && WorkerEnabled(s, w)
    ensures WorkersOk(c, WorkerNext(s, w))
  {
    hide Fifo, NoLostWakeup, PathsOk, BossOk, Config.Requests, WorkOk;
    var t := WorkerNext(s, w);
    assert forall v :: 0 <= v < |s.workers| && v != w ==> t.workers[v] == s.workers[v];
  }

  lemma WorkerKeepsCounts(c: Config, s: State, w: nat)
    requires Inv(c, s) && WorkerEnabled(s, w)
    ensures BossOk(c, WorkerNext(s, w)) && PathsOk(c, WorkerNext(s, w))
  {
    hide Fifo, NoLostWakeup, MutualExclusion, Config.Requests, WorkOk;
    var t := WorkerNext(s, w);
    assert forall v :: 0 <= v < |s.workers| && v != w ==> t.workers[v] == s.workers[v];
  }

  lemma WorkerKeepsFifo(c: Config, s: State, w: nat)
    requires Inv(c, s) && WorkerEnabled(s, w)
    ensures Fifo(c, WorkerNext(s, w))
  {
    hide MutualExclusion, BossOk, PathsOk, NoLostWakeup, Config.Requests, WorkOk;
    var t := WorkerNext(s, w);
    SumUpdate(Left, s.workers, w, t.workers[w]);
    if s.workers[w].pc.Pop? {
      assert t.popped + t.queue == s.popped + s.queue;
    }
  }

  lemma WorkerKeepsWakeups(c: Config, s: State, w: nat)
    requires Inv(c, s) && WorkerEnabled(s, w)
    ensures NoLostWakeup(WorkerNext(s, w))
  {
    hide WorkOk;
    var t := WorkerNext(s, w);
    SumUpdate(Claim, s.workers, w, t.workers[w]);
    if v :| IsWaiting(t, v) {
      assert IsWaiting(s, v) || s.queue == [];
    }
  }

  lemma WorkerKeepsWork(c: Config, s: State, w: nat)
    requires Inv(c, s) && WorkerEnabled(s, w)
    ensures WorkOk(c, WorkerNext(s, w))
  {
    hide Fifo, NoLostWakeup, MutualExclusion, PathsOk, BossOk, InHand;
    var t := WorkerNext(s, w);
    var x, y := s.workers[w], t.workers[w];
    assert t.workers == s.workers[w := y];
    assert HistoryOk(c.nrequests, x);
    InHandUpdate(s.workers, w, y);
    HistoryNext(c, s, w);
    if x.pc.Pop? {
      TakeUp(s.popped, s.finished, InHand(s.workers), InHand(t.workers), s.queue[0]);
    } else if x.pc.Work? {
      PutDown(s.popped, s.finished, InHand(s.workers), InHand(t.workers), x.req.value);
    } else {
      assert Hand(x) == Hand(y);
      Cancel(InHand(t.workers), InHand(s.workers), Hand(x));
    }
  }

  lemma HistoryNext(c: Config, s: State, w: nat)
    requires WorkersOk(c, s) && WorkerEnabled(s, w) && HistoryOk(c.nrequests, s.workers[w])
    ensures HistoryOk(c.nrequests, WorkerNext(s, w).workers[w])
  {}

  lemma TakeUp(popped: seq<nat>, finished: seq<nat>, before: multiset<nat>, after: multiset<nat>, slot: nat)
    requires multiset(popped) == multiset(finished) + before && after + multiset{} == before + multiset{slot}
    ensures multiset(popped + [slot]) == multiset(finished) + after
  {
    assert multiset(popped + [slot]) == multiset(popped) + multiset{slot};
    Shuffle(multiset(finished), before, multiset{slot});
  }

  lemma PutDown(popped: seq<nat>, finished: seq<nat>, before: multiset<nat>, after: multiset<nat>, slot: nat)
    requires multiset(popped) == multiset(finished) + before && after + multiset{slot} == before + multiset{}
    ensures multiset(popped) == multiset(finished + [slot]) + after
  {
    assert multiset(finished + [slot]) == multiset(finished) + multiset{slot};
    Shuffle(multiset(finished), after, multiset{slot});
    Shuffle(multiset(finished), multiset{slot}, after);
  }

  lemma SpuriousKeepsPlaces(c: Config, s: State, w: nat)
    requires Inv(c, s) && Enabled(s, Spurious(w))
    ensures var t := Next(c, s, Spurious(w)); MutualExclusion(t) && WorkersOk(c, t) && BossOk(c, t) && PathsOk(c, t)
  {
    hide Fifo, NoLostWakeup, Config.Requests, WorkOk;
  }

  lemma SpuriousKeepsInv(c: Config, s: State, w: nat)
    requires Inv(c, s) && Enabled(s, Spurious(w))
    ensures Inv(c, Next(c, s, Spurious(w)))
  {
    hide MutualExclusion, WorkersOk, BossOk, PathsOk, Config.Requests, Sum, WorkOk;
    var t := Next(c, s, Spurious(w));
    SpuriousKeepsPlaces(c, s, w);
    SumUpdate(Left, s.workers, w, t.workers[w]);
    SumUpdate(Claim, s.workers, w, t.workers[w]);
    SpuriousKeepsWork(c, s, w);
  }

  lemma SpuriousKeepsWork(c: Config, s: State, w: nat)
    requires Inv(c, s) && Enabled(s, Spurious(w))
    ensures WorkOk(c, Next(c, s, Spurious(w)))
  {
    hide Fifo, NoLostWakeup, MutualExclusion, PathsOk, BossOk, InHand;
    var t := Next(c, s, Spurious(w));
    assert HistoryOk(c.nrequests, s.workers[w]);
    InHandSame(s.workers, t.workers);
  }

  lemma StepKeepsInv(c: Config, s: State, a: Action)
    requires Inv(c, s) && Enabled(s, a)
    ensures Inv(c, Next(c, s, a))
  {
    match a
    case BossStep(wake) => BossKeepsInv(c, s, wake);
    case WorkerStep(w) =>
      WorkerKeepsMutex(c, s, w);
      WorkerKeepsPlaces(c, s, w);
      WorkerKeepsCounts(c, s, w);
      WorkerKeepsFifo(c, s, w);
      WorkerKeepsWakeups(c, s, w);
      WorkerKeepsWork(c, s, w);
    case Spurious(w) => SpuriousKeepsInv(c, s, w);
  }

  /** The invariant holds in every reachable state. */
  lemma {:induction false} ExecKeepsInv(c: Config, s: State, run: seq<Action>)
    requires Inv(c, s) && Legal(c, s, run)
    ensures Inv(c, Exec(c, s, run))
    decreases |run|
  {
    if run != [] {
      StepKeepsInv(c, s, run[0]);
      ExecKeepsInv(c, Next(c, s, run[0]), run[1..]);
    }
  }

  ghost predicate Reachable(c: Config, s: State) {
    exists run :: Legal(c, Init(c), run) && s == Exec(c, Init(c), run)
  }

  lemma ReachableInv(c: Config, s: State)
    requires Reachable(c, s)
    ensures Inv(c, s)
  {
    var run :| Legal(c, Init(c), run) && s == Exec(c, Init(c), run);
    InitInv(c);
    ExecKeepsInv(c, Init(c), run);
  }

  // ---- Theorems about every interleaving ---------------------------------------

  /** Where the thread that holds the mutex stands. */
  datatype Section = Outside | BeforeEnqueue | BeforeSignal | AfterSignal | BeforeTest | BeforePop | AfterPop

  function SectionOf(s: State): Section {
    match s.lock
    case Free => Outside
    case ByBoss =>
      if s.boss.Enqueue? then BeforeEnqueue else if s.boss.Signal? then BeforeSignal else AfterSignal
    case ByWorker(w) =>
      if w >= |s.workers| || s.workers[w].pc.Leave? then AfterPop
      else if s.workers[w].pc.Test? then BeforeTest
      else BeforePop
  }

  /** The holder has a queued request to signal, or one to pop. */
  predicate Exposed(at: Section) { at in {BeforeSignal, BeforeTest, BeforePop} }

  /**
    No lost wakeup. While a worker waits, the queue is no longer than the woken workers that
    have not yet re-taken the mutex, plus one for a worker between its lock and its pop, plus
    one while the boss is between its enqueue and its signal.
   */
  lemma NoLostWakeupEver(c: Config, s: State)
    requires Reachable(c, s) && exists w :: IsWaiting(s, w)
    ensures |s.queue| <= Sum(Claim, s.workers) + if s.boss.Signal? then 1 else 0
    ensures !Exposed(SectionOf(s)) ==> |s.queue| <= Sum(WokenOnly, s.workers)
  {
    hide WorkOk;
    ReachableInv(c, s);
    if !Exposed(SectionOf(s)) {
      forall x | x in s.workers ensures Claim(x) == WokenOnly(x) {
        var w :| 0 <= w < |s.workers| && s.workers[w] == x;
      }
      SumSame(Claim, WokenOnly, s.workers);
    }
  }

  /** While a worker waits and the mutex is held at `at`, the woken workers suffice for the queue. */
  ghost predicate WokenSuffice(at: Section) {
    forall c, s :: Reachable(c, s) && SectionOf(s) == at && (exists w :: IsWaiting(s, w)) ==>
      |s.queue| <= Sum(WokenOnly, s.workers)
  }

  /** The bound by woken workers alone is guaranteed exactly where the holder owes no signal and no pop. */
  lemma WokenSufficeIff(at: Section)
    ensures WokenSuffice(at) <==> !Exposed(at)
  {
    if Exposed(at) {
      var c, s := SlackIsNeeded(at);
      assert !WokenSuffice(at);
    } else {
      forall c, s | Reachable(c, s) && SectionOf(s) == at && (exists w :: IsWaiting(s, w))
        ensures |s.queue| <= Sum(WokenOnly, s.workers)
      {
        NoLostWakeupEver(c, s);
      }
    }
  }

  lemma {:induction false} ExecSnoc(c: Config, s: State, run: seq<Action>, a: Action)
    requires Legal(c, s, run) && Enabled(Exec(c, s, run), a)
    ensures Legal(c, s, run + [a]) && Exec(c, s, run + [a]) == Next(c, Exec(c, s, run), a)
    decreases |run|
  {
    if run == [] {
      assert [] + [a] == [a] && [a][1..] == [];
    } else {
      assert (run + [a])[1..] == run[1..] + [a];
      ExecSnoc(c, Next(c, s, run[0]), run[1..], a);
    }
  }

  lemma ReachableStep(c: Config, s: State, a: Action) returns (t: State)
    requires Reachable(c, s) && Enabled(s, a)
    ensures t == Next(c, s, a) && Reachable(c, t)
  {
    var run :| Legal(c, Init(c), run) && s == Exec(c, Init(c), run);
    ExecSnoc(c, Init(c), run, a);
    t := Next(c, s, a);
  }

  /**
    The slack at the exposed points is real. One of two waiting workers is signalled, takes the mutex
    and pops: from the enqueue up to that pop the other one waits while no worker is woken for the
    queued request.
   */
  lemma SlackIsNeeded(at: Section) returns (c: Config, s: State)
    requires Exposed(at)
    ensures Reachable(c, s) && SectionOf(s) == at && IsWaiting(s, 1) && |s.queue| > Sum(WokenOnly, s.workers)
  {
    hide Reachable, Sum;
    c, s := BothWait();
    s := ReachableStep(c, s, BossStep({}));
    s := ReachableStep(c, s, BossStep({}));
    s := ReachableStep(c, s, BossStep({}));
    var none := [WaitingWorker(), WaitingWorker()];
    assert s.workers == none && s.queue == [0];
    if !at.BeforeSignal? {
      assert IsWaiting(s, 0);
      s := ReachableStep(c, s, BossStep({0}));
      s := ReachableStep(c, s, BossStep({}));
      s := ReachableStep(c, s, WorkerStep(0));
      if at.BeforePop? {
        s := ReachableStep(c, s, WorkerStep(0));
      }
    }
    NoneWoken(s.workers);
  }

  function WaitingWorker(): Worker { NewWorker(1).(pc := Waiting) }

  lemma NoneWoken(workers: seq<Worker>)
    requires forall x :: x in workers ==> !x.pc.Woken?
    ensures Sum(WokenOnly, workers) == 0
  {
    SumBound(WokenOnly, workers, 0);
  }

  /** Two workers wait for the first of two requests. */
  lemma BothWait() returns (c: Config, s: State)
    ensures Reachable(c, s) && c == Config(2, 1, [""])
    ensures s == State(Fetch, 0, 0, Free, [], [WaitingWorker(), WaitingWorker()], [], [])
  {
    hide Reachable;
    c := Config(2, 1, [""]);
    s := Init(c);
    StartReachable(c);
    s := ReachableStep(c, s, BossStep({}));
    s := ReachableStep(c, s, BossStep({}));
    s := ReachableStep(c, s, BossStep({}));
    s := ReachableStep(c, s, WorkerStep(0));
    s := ReachableStep(c, s, WorkerStep(0));
    s := ReachableStep(c, s, WorkerStep(1));
    s := ReachableStep(c, s, WorkerStep(1));
  }

  lemma StartReachable(c: Config)
    ensures Reachable(c, Init(c))
  {
    assert Legal(c, Init(c), []) && Init(c) == Exec(c, Init(c), []);
  }

  lemma {:induction false} SumSame(f: Worker -> nat, g: Worker -> nat, workers: seq<Worker>)
    requires forall x :: x in workers ==> f(x) == g(x)
    ensures Sum(f, workers) == Sum(g, workers)
  {
    if workers != [] {
      var last := |workers| - 1;
      assert workers[last] in workers;
      forall x | x in workers[..last] ensures x in workers {}
      SumSame(f, g, workers[..last]);
    }
  }

  /**
    Nothing is lost or duplicated: the pops so far followed by the queue are the first requests
    of the workload in order. No pop underflows: `exit` is reached only through an over-long path.
   */
  lemma FifoEver(c: Config, s: State)
    requires Reachable(c, s)
    ensures s.popped + s.queue == Served(|c.paths|, Enqueued(s)) && Enqueued(s) <= c.Requests()
    ensures forall w :: 0 <= w < |s.workers| && s.workers[w].pc.Pop? ==> s.queue != []
    ensures forall i :: 0 <= i < |s.popped| ==> s.popped[i] == i % |c.paths|
    ensures s.boss.Exit? ==> exists i :: 0 <= i < c.Requests() && !PathFits(c, i)
    ensures s.boss.Exit? <==> s.counter > 0 && |c.paths[(s.counter - 1) % |c.paths|]| > 256
  {
    hide WorkOk;
    ReachableInv(c, s);
    forall i | 0 <= i < |s.popped| ensures s.popped[i] == i % |c.paths| {
      assert (s.popped + s.queue)[i] == Served(|c.paths|, Enqueued(s))[i];
    }
    if s.boss.Exit? {
      assert !PathFits(c, s.counter - 1);
    }
  }

  /** No popped request is lost on the way: each one is finished or in the hand of a worker past its pop. */
  lemma PopsAreWorkedOn(c: Config, s: State)
    requires Reachable(c, s)
    ensures multiset(s.popped) == multiset(s.finished) + InHand(s.workers)
  {
    ReachableInv(c, s);
  }

  /**
    A worker is back at the head of its loop, or anywhere but between its pop and the end of its work,
    only when it has worked on every request it popped, in the order of its pops.
   */
  lemma WorkBeforeNextPop(c: Config, s: State, w: nat)
    requires Reachable(c, s) && w < |s.workers| && s.workers[w].pc !in {Leave, Work}
    ensures s.workers[w].did == s.workers[w].took && |s.workers[w].did| + s.workers[w].left == c.nrequests
  {
    ReachableInv(c, s);
    assert HistoryOk(c.nrequests, s.workers[w]);
  }

  /** At most one thread is between lock and unlock. */
  lemma OneThreadInside(c: Config, s: State, v: nat, w: nat)
    requires Reachable(c, s) && v < |s.workers| && w < |s.workers|
    requires s.workers[v].pc in {Test, Pop, Leave} && s.workers[w].pc in {Test, Pop, Leave}
    ensures v == w && s.boss !in {Signal, Unlock} && !s.boss.Enqueue?
  {
    hide WorkOk;
    ReachableInv(c, s);
  }

  /** Any set of waiters may be woken by a signal, but for the empty one while somebody waits. */
  lemma SignalChoices(c: Config, s: State, wake: set<nat>)
    requires Reachable(c, s) && s.boss == Signal && forall w :: w in wake ==> w < |s.workers|
    ensures Enabled(s, BossStep(wake)) <==>
            (forall w :: w in wake ==> s.workers[w].pc == Waiting)
            && (wake == {} ==> forall w :: 0 <= w < |s.workers| ==> s.workers[w].pc != Waiting)
    ensures forall w :: 0 <= w < |s.workers| && s.workers[w].pc == Waiting ==> Enabled(s, Spurious(w))
  {
    ReachableInv(c, s);
    forall w: nat | w < |s.workers| ensures IsWaiting(s, w) <==> s.workers[w].pc == Waiting {}
    if wake == {} && MayWake(s, wake) {
      forall w | 0 <= w < |s.workers| ensures s.workers[w].pc != Waiting {
        assert !IsWaiting(s, w);
      }
    }
  }

  /** A thread that holds the mutex can always move. */
  lemma HolderMoves(c: Config, s: State) returns (a: Action)
    requires Inv(c, s) && !s.lock.Free? && !s.boss.Exit?
    ensures Enabled(s, a) && !a.Spurious?
  {
    hide WorkOk;
    if s.lock.ByWorker? {
      return WorkerStep(s.lock.w);
    }
    if w :| IsWaiting(s, w) {
      return BossStep({w});
    }
    return BossStep({});
  }

  /** With every thread waiting or done and everything enqueued, nobody waits. */
  lemma NobodyWaits(c: Config, s: State, w: nat)
    requires Inv(c, s) && s.sent == c.Requests() && !s.boss.Exit?
    requires forall v :: 0 <= v < |s.workers| ==> s.workers[v].pc in {Waiting, Done}
    ensures !IsWaiting(s, w)
  {
    hide WorkOk;
    if IsWaiting(s, w) {
      forall x | x in s.workers ensures Claim(x) == 0 {
        var v :| 0 <= v < |s.workers| && s.workers[v] == x;
      }
      SumBound(Claim, s.workers, 0);
      assert |s.queue| == 0;
      assert |s.popped| == c.Requests() by {
        assert s.popped + s.queue == s.popped;
      }
      SumUpdate(Left, s.workers, w, s.workers[w]);
      assert false;
    }
  }

  /** Deadlock freedom: until main returns or exits, some thread has a step that is not a spurious wakeup. */
  lemma Progress(c: Config, s: State) returns (a: Action)
    requires Reachable(c, s) && !s.boss.Return? && !s.boss.Exit?
    ensures Enabled(s, a) && !a.Spurious?
  {
    hide WorkOk;
    ReachableInv(c, s);
    if !s.lock.Free? {
      a := HolderMoves(c, s);
    } else if w :| 0 <= w < |s.workers| && s.workers[w].pc !in {Unborn, Waiting, Done} {
      a := WorkerStep(w);
    } else if !s.boss.Join? {
      a := BossStep({});
    } else {
      if s.boss.k < |s.workers| {
        NobodyWaits(c, s, s.boss.k);
      }
      a := BossStep({});
    }
  }

  predicate PathFits(c: Config, i: nat) { |c.paths[i % |c.paths|]| <= MAX_PATH_LENGTH }

  /** When main returns, every request has been popped, in workload order, and every worker is done. */
  lemma ReturnMeansComplete(c: Config, s: State)
    requires Reachable(c, s) && s.boss.Return?
    ensures forall i :: 0 <= i < c.Requests() ==> PathFits(c, i)
    ensures forall i :: 0 <= i < c.nrequests * c.nthreads ==> |c.paths[i % |c.paths|]| <= 256
    ensures s.queue == [] && s.popped == Served(|c.paths|, c.Requests())
    ensures |s.popped| == c.nrequests * c.nthreads
    ensures forall i :: 0 <= i < |s.popped| ==> s.popped[i] == i % |c.paths|
    ensures |s.workers| == c.nthreads
    ensures forall w :: 0 <= w < |s.workers| ==> s.workers[w].pc == Done && s.workers[w].left == 0
    ensures forall w :: 0 <= w < |s.workers| ==>
              s.workers[w].did == s.workers[w].took && |s.workers[w].did| == c.nrequests
    ensures multiset(s.finished) == multiset(Served(|c.paths|, c.Requests()))
  {
    hide MutualExclusion, NoLostWakeup, InHand, Sum;
    ReachableInv(c, s);
    forall i | 0 <= i < c.Requests() ensures PathFits(c, i) {
      assert |c.paths[i % |c.paths|]| <= MAX_PATH_LENGTH;
    }
    forall x | x in s.workers ensures Left(x) == 0 {
      var w :| 0 <= w < |s.workers| && s.workers[w] == x;
    }
    SumBound(Left, s.workers, 0);
    assert |s.popped + s.queue| == c.Requests();
    assert s.popped + [] == s.popped;
    forall w | 0 <= w < |s.workers| ensures s.workers[w].did == s.workers[w].took && |s.workers[w].did| == c.nrequests {
      assert HistoryOk(c.nrequests, s.workers[w]);
    }
    EmptyHands(s.workers);
    forall i | 0 <= i < c.Requests() ensures |c.paths[i % |c.paths|]| <= 256 {
      assert PathFits(c, i);
    }
  }

  /**
    Completion. A run that no boss or worker step extends has returned from main if all requested
    paths fit, and has exited on an over-long path otherwise.
   */
  lemma StuckMeansComplete(c: Config, s: State)
    requires Reachable(c, s) && forall a :: Enabled(s, a) ==> a.Spurious?
    ensures s.boss.Return? <==> forall i :: 0 <= i < c.Requests() ==> PathFits(c, i)
    ensures s.boss.Exit? <==> !s.boss.Return?
  {
    if s.boss.Return? {
      ReturnMeansComplete(c, s);
    } else if s.boss.Exit? {
      FifoEver(c, s);
    } else {
      var a := Progress(c, s);
      assert false;
    }
  }

  /** Fair load of a completed run, for each slot of the workload. */
  lemma CompletedLoad(c: Config, s: State, j: nat)
    requires Reachable(c, s) && s.boss.Return? && j < |c.paths|
    ensures multiset(s.popped)[j] ==
            var requests := c.nrequests * c.nthreads;
            requests / |c.paths| + if j < requests % |c.paths| then 1 else 0
    ensures multiset(s.finished)[j] == multiset(s.popped)[j]
  {
    OccurrencesCount(j, s.popped);
    ReturnMeansComplete(c, s);
    FairLoad(|c.paths|, c.Requests(), j);
  }

  /** Boss steps that remain before main returns. */
  function BossLeft(c: Config, s: State): int {
    var toReturn := c.nthreads + 2;
    var perRequest := 5 * (c.Requests() - s.sent);
    match s.boss
    case Create(k) => c.nthreads - k + 1 + perRequest + toReturn
    case Fetch => perRequest + toReturn
    case Lock(_) => perRequest + toReturn - 1
    case Enqueue(_) => perRequest + toReturn - 2
    case Signal => perRequest + toReturn - 3
    case Unlock => perRequest + toReturn - 4
    case Join(k) => c.nthreads - k + 1
    case Return => 0
    case Exit => 0
  }

  /** One signal may wake every waiter, which a boss step therefore has to outweigh. */
  function Weighted(nthreads: nat, steps: int): int {
    steps * (3 * nthreads + 1)
  }

  /** The workers' share of the measure. */
  function Effort(workers: seq<Worker>): nat {
    6 * Sum(Left, workers) + Sum(Rank, workers)
  }

  function Measure(c: Config, s: State): int {
    Weighted(c.nthreads, BossLeft(c, s)) + Effort(s.workers)
  }

  lemma WeightedMonotone(nthreads: nat, a: int, b: int)
    requires a < b
    ensures Weighted(nthreads, a) + 3 * nthreads + 1 <= Weighted(nthreads, b)
  {
    ScaleStep(a, b - a - 1, 3 * nthreads + 1);
    assert a + (b - a - 1) + 1 == b;
  }

  lemma BossLeftShrinks(c: Config, s: State, wake: set<nat>)
    requires Inv(c, s) && BossEnabled(s, wake)
    ensures BossLeft(c, BossNext(c, s, wake)) < BossLeft(c, s)
  {
    hide WorkOk, Fifo, NoLostWakeup, MutualExclusion, PathsOk, Config.Requests;
  }

  lemma BossEffort(c: Config, s: State, wake: set<nat>)
    requires Inv(c, s) && BossEnabled(s, wake)
    ensures Effort(BossNext(c, s, wake).workers) <= Effort(s.workers) + 3 * c.nthreads
  {
    hide WorkOk;
    var t := BossNext(c, s, wake);
    match s.boss
    case Create(k) =>
      if k < |s.workers| {
        SumUpdate(Left, s.workers, k, t.workers[k]);
        SumUpdate(Rank, s.workers, k, t.workers[k]);
      }
    case Signal =>
      SumWake(Left, s.workers, wake, 0);
      forall w | w in wake && w < |s.workers|
        ensures Rank(s.workers[w].(pc := Woken)) <= Rank(s.workers[w]) + 3
      {
        assert IsWaiting(s, w);
      }
      SumWakeAtMost(Rank, s.workers, wake);
    case _ =>
  }

  lemma EffortUpdate(workers: seq<Worker>, w: nat, x: Worker)
    requires w < |workers|
    ensures Effort(workers[w := x]) == Effort(workers) - (6 * workers[w].left + Rank(workers[w])) + 6 * x.left + Rank(x)
  {
    SumUpdate(Left, workers, w, x);
    SumUpdate(Rank, workers, w, x);
  }

  lemma BossShrinks(c: Config, s: State, wake: set<nat>)
    requires Inv(c, s) && BossEnabled(s, wake)
    ensures Measure(c, BossNext(c, s, wake)) < Measure(c, s)
  {
    hide BossNext, BossLeft, Weighted, Effort, MutualExclusion, BossOk, PathsOk, Fifo, NoLostWakeup, WorkOk;
    var t := BossNext(c, s, wake);
    BossLeftShrinks(c, s, wake);
    BossEffort(c, s, wake);
    WeightedMonotone(c.nthreads, BossLeft(c, t), BossLeft(c, s));
  }

  /** A worker's step leaves the boss's part of the measure alone, unless the program exits. */
  lemma WorkerShrinks(c: Config, s: State, w: nat)
    requires Inv(c, s) && WorkerEnabled(s, w)
    ensures Measure(c, WorkerNext(s, w)) < Measure(c, s)
  {
    hide Weighted, Effort, Config.Requests, MutualExclusion, BossOk, PathsOk, Fifo, NoLostWakeup, WorkOk;
    var t := WorkerNext(s, w);
    assert BossLeft(c, t) == BossLeft(c, s);
    EffortUpdate(s.workers, w, t.workers[w]);
  }

  lemma StepShrinks(c: Config, s: State, a: Action)
    requires Inv(c, s) && Enabled(s, a)
    ensures Measure(c, Next(c, s, a)) <= Measure(c, s) + if a.Spurious? then 3 else -1
  {
    hide BossNext, WorkerNext, Weighted, Effort, MutualExclusion, BossOk, PathsOk, Fifo, NoLostWakeup, WorkOk;
    match a
    case BossStep(wake) => BossShrinks(c, s, wake);
    case WorkerStep(w) => WorkerShrinks(c, s, w);
    case Spurious(w) =>
      var t := Next(c, s, a);
      assert BossLeft(c, t) == BossLeft(c, s);
      EffortUpdate(s.workers, w, t.workers[w]);
  }

  lemma MeasureNonNegative(c: Config, s: State)
    requires Inv(c, s)
    ensures Measure(c, s) >= 0
  {
    hide WorkOk;
    assert BossLeft(c, s) >= 0;
    if BossLeft(c, s) > 0 {
      WeightedMonotone(c.nthreads, 0, BossLeft(c, s));
    }
  }

  lemma {:induction false} RunShrinks(c: Config, s: State, run: seq<Action>)
    requires Inv(c, s) && Legal(c, s, run)
    ensures |run| + Measure(c, Exec(c, s, run)) <= Measure(c, s) + 4 * SpuriousCount(run)
    decreases |run|
  {
    if run != [] {
      StepKeepsInv(c, s, run[0]);
      StepShrinks(c, s, run[0]);
      RunShrinks(c, Next(c, s, run[0]), run[1..]);
    }
  }

  lemma InitMeasure(c: Config)
    ensures Measure(c, Init(c)) ==
            Weighted(c.nthreads, 2 * c.nthreads + 3 + 5 * c.Requests()) + 6 * c.Requests() + 5 * c.nthreads
  {
    hide Weighted, Sum;
    var s := Init(c);
    forall x | x in s.workers ensures Rank(x) == 5 && Left(x) == c.nrequests {}
    SumBound(Rank, s.workers, 5);
    SumBound(Left, s.workers, c.nrequests);
  }

  /** Termination with an explicit bound: only spurious wakeups can prolong a run, by four steps each. */
  lemma RunsAreBounded(c: Config, run: seq<Action>)
    requires Legal(c, Init(c), run)
    ensures |run| <= Weighted(c.nthreads, 2 * c.nthreads + 3 + 5 * c.Requests())
                     + 6 * c.Requests() + 5 * c.nthreads + 4 * SpuriousCount(run)
  {
    hide Init, Inv, Measure, Weighted, Legal, Exec, SpuriousCount, Config.Requests;
    var s := Init(c);
    InitInv(c);
    RunShrinks(c, s, run);
    ExecKeepsInv(c, s, run);
    MeasureNonNegative(c, Exec(c, s, run));
    InitMeasure(c);
  }

  lemma {:induction false} NoneSpurious(run: seq<Action>)
    requires forall i :: 0 <= i < |run| ==> !run[i].Spurious?
    ensures SpuriousCount(run) == 0
  {
    if run != [] {
      NoneSpurious(run[1..]);
    }
  }

  /** Without spurious wakeups a run ends within a number of steps that the configuration fixes. */
  lemma QuietRunsAreBounded(c: Config, run: seq<Action>)
    requires Legal(c, Init(c), run) && forall i :: 0 <= i < |run| ==> !run[i].Spurious?
    ensures var n, requests := c.nthreads, c.nrequests * c.nthreads;
            |run| <= (2 * n + 3 + 5 * requests) * (3 * n + 1) + 6 * requests + 5 * n
  {
    hide Legal;
    NoneSpurious(run);
    RunsAreBounded(c, run);
  }
}
