/**
  The download engine in memory: the shared linked queue, the workload counter, and the program
  points of the boss and of the worker threads. Every step of a thread performs its action of the
  transition system, with the steque operations of the source.
 */
module Engines {
  import opened Wrappers
  import opened Workloads
  import opened Steques
  import opened Downloads

  class Engine {
    const config: Config
    const workload: Workload
    const queue: Steque<nat>
    var boss: Boss
    var sent: nat
    var lock: Holder
    var workers: seq<Worker>
    ghost var popped: seq<nat>    // the requests popped so far, in order
    ghost var finished: seq<nat>  // the requests that a worker has finished working on

    ghost function View(): State
      reads this, workload, queue, queue.spine
    {
      State(boss, sent, workload.counter, lock, queue.Contents(), workers, popped, finished)
    }

    ghost predicate Valid()
      reads this, workload, queue, queue.spine
    {
      && queue.Valid()
      && workload.paths == config.paths
    }

    constructor (config: Config)
      ensures Valid() && View() == Init(config) && this.config == config
      ensures fresh(workload) && fresh(queue) && queue.spine == []
    {
      this.config := config;
      workload := new Workload(config.paths);
      queue := new Steque<nat>.Init();
      boss, sent, lock := Create(0), 0, Free;
      workers := seq(config.nthreads, _ => NewWorker(config.nrequests));
      popped, finished := [], [];
    }

    /** One step of `main`; `wake` is the choice of pthread_cond_signal. */
    method BossMoves(wake: set<nat>)
      requires Valid() && Enabled(View(), BossStep(wake))
      modifies this, workload, queue, queue.spine
      ensures Valid() && View() == Next(config, old(View()), BossStep(wake))
      ensures forall n :: n in queue.spine ==> n in old(queue.spine) || fresh(n)
    {
      hide Served, Wake;
      match boss
      case Create(k) =>
        if k < |workers| {
          workers := workers[k := workers[k].(pc := Head)];
          boss := Create(k + 1);
        } else {
          boss := Fetch;
        }
      case Fetch =>
        if sent < config.Requests() {
          var slot := workload.GetPath();
          ServedLast(|config.paths|, old(workload.counter), slot);
          boss := if |config.paths[slot]| > MAX_PATH_LENGTH then Exit else Lock(slot);
        } else {
          boss := Join(0);
        }
      case Lock(slot) =>
        lock := ByBoss;
        boss := Enqueue(slot);
      case Enqueue(slot) =>
        queue.Enqueue(slot);
        boss := Signal;
      case Signal =>
        workers := Wake(workers, wake);
        boss := Unlock;
      case Unlock =>
        lock := Free;
        sent := sent + 1;
        boss := Fetch;
      case Join(k) =>
        boss := if k < |workers| then Join(k + 1) else Return;
    }

    /** One step of `handle_request` in thread `w`. */
    method WorkerMoves(w: nat)
      requires Valid() && Enabled(View(), WorkerStep(w))
      modifies this, queue
      ensures Valid() && View() == Next(config, old(View()), WorkerStep(w))
      ensures forall n :: n in queue.spine ==> n in old(queue.spine)
    {
      var me := workers[w];
      match me.pc
      case Head =>
        if me.left == 0 {
          workers := workers[w := me.(pc := Done)];
        } else {
          lock := ByWorker(w);
          workers := workers[w := me.(pc := Test)];
        }
      case Test =>
        var empty := queue.IsEmpty();
        if empty {
          lock := Free;
          workers := workers[w := me.(pc := Waiting)];
        } else {
          workers := workers[w := me.(pc := Pop)];
        }
      case Woken =>
        lock := ByWorker(w);
        workers := workers[w := me.(pc := Test)];
      case Pop =>
        var slot := queue.Pop();
        if slot.None? {
          boss := Exit;
        } else {
          popped := popped + [slot.value];
          workers := workers[w := Popped(me, slot.value)];
        }
      case Leave =>
        lock := Free;
        workers := workers[w := me.(pc := Work)];
      case Work =>
        if me.req.None? {
          workers := workers[w := me.(pc := Head)];
        } else {
          finished := finished + [me.req.value];
          workers := workers[w := Worked(me, me.req.value)];
        }
    }

    method SpuriousWakeup(w: nat)
      requires Valid() && Enabled(View(), Spurious(w))
      modifies this
      ensures Valid() && View() == Next(config, old(View()), Spurious(w))
    {
      workers := workers[w := workers[w].(pc := Woken)];
    }

    /** Any interleaving, replayed on the linked queue, ends where the transition system ends. */
    method Replay(run: seq<Action>)
      requires Valid() && Legal(config, View(), run)
      modifies this, workload, queue, queue.spine
      ensures Valid() && View() == Exec(config, old(View()), run)
    {
      var i := 0;
      while i < |run|
        invariant 0 <= i <= |run| && Valid() && Legal(config, View(), run[i..])
        invariant Exec(config, View(), run[i..]) == Exec(config, old(View()), run)
        invariant forall n :: n in queue.spine ==> n in old(queue.spine) || fresh(n)
      {
        assert run[i..][1..] == run[i + 1..];
        assert forall k :: 0 <= k < |queue.spine| ==> queue.spine[k] in old(queue.spine) || fresh(queue.spine[k]);
        match run[i] {
          case BossStep(wake) => BossMoves(wake);
          case WorkerStep(w) => WorkerMoves(w);
          case Spurious(w) => SpuriousWakeup(w);
        }
        i := i + 1;
      }
    }

    /** When main returns the queue is empty: steque_destroy finds no request left behind. */
    method Finish()
      requires Valid() && Reachable(config, View()) && boss.Return?
      modifies queue
      ensures Valid() && View() == old(View())
    {
      assert queue.Contents() == [] by {
        ReturnMeansComplete(config, View());
      }
      queue.Destroy();
    }
  }
}
