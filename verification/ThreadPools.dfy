/** src/thread_pool/naive_thread_pool.rs as a state machine: a shared queue, its workers, and the closing protocol. */
module ThreadPools {

  /** Where a worker is in its loop; `Receiving` holds the receiver's mutex, until `recv` returns. */
  datatype Worker<Job> = Waiting | Receiving | Running(job: Job) | Exited

  /**
   * `open`: the sender still exists. `joined`: how many workers `drop` has joined. `spawned`, `received` and `done`
   * record the jobs in the order of those events.
   */
  datatype Pool<Job> = Pool(open: bool, queue: seq<Job>, workers: seq<Worker<Job>>, joined: nat,
                            spawned: seq<Job>, received: seq<Job>, done: seq<Job>)

  datatype Action<Job> =
    | Spawn(job: Job)
    | Lock(worker: nat)
    | Recv(worker: nat)
    | RecvClosed(worker: nat)
    | Finish(worker: nat)
    | DropSender
    | Join

  /** `NaiveThreadPool::new`. */
  function New<Job>(threads: nat): Pool<Job> {
    Pool(true, [], seq(threads, _ => Waiting), 0, [], [], [])
  }

  /** Some worker still holds a clone of the receiver; otherwise `send` fails and `spawn` panics. */
  ghost predicate ReceiverAlive<Job>(p: Pool<Job>) {
    exists w :: 0 <= w < |p.workers| && !p.workers[w].Exited?
  }

  ghost predicate MutexFree<Job>(p: Pool<Job>) {
    forall w :: 0 <= w < |p.workers| ==> !p.workers[w].Receiving?
  }

  ghost predicate Enabled<Job>(p: Pool<Job>, a: Action<Job>) {
    match a
    case Spawn(_) => p.open && ReceiverAlive(p)
    case Lock(w) => w < |p.workers| && p.workers[w].Waiting? && MutexFree(p)
    case Recv(w) => w < |p.workers| && p.workers[w].Receiving? && p.queue != []
    case RecvClosed(w) => w < |p.workers| && p.workers[w].Receiving? && p.queue == [] && !p.open
    case Finish(w) => w < |p.workers| && p.workers[w].Running?
    case DropSender => p.open
    case Join => !p.open && p.joined < |p.workers| && p.workers[p.joined].Exited?
  }

  ghost function Step<Job>(p: Pool<Job>, a: Action<Job>): Pool<Job>
    requires Enabled(p, a)
  {
    match a
    case Spawn(job) => p.(queue := p.queue + [job], spawned := p.spawned + [job])
    case Lock(w) => p.(workers := p.workers[w := Receiving])
    case Recv(w) =>
      p.(queue := p.queue[1..], workers := p.workers[w := Running(p.queue[0])], received := p.received + [p.queue[0]])
    case RecvClosed(w) => p.(workers := p.workers[w := Exited])
    case Finish(w) => p.(workers := p.workers[w := Waiting], done := p.done + [p.workers[w].job])
    case DropSender => p.(open := false)
    case Join => p.(joined := p.joined + 1)
  }

  /** `drop` has returned. */
  predicate Returned<Job>(p: Pool<Job>) {
    !p.open && p.joined == |p.workers|
  }

  // ---------------------------------------------------------------- the invariant

  /** The job a worker is running. */
  function JobOf<Job>(w: Worker<Job>): multiset<Job> {
    if w.Running? then multiset{w.job} else multiset{}
  }

  /** The jobs being run. */
  ghost function Busy<Job>(workers: seq<Worker<Job>>): multiset<Job> {
    if workers == [] then multiset{} else Busy(workers[..|workers| - 1]) + JobOf(workers[|workers| - 1])
  }

  /** Every spawned job is queued, received in order, and of those run or done. */
  ghost predicate Counted<Job>(p: Pool<Job>) {
    p.received + p.queue == p.spawned && multiset(p.received) == multiset(p.done) + Busy(p.workers)
  }

  /** One holder of the mutex; workers exit, and are joined, only once the pool is closed and drained. */
  ghost predicate Orderly<Job>(p: Pool<Job>) {
    && (forall i, j :: 0 <= i < j < |p.workers| ==> !(p.workers[i].Receiving? && p.workers[j].Receiving?))
    && (forall w :: 0 <= w < |p.workers| && p.workers[w].Exited? ==> !p.open && p.queue == [])
    && p.joined <= |p.workers| && (p.open ==> p.joined == 0)
    && (forall w :: 0 <= w < p.joined ==> p.workers[w].Exited?)
    && (|p.workers| == 0 ==> p.queue == [])
  }

  ghost predicate Inv<Job>(p: Pool<Job>) {
    Counted(p) && Orderly(p)
  }

  lemma AddBoth<Job>(a: multiset<Job>, b: multiset<Job>, c: multiset<Job>, d: multiset<Job>, e: multiset<Job>)
    requires a + b == c + d
    ensures (a + e) + b == (c + e) + d
  {
    forall j: Job
      ensures ((a + e) + b)[j] == ((c + e) + d)[j]
    {
      assert (a + b)[j] == (c + d)[j];
    }
  }

  lemma IdleSwap<Job>(a: multiset<Job>, c: multiset<Job>)
    requires a + multiset{} == c + multiset{}
    ensures a == c
  {
    assert a + multiset{} == a && c + multiset{} == c;
  }

  lemma {:induction false} BusyUpdate<Job>(workers: seq<Worker<Job>>, w: nat, to: Worker<Job>)
    requires w < |workers|
    ensures Busy(workers[w := to]) + JobOf(workers[w]) == Busy(workers) + JobOf(to)
  {
    hide JobOf;
    var n := |workers| - 1;
    if w < n {
      BusyUpdate(workers[..n], w, to);
      assert workers[w := to][..n] == workers[..n][w := to] && workers[w := to][n] == workers[n];
      AddBoth(Busy(workers[..n][w := to]), JobOf(workers[w]), Busy(workers[..n]), JobOf(to), JobOf(workers[n]));
    } else {
      assert workers[w := to][..n] == workers[..n];
    }
  }

  lemma {:induction false} BusyNone<Job>(workers: seq<Worker<Job>>)
    requires forall w :: 0 <= w < |workers| ==> !workers[w].Running?
    ensures Busy(workers) == multiset{}
  {
    if workers != [] {
      BusyNone(workers[..|workers| - 1]);
    }
  }

  lemma NewInv<Job>(threads: nat)
    ensures Inv(New<Job>(threads))
  {
    BusyNone(New<Job>(threads).workers);
  }

  lemma RecvCounts<Job>(p: Pool<Job>, w: nat)
    requires Counted(p) && Enabled(p, Recv(w))
    ensures Counted(Step(p, Recv(w)))
  {
    hide Busy;
    var q, job := Step(p, Recv(w)), p.queue[0];
    BusyUpdate(p.workers, w, Running(job));
    IdleSwap(Busy(q.workers), Busy(p.workers) + multiset{job});
    assert p.received + [job] + p.queue[1..] == p.spawned;
    assert multiset(q.received) == multiset(p.received) + multiset{job};
  }

  lemma FinishCounts<Job>(p: Pool<Job>, w: nat)
    requires Counted(p) && Enabled(p, Finish(w))
    ensures Counted(Step(p, Finish(w)))
  {
    hide Busy;
    var q, job := Step(p, Finish(w)), p.workers[w].job;
    BusyUpdate(p.workers, w, Waiting);
    assert Busy(p.workers) + multiset{} == Busy(p.workers);
    assert multiset(q.done) == multiset(p.done) + multiset{job};
    assert multiset(p.done) + (Busy(q.workers) + multiset{job}) == multiset(p.done) + multiset{job} + Busy(q.workers);
  }

  lemma StepCounts<Job>(p: Pool<Job>, a: Action<Job>)
    requires Counted(p) && Enabled(p, a)
    ensures Counted(Step(p, a))
  {
    hide Busy;
    match a
    case Spawn(job) => assert p.received + (p.queue + [job]) == p.spawned + [job];
    case Lock(w) =>
      BusyUpdate(p.workers, w, Receiving);
      IdleSwap(Busy(p.workers[w := Receiving]), Busy(p.workers));
    case Recv(w) => RecvCounts(p, w);
    case RecvClosed(w) =>
      BusyUpdate(p.workers, w, Exited);
      IdleSwap(Busy(p.workers[w := Exited]), Busy(p.workers));
    case Finish(w) => FinishCounts(p, w);
    case DropSender =>
    case Join =>
  }

  /** A worker's step keeps the others, so at most one of them can hold the mutex. */
  lemma WorkerOrderly<Job>(p: Pool<Job>, w: nat, to: Worker<Job>)
    requires Orderly(p) && w < |p.workers| && !p.workers[w].Exited?
    requires to.Receiving? ==> MutexFree(p)
    requires to.Exited? ==> !p.open && p.queue == []
    ensures Orderly(p.(workers := p.workers[w := to]))
  {}

  lemma SameWorkers<Job>(p: Pool<Job>, q: Pool<Job>)
    requires Orderly(p) && q.workers == p.workers && q.open == p.open && q.joined == p.joined
    requires q.queue == p.queue || (p.open && |p.workers| > 0)
    ensures Orderly(q)
  {}

  lemma ClosingOrderly<Job>(p: Pool<Job>, a: Action<Job>)
    requires Orderly(p) && Enabled(p, a) && (a.DropSender? || a.Join?)
    ensures Orderly(Step(p, a))
  {}

  lemma RecvOrderly<Job>(p: Pool<Job>, w: nat)
    requires Orderly(p) && Enabled(p, Recv(w))
    ensures Orderly(Step(p, Recv(w)))
  {
    WorkerOrderly(p, w, Running(p.queue[0]));
  }

  lemma StepInv<Job>(p: Pool<Job>, a: Action<Job>)
    requires Inv(p) && Enabled(p, a)
    ensures Inv(Step(p, a))
  {
    StepCounts(p, a);
    hide Counted, Orderly;
    match a
    case Spawn(job) => SameWorkers(p, Step(p, a));
    case Lock(w) => WorkerOrderly(p, w, Receiving);
    case Recv(w) => RecvOrderly(p, w);
    case RecvClosed(w) => WorkerOrderly(p, w, Exited);
    case Finish(w) =>
      WorkerOrderly(p, w, Waiting);
      SameWorkers(p.(workers := p.workers[w := Waiting]), Step(p, a));
    case DropSender => ClosingOrderly(p, a);
    case Join => ClosingOrderly(p, a);
  }

  // ---------------------------------------------------------------- runs

  ghost predicate IsRun<Job>(pools: seq<Pool<Job>>, actions: seq<Action<Job>>) {
    && |pools| == |actions| + 1
    && (forall i :: 0 <= i < |actions| ==> Enabled(pools[i], actions[i]) && pools[i + 1] == Step(pools[i], actions[i]))
  }

  lemma {:induction false} RunInv<Job>(pools: seq<Pool<Job>>, actions: seq<Action<Job>>)
    requires IsRun(pools, actions) && Inv(pools[0])
    ensures Inv(pools[|actions|])
  {
    if actions != [] {
      hide Inv;
      var n := |actions| - 1;
      RunInv(pools[..n + 1], actions[..n]);
      assert Enabled(pools[n], actions[n]) && pools[n + 1] == Step(pools[n], actions[n]);
      StepInv(pools[n], actions[n]);
    }
  }

  /**
   * Exactly once, in every interleaving: each spawned job is queued, being run or done, and nothing else is; jobs
   * leave the queue in the order they were spawned; and when `drop` returns every spawned job is done.
   */
  lemma ExactlyOnce<Job>(threads: nat, pools: seq<Pool<Job>>, actions: seq<Action<Job>>)
    requires IsRun(pools, actions) && pools[0] == New(threads)
    ensures var p := pools[|actions|];
      && multiset(p.spawned) == multiset(p.queue) + Busy(p.workers) + multiset(p.done)
      && p.received <= p.spawned
      && (Returned(p) ==> multiset(p.done) == multiset(p.spawned))
  {
    NewInv<Job>(threads);
    RunInv(pools, actions);
    var p := pools[|actions|];
    hide IsRun;
    assert multiset(p.received + p.queue) == multiset(p.received) + multiset(p.queue);
    if Returned(p) {
      ReturnedDone(p);
    }
  }

  lemma ReturnedDone<Job>(p: Pool<Job>)
    requires Inv(p) && Returned(p)
    ensures multiset(p.done) == multiset(p.spawned)
  {
    BusyNone(p.workers);
    if |p.workers| > 0 {
      assert p.workers[0].Exited?;
    }
    assert p.received + [] == p.received;
  }

  /** The number of workers never changes. */
  lemma {:induction false} RunWorkers<Job>(pools: seq<Pool<Job>>, actions: seq<Action<Job>>)
    requires IsRun(pools, actions)
    ensures |pools[|actions|].workers| == |pools[0].workers|
  {
    if actions != [] {
      var n := |actions| - 1;
      RunWorkers(pools[..n + 1], actions[..n]);
      assert Enabled(pools[n], actions[n]) && pools[n + 1] == Step(pools[n], actions[n]);
    }
  }

  /**
   * `spawn` never fails on a pool with a worker, and always panics on a pool made with zero threads, whose receiver
   * was dropped when `new` returned: until the pool is dropped, the spawn step is enabled if and only if `threads > 0`.
   */
  lemma SpawnSucceeds<Job>(threads: nat, pools: seq<Pool<Job>>, actions: seq<Action<Job>>, job: Job)
    requires IsRun(pools, actions) && pools[0] == New(threads) && pools[|actions|].open
    ensures Enabled(pools[|actions|], Spawn(job)) <==> threads > 0
  {
    NewInv<Job>(threads);
    RunInv(pools, actions);
    RunWorkers(pools, actions);
    var p := pools[|actions|];
    if threads > 0 {
      assert !p.workers[0].Exited?;
    }
  }

  // ---------------------------------------------------------------- shutdown

  ghost function Weight<Job>(w: Worker<Job>): nat {
    match w
    case Waiting => 2
    case Receiving => 1
    case Running(_) => 3
    case Exited => 0
  }

  ghost function Weights<Job>(workers: seq<Worker<Job>>): nat {
    if workers == [] then 0 else Weights(workers[..|workers| - 1]) + Weight(workers[|workers| - 1])
  }

  lemma {:induction false} WeightsUpdate<Job>(workers: seq<Worker<Job>>, w: nat, to: Worker<Job>)
    requires w < |workers|
    ensures Weights(workers[w := to]) + Weight(workers[w]) == Weights(workers) + Weight(to)
  {
    var n := |workers| - 1;
    if w < n {
      WeightsUpdate(workers[..n], w, to);
      assert workers[w := to][..n] == workers[..n][w := to];
    } else {
      assert workers[w := to][..n] == workers[..n];
    }
  }

  /** What is left to do before `drop` returns. */
  ghost function Measure<Job>(p: Pool<Job>): int {
    3 * |p.queue| + Weights(p.workers) + (|p.workers| - p.joined)
  }

  /** Once the sender is gone every step makes progress. */
  lemma StepDecreases<Job>(p: Pool<Job>, a: Action<Job>)
    requires Inv(p) && !p.open && Enabled(p, a)
    ensures !Step(p, a).open && 0 <= Measure(Step(p, a)) < Measure(p)
  {
    hide Weights, Busy;
    StepInv(p, a);
    match a
    case Lock(w) => WeightsUpdate(p.workers, w, Receiving);
    case Recv(w) => WeightsUpdate(p.workers, w, Running(p.queue[0]));
    case RecvClosed(w) => WeightsUpdate(p.workers, w, Exited);
    case Finish(w) => WeightsUpdate(p.workers, w, Waiting);
    case Join =>
  }

  /** And until `drop` returns some step can be taken: no deadlock on the mutex, in `recv` or in `join`. */
  lemma SomeStepEnabled<Job>(p: Pool<Job>)
    requires Inv(p) && !p.open && !Returned(p)
    ensures exists a :: Enabled(p, a)
  {
    if w :| 0 <= w < |p.workers| && p.workers[w].Running? {
      assert Enabled(p, Finish(w));
    } else if w :| 0 <= w < |p.workers| && p.workers[w].Receiving? {
      assert if p.queue == [] then Enabled(p, RecvClosed(w)) else Enabled(p, Recv(w));
    } else if w :| 0 <= w < |p.workers| && p.workers[w].Waiting? {
      assert Enabled(p, Lock(w));
    } else {
      assert Enabled(p, Join);
    }
  }

  /**
   * Shutdown terminates: from the moment the sender is dropped no schedule runs longer than the measure, and one that
   * cannot be continued has returned from `drop`.
   */
  lemma {:induction false} ShutdownTerminates<Job>(pools: seq<Pool<Job>>, actions: seq<Action<Job>>)
    requires IsRun(pools, actions) && Inv(pools[0]) && !pools[0].open
    ensures |actions| <= Measure(pools[0]) - Measure(pools[|actions|]) && Measure(pools[|actions|]) >= 0
    ensures !pools[|actions|].open
    ensures (forall a :: !Enabled(pools[|actions|], a)) ==> Returned(pools[|actions|])
  {
    RunInv(pools, actions);
    hide Inv, Busy, Weights;
    var p := pools[|actions|];
    if actions == [] {
      MeasureNonNegative(p);
    } else {
      var n := |actions| - 1;
      ShutdownTerminates(pools[..n + 1], actions[..n]);
      assert Enabled(pools[n], actions[n]) && pools[n + 1] == Step(pools[n], actions[n]);
      RunInv(pools[..n + 1], actions[..n]);
      StepDecreases(pools[n], actions[n]);
    }
    if !Returned(p) {
      SomeStepEnabled(p);
    }
  }

  lemma RunCons<Job>(p: Pool<Job>, a: Action<Job>, pools: seq<Pool<Job>>, actions: seq<Action<Job>>)
    requires Enabled(p, a) && IsRun(pools, actions) && pools[0] == Step(p, a)
    ensures IsRun([p] + pools, [a] + actions)
  {
    hide Enabled, Step;
    forall i | 0 <= i < |actions| + 1
      ensures Enabled(([p] + pools)[i], ([a] + actions)[i])
      ensures ([p] + pools)[i + 1] == Step(([p] + pools)[i], ([a] + actions)[i])
    {
      if i > 0 {
        assert Enabled(pools[i - 1], actions[i - 1]) && pools[i] == Step(pools[i - 1], actions[i - 1]);
      }
    }
  }

  lemma {:induction false} Drains<Job>(p: Pool<Job>) returns (pools: seq<Pool<Job>>, actions: seq<Action<Job>>)
    requires Inv(p) && !p.open
    ensures IsRun(pools, actions) && pools[0] == p && Returned(pools[|actions|])
    decreases Measure(p)
  {
    MeasureNonNegative(p);
    if Returned(p) {
      pools, actions := [p], [];
    } else {
      SomeStepEnabled(p);
      var a :| Enabled(p, a);
      StepInv(p, a);
      StepDecreases(p, a);
      hide Inv, Enabled, Step, Measure;
      pools, actions := Drains(Step(p, a));
      RunCons(p, a, pools, actions);
      pools, actions := [p] + pools, [a] + actions;
    }
  }

  /** `drop` can begin at any time, whatever is queued or running, and from there get to its return. */
  lemma DropReturns<Job>(p: Pool<Job>) returns (pools: seq<Pool<Job>>, actions: seq<Action<Job>>)
    requires Inv(p) && p.open
    ensures IsRun(pools, actions) && pools[0] == p && actions != [] && actions[0] == DropSender
    ensures Returned(pools[|actions|]) && multiset(pools[|actions|].done) == multiset(p.spawned)
  {
    var q := Step(p, DropSender);
    StepInv(p, DropSender);
    pools, actions := Drains(q);
    RunCons(p, DropSender, pools, actions);
    ClosedSpawns(pools, actions);
    RunInv(pools, actions);
    ReturnedDone(pools[|actions|]);
    pools, actions := [p] + pools, [DropSender] + actions;
  }

  /** Nothing is spawned any more. */
  lemma {:induction false} ClosedSpawns<Job>(pools: seq<Pool<Job>>, actions: seq<Action<Job>>)
    requires IsRun(pools, actions) && !pools[0].open
    ensures !pools[|actions|].open && pools[|actions|].spawned == pools[0].spawned
  {
    if actions != [] {
      var n := |actions| - 1;
      ClosedSpawns(pools[..n + 1], actions[..n]);
      assert Enabled(pools[n], actions[n]) && pools[n + 1] == Step(pools[n], actions[n]);
    }
  }

  lemma MeasureNonNegative<Job>(p: Pool<Job>)
    requires Inv(p)
    ensures Measure(p) >= 0
  {}

  /** While the pool is open, a queued job never waits on an idle pool: some worker step is enabled. */
  lemma JobsProgress<Job>(p: Pool<Job>)
    requires Inv(p) && p.queue != []
    ensures exists w, a: Action<Job> :: a in {Lock(w), Recv(w), Finish(w)} && Enabled(p, a)
  {
    assert |p.workers| > 0;
    if w :| 0 <= w < |p.workers| && p.workers[w].Running? {
      var a: Action<Job> := Finish(w);
      assert a in {Lock(w), Recv(w), Finish(w)} && Enabled(p, a);
    } else if w :| 0 <= w < |p.workers| && p.workers[w].Receiving? {
      var a: Action<Job> := Recv(w);
      assert a in {Lock(w), Recv(w), Finish(w)} && Enabled(p, a);
    } else {
      var a: Action<Job> := Lock(0);
      assert !p.workers[0].Exited?;
      assert a in {Lock(0), Recv(0), Finish(0)} && Enabled(p, a);
    }
  }

  // ---------------------------------------------------------------- jobs run side by side

  /**
   * A running job holds up nobody else: while a job is queued and some worker is not running one, some worker can take
   * the mutex or a job.
   */
  lemma OthersProgress<Job>(p: Pool<Job>, idle: nat)
    requires Inv(p) && p.queue != [] && idle < |p.workers| && !p.workers[idle].Running?
    ensures exists w, a: Action<Job> :: a in {Lock(w), Recv(w)} && Enabled(p, a)
  {
    hide Counted;
    if w :| 0 <= w < |p.workers| && p.workers[w].Receiving? {
      var a: Action<Job> := Recv(w);
      assert a in {Lock(w), Recv(w)} && Enabled(p, a);
    } else {
      var a: Action<Job> := Lock(idle);
      assert a in {Lock(idle), Recv(idle)} && Enabled(p, a);
    }
  }

  lemma RunSnoc<Job>(pools: seq<Pool<Job>>, actions: seq<Action<Job>>, a: Action<Job>)
    requires IsRun(pools, actions) && Enabled(pools[|actions|], a)
    ensures IsRun(pools + [Step(pools[|actions|], a)], actions + [a])
  {
    hide Enabled, Step;
  }

  lemma {:induction false} SpawnAll<Job>(threads: nat, jobs: seq<Job>)
      returns (pools: seq<Pool<Job>>, actions: seq<Action<Job>>)
    requires threads > 0
    ensures IsRun(pools, actions) && pools[0] == New(threads) && forall a :: a in actions ==> a.Spawn?
    ensures pools[|actions|] == New<Job>(threads).(queue := jobs, spawned := jobs)
  {
    if jobs == [] {
      pools, actions := [New(threads)], [];
    } else {
      var n := |jobs| - 1;
      pools, actions := SpawnAll(threads, jobs[..n]);
      var p, a := pools[|actions|], Spawn(jobs[n]);
      assert !p.workers[0].Exited?;
      RunSnoc(pools, actions, a);
      pools, actions := pools + [Step(p, a)], actions + [a];
      assert jobs[..n] + [jobs[n]] == jobs;
    }
  }

  /** The first `n` workers are running the first `n` jobs, and the others wait. */
  ghost predicate RunningFirst<Job>(p: Pool<Job>, jobs: seq<Job>, n: nat) {
    && n <= |jobs| && p.open && p.queue == jobs[n..] && p.done == [] && |p.workers| == |jobs|
    && (forall w :: 0 <= w < |jobs| ==> p.workers[w] == if w < n then Running(jobs[w]) else Waiting)
  }

  lemma {:induction false} TakeAll<Job>(jobs: seq<Job>, n: nat)
      returns (pools: seq<Pool<Job>>, actions: seq<Action<Job>>)
    requires 0 < |jobs| && n <= |jobs|
    ensures IsRun(pools, actions) && pools[0] == New(|jobs|) && forall a :: a in actions ==> !a.Finish?
    ensures RunningFirst(pools[|actions|], jobs, n)
  {
    if n == 0 {
      pools, actions := SpawnAll(|jobs|, jobs);
    } else {
      pools, actions := TakeAll(jobs, n - 1);
      var w: nat := n - 1;
      var p := pools[|actions|];
      var q := Step(p, Lock(w));
      var t := Step(q, Recv(w));
      RunSnoc(pools, actions, Lock(w));
      RunSnoc(pools + [q], actions + [Lock(w)], Recv(w));
      pools, actions := pools + [q] + [t], actions + [Lock(w)] + [Recv(w)];
    }
  }

  /** A pool of as many threads as jobs can run them all at once: a schedule in which none has finished. */
  lemma AllAtOnce<Job>(jobs: seq<Job>) returns (pools: seq<Pool<Job>>, actions: seq<Action<Job>>)
    requires jobs != []
    ensures IsRun(pools, actions) && pools[0] == New(|jobs|)
    ensures var p := pools[|actions|];
      && |p.workers| == |jobs| && p.done == []
      && forall w :: 0 <= w < |jobs| ==> p.workers[w] == Running(jobs[w])
  {
    pools, actions := TakeAll(jobs, |jobs|);
  }
}
