/** The fork-mode scheduler as an interleaving of atomic steps: a main loop, worker threads, and the
    detached threads that merge finished jobs and create new ones. */
module Scheduler {
  /** What a job queue carries; `Stop` is the null pointer that `StopJobs` pushes. */
  datatype Item = Stop | Job(id: nat)

  datatype Worker = NotStarted | Idle | Running(job: nat) | Exited

  datatype Main =
    | Starting(t: nat, started: bool)               // the loop that starts the workers
    | Popping                                       // about to pop from MergeQ
    | Holding(job: nat)                             // has popped a finished job
    | Handed                                        // its merge thread is started, its creator thread is not
    | Stopping(pushed: nat, keep: bool, job: nat)   // within StopJobs; `keep` if main merges the job itself
    | Stopped(job: nat)                             // out of StopJobs, about to merge the job
    | Joining(joined: nat)
    | Done

  datatype State = State(numJobs: nat, fuzzQ: seq<Item>, mergeQ: seq<Item>, workers: seq<Worker>, main: Main,
                         creators: nat, merged: seq<nat>, nextJob: nat)

  datatype Action =
    | StartThread
    | PushFirstJob
    | WorkerPop(w: nat)
    | WorkerFinish(w: nat)
    | MainPop
    | MainStop(keep: bool)
    | SpawnMerge
    | SpawnCreator
    | CreatorPush
    | PushStopToWorkers
    | PushStopToMain
    | MergeLast
    | Join

  function Initial(numJobs: nat): State {
    State(numJobs, [], [], seq(numJobs, _ => NotStarted),
          if numJobs == 0 then Popping else Starting(0, false), 0, [], 0)
  }

  predicate Enabled(st: State, a: Action) {
    match a
    case StartThread => st.main.Starting? && !st.main.started && st.main.t < |st.workers|
    case PushFirstJob => st.main.Starting? && st.main.started
    case WorkerPop(w) => w < |st.workers| && st.workers[w].Idle? && st.fuzzQ != []
    case WorkerFinish(w) => w < |st.workers| && st.workers[w].Running?
    case MainPop => st.main.Popping? && st.mergeQ != []
    case MainStop(_) => st.main.Holding?
    case SpawnMerge => st.main.Holding?
    case SpawnCreator => st.main.Handed?
    case CreatorPush => st.creators > 0
    case PushStopToWorkers => st.main.Stopping? && st.main.pushed < st.numJobs
    case PushStopToMain => st.main.Stopping? && st.main.pushed == st.numJobs
    case MergeLast => st.main.Stopped?
    case Join => st.main.Joining? && (st.main.joined < |st.workers| ==> st.workers[st.main.joined].Exited?)
  }

  function Step(st: State, a: Action): State
    requires Enabled(st, a)
  {
    match a
    case StartThread =>
      st.(workers := st.workers[st.main.t := Idle], main := Starting(st.main.t, true))
    case PushFirstJob =>
      st.(fuzzQ := st.fuzzQ + [Job(st.nextJob)], nextJob := st.nextJob + 1,
          main := if st.main.t + 1 < st.numJobs then Starting(st.main.t + 1, false) else Popping)
    case WorkerPop(w) =>
      st.(fuzzQ := st.fuzzQ[1..],
          workers := st.workers[w := if st.fuzzQ[0].Stop? then Exited else Running(st.fuzzQ[0].id)])
    case WorkerFinish(w) =>
      st.(mergeQ := st.mergeQ + [Job(st.workers[w].job)], workers := st.workers[w := Idle])
    case MainPop =>
      st.(mergeQ := st.mergeQ[1..], main := if st.mergeQ[0].Stop? then Joining(0) else Holding(st.mergeQ[0].id))
    case MainStop(keep) => st.(main := Stopping(0, keep, st.main.job))
    case SpawnMerge => st.(merged := st.merged + [st.main.job], main := Handed)
    case SpawnCreator => st.(creators := st.creators + 1, main := Popping)
    case CreatorPush =>
      st.(fuzzQ := st.fuzzQ + [Job(st.nextJob)], nextJob := st.nextJob + 1, creators := st.creators - 1)
    case PushStopToWorkers =>
      st.(fuzzQ := st.fuzzQ + [Stop], main := st.main.(pushed := st.main.pushed + 1))
    case PushStopToMain =>
      st.(mergeQ := st.mergeQ + [Stop], main := if st.main.keep then Stopped(st.main.job) else Joining(0))
    case MergeLast => st.(merged := st.merged + [st.main.job], main := Joining(0))
    case Join => st.(main := if st.main.joined < |st.workers| then Joining(st.main.joined + 1) else Done)
  }

  /** Every interleaving: any enabled action may come next. */
  ghost predicate IsPath(actions: seq<Action>, states: seq<State>) {
    && |states| == |actions| + 1
    && forall i | 0 <= i < |actions| :: Enabled(states[i], actions[i]) && states[i + 1] == Step(states[i], actions[i])
  }

  ghost predicate IsRun(numJobs: nat, actions: seq<Action>, states: seq<State>) {
    IsPath(actions, states) && states[0] == Initial(numJobs)
  }

  // ----- where jobs are

  function One(b: bool): nat { if b then 1 else 0 }

  /** How often job j is in a queue. */
  function Queued(q: seq<Item>, j: nat): nat {
    if q == [] then 0 else Queued(q[..|q| - 1], j) + One(q[|q| - 1] == Job(j))
  }

  function Stops(q: seq<Item>): nat {
    if q == [] then 0 else Stops(q[..|q| - 1]) + One(q[|q| - 1].Stop?)
  }

  function RunBy(workers: seq<Worker>, j: nat): nat {
    if workers == [] then 0 else RunBy(workers[..|workers| - 1], j) + One(workers[|workers| - 1] == Running(j))
  }

  function RunningIn(workers: seq<Worker>): nat {
    if workers == [] then 0 else RunningIn(workers[..|workers| - 1]) + One(workers[|workers| - 1].Running?)
  }

  function ExitedIn(workers: seq<Worker>): nat {
    if workers == [] then 0 else ExitedIn(workers[..|workers| - 1]) + One(workers[|workers| - 1].Exited?)
  }

  predicate HasInHand(main: Main, j: nat) {
    (main.Holding? || main.Stopping? || main.Stopped?) && main.job == j
  }

  /** In how many places job j is, the merge threads included. */
  function Places(st: State, j: nat): nat {
    Queued(st.fuzzQ, j) + RunBy(st.workers, j) + Queued(st.mergeQ, j) + One(HasInHand(st.main, j)) + multiset(st.merged)[j]
  }

  /** Every job is in one place, once, and was handed to a merge at most once. */
  ghost predicate Unique(st: State) {
    forall j: nat :: Places(st, j) <= One(j < st.nextJob)
  }

  /** The job slots that circulate: queued, running, finished, in the main loop's hand, or being refilled. */
  function Circulating(st: State): int {
    (|st.fuzzQ| - Stops(st.fuzzQ)) + RunningIn(st.workers) + (|st.mergeQ| - Stops(st.mergeQ)) + st.creators
    + One(st.main.Holding? || st.main.Handed?)
  }

  predicate BeforeStop(main: Main) {
    main.Starting? || main.Popping? || main.Holding? || main.Handed?
  }

  /** How many sentinels `StopJobs` has pushed to the workers. */
  function Pushed(st: State): nat {
    if BeforeStop(st.main) then 0 else if st.main.Stopping? then st.main.pushed else st.numJobs
  }

  function Created(st: State): nat {
    if st.main.Starting? then st.main.t else st.numJobs
  }

  /** The loop counters are in range, and exactly the workers the first loop has not reached are not started. */
  ghost predicate Shape(st: State) {
    && |st.workers| == st.numJobs
    && (st.main.Starting? ==> st.main.t < st.numJobs)
    && (st.main.Stopping? ==> st.main.pushed <= st.numJobs)
    && (st.main.Joining? ==> st.main.joined <= st.numJobs)
    && (forall w | 0 <= w < st.numJobs :: st.workers[w].NotStarted? <==>
          st.main.Starting? && (w > st.main.t || (w == st.main.t && !st.main.started)))
  }

  ghost predicate Joined(st: State) {
    && (st.main.Joining? ==> forall w | 0 <= w < st.main.joined <= |st.workers| :: st.workers[w].Exited?)
    && (st.main.Done? ==> forall w | 0 <= w < |st.workers| :: st.workers[w].Exited?)
  }

  ghost predicate Conserved(st: State) {
    && (BeforeStop(st.main) ==> Circulating(st) == Created(st) && Stops(st.mergeQ) == 0)
    && Stops(st.fuzzQ) + ExitedIn(st.workers) == Pushed(st)
  }

  ghost predicate Inv(st: State) {
    Shape(st) && Joined(st) && Conserved(st) && Unique(st)
  }

  // ----- queues and workers

  lemma {:induction false} QueueHead(q: seq<Item>, j: nat)
    requires q != []
    ensures Queued(q, j) == Queued(q[1..], j) + One(q[0] == Job(j))
    ensures Stops(q) == Stops(q[1..]) + One(q[0].Stop?)
  {
    var k := |q| - 1;
    if k > 0 {
      QueueHead(q[..k], j);
      assert q[..k][1..] == q[1..][..k - 1];
    }
  }

  lemma QueueTail(q: seq<Item>, x: Item, j: nat)
    ensures Queued(q + [x], j) == Queued(q, j) + One(x == Job(j))
    ensures Stops(q + [x]) == Stops(q) + One(x.Stop?)
  {
    assert (q + [x])[..|q|] == q;
  }

  lemma {:induction false} WorkerChange(workers: seq<Worker>, i: nat, w: Worker, j: nat)
    requires i < |workers|
    ensures RunBy(workers[i := w], j) + One(workers[i] == Running(j)) == RunBy(workers, j) + One(w == Running(j))
    ensures RunningIn(workers[i := w]) + One(workers[i].Running?) == RunningIn(workers) + One(w.Running?)
    ensures ExitedIn(workers[i := w]) + One(workers[i].Exited?) == ExitedIn(workers) + One(w.Exited?)
  {
    var k := |workers| - 1;
    if i < k {
      WorkerChange(workers[..k], i, w, j);
      assert workers[i := w][..k] == workers[..k][i := w];
    } else {
      assert workers[i := w][..k] == workers[..k];
    }
  }

  lemma {:induction false} FreshWorkers(n: nat, j: nat)
    ensures var ws := seq(n, _ => NotStarted); RunBy(ws, j) == RunningIn(ws) == ExitedIn(ws) == 0
  {
    if n > 0 {
      FreshWorkers(n - 1, j);
      assert seq(n, _ => NotStarted)[..n - 1] == seq(n - 1, _ => NotStarted);
    }
  }

  /** All workers have exited iff as many have as there are; a positive count has a worker to show. */
  lemma {:induction false} WorkerCounts(workers: seq<Worker>)
    ensures ExitedIn(workers) <= |workers|
    ensures ExitedIn(workers) == |workers| <==> forall w | 0 <= w < |workers| :: workers[w].Exited?
    ensures ExitedIn(workers) == 0 <==> forall w | 0 <= w < |workers| :: !workers[w].Exited?
    ensures RunningIn(workers) == 0 <==> forall w | 0 <= w < |workers| :: !workers[w].Running?
  {
    if workers != [] {
      WorkerCounts(workers[..|workers| - 1]);
    }
  }

  // ----- every step keeps the invariant

  lemma InitialInv(numJobs: nat)
    ensures Inv(Initial(numJobs))
  {
    var st := Initial(numJobs);
    forall j: nat ensures Places(st, j) == RunningIn(st.workers) == ExitedIn(st.workers) == 0 {
      FreshWorkers(numJobs, j);
    }
    assert Places(st, 0) == 0;
  }

  lemma StepShape(st: State, a: Action)
    requires Shape(st) && Joined(st) && Enabled(st, a)
    ensures Shape(Step(st, a)) && Joined(Step(st, a))
  {
  }

  /** What an action does to the counts of queues and workers. */
  ghost predicate Counted(st: State, a: Action, st': State, j: nat)
    requires Enabled(st, a)
  {
    match a
    case StartThread => WorkerCounted(st, st', st.main.t, j)
    case WorkerPop(w) =>
      && WorkerCounted(st, st', w, j)
      && Queued(st.fuzzQ, j) == Queued(st'.fuzzQ, j) + One(st.fuzzQ[0] == Job(j))
      && Stops(st.fuzzQ) == Stops(st'.fuzzQ) + One(st.fuzzQ[0].Stop?)
    case WorkerFinish(w) =>
      && WorkerCounted(st, st', w, j)
      && Queued(st'.mergeQ, j) == Queued(st.mergeQ, j) + One(st.workers[w].job == j)
      && Stops(st'.mergeQ) == Stops(st.mergeQ)
    case MainPop =>
      && Queued(st.mergeQ, j) == Queued(st'.mergeQ, j) + One(st.mergeQ[0] == Job(j))
      && Stops(st.mergeQ) == Stops(st'.mergeQ) + One(st.mergeQ[0].Stop?)
    case PushFirstJob => Queued(st'.fuzzQ, j) == Queued(st.fuzzQ, j) + One(st.nextJob == j) && Stops(st'.fuzzQ) == Stops(st.fuzzQ)
    case CreatorPush => Queued(st'.fuzzQ, j) == Queued(st.fuzzQ, j) + One(st.nextJob == j) && Stops(st'.fuzzQ) == Stops(st.fuzzQ)
    case PushStopToWorkers => Queued(st'.fuzzQ, j) == Queued(st.fuzzQ, j) && Stops(st'.fuzzQ) == Stops(st.fuzzQ) + 1
    case PushStopToMain => Queued(st'.mergeQ, j) == Queued(st.mergeQ, j)
    case _ => true
  }

  ghost predicate WorkerCounted(st: State, st': State, w: nat, j: nat) {
    && w < |st.workers| && |st'.workers| == |st.workers|
    && RunBy(st'.workers, j) + One(st.workers[w] == Running(j)) == RunBy(st.workers, j) + One(st'.workers[w] == Running(j))
    && RunningIn(st'.workers) + One(st.workers[w].Running?) == RunningIn(st.workers) + One(st'.workers[w].Running?)
    && ExitedIn(st'.workers) + One(st.workers[w].Exited?) == ExitedIn(st.workers) + One(st'.workers[w].Exited?)
  }

  lemma Bookkeeping(st: State, a: Action, j: nat)
    requires Enabled(st, a)
    ensures Counted(st, a, Step(st, a), j)
  {
    hide Queued, Stops, RunBy, RunningIn, ExitedIn;
    match a
    case StartThread => WorkerChange(st.workers, st.main.t, Idle, j);
    case WorkerPop(w) =>
      QueueHead(st.fuzzQ, j);
      WorkerChange(st.workers, w, Step(st, a).workers[w], j);
    case WorkerFinish(w) =>
      QueueTail(st.mergeQ, Job(st.workers[w].job), j);
      WorkerChange(st.workers, w, Idle, j);
    case MainPop => QueueHead(st.mergeQ, j);
    case PushFirstJob => QueueTail(st.fuzzQ, Job(st.nextJob), j);
    case CreatorPush => QueueTail(st.fuzzQ, Job(st.nextJob), j);
    case PushStopToWorkers => QueueTail(st.fuzzQ, Stop, j);
    case PushStopToMain => QueueTail(st.mergeQ, Stop, j);
    case _ =>
  }

  /** `StopJobs` returns, and the main loop leaves without merging the job in its hand. */
  predicate Drops(st: State, a: Action, j: nat) {
    a.PushStopToMain? && st.main.Stopping? && !st.main.keep && st.main.job == j
  }

  /** A step creates at most the next job; every other job stays in as many places, except one dropped at a stop. */
  lemma PlacesAfter(st: State, a: Action, j: nat)
    requires Shape(st) && Enabled(st, a)
    ensures var st' := Step(st, a);
            && st'.nextJob == st.nextJob + One(a.PushFirstJob? || a.CreatorPush?)
            && Places(st', j) + One(Drops(st, a, j)) == Places(st, j) + One(j == st.nextJob < st'.nextJob)
  {
    hide Queued, Stops, RunBy, RunningIn, ExitedIn;
    Bookkeeping(st, a, j);
  }

  lemma StepUnique(st: State, a: Action)
    requires Shape(st) && Unique(st) && Enabled(st, a)
    ensures Unique(Step(st, a))
  {
    hide Shape, Places, Step, Enabled;
    forall j: nat ensures Places(Step(st, a), j) <= One(j < Step(st, a).nextJob) {
      PlacesAfter(st, a, j);
    }
  }

  lemma StepConserved(st: State, a: Action)
    requires Shape(st) && Conserved(st) && Enabled(st, a)
    ensures Conserved(Step(st, a))
  {
    hide Queued, Stops, RunBy, RunningIn, ExitedIn;
    Bookkeeping(st, a, 0);
  }

  lemma StepInv(st: State, a: Action)
    requires Inv(st) && Enabled(st, a)
    ensures Inv(Step(st, a))
  {
    hide Shape, Joined, Conserved, Unique, Step, Enabled;
    StepShape(st, a);
    StepUnique(st, a);
    StepConserved(st, a);
  }

  /** In every reachable state the invariant holds. */
  lemma {:induction false} ReachableInv(numJobs: nat, actions: seq<Action>, states: seq<State>, k: nat)
    requires IsRun(numJobs, actions, states) && k < |states|
    ensures Inv(states[k])
  {
    hide Inv, Step, Enabled, Initial;
    if k == 0 {
      InitialInv(numJobs);
    } else {
      ReachableInv(numJobs, actions, states, k - 1);
      StepInv(states[k - 1], actions[k - 1]);
    }
  }

  // ----- no job is lost

  /** The job was in the main loop's hand when it stopped without keeping it. */
  ghost predicate Dropped(actions: seq<Action>, states: seq<State>, k: nat, j: nat)
    requires k <= |actions| < |states|
  {
    exists i :: 0 <= i < k && Drops(states[i], actions[i], j)
  }

  lemma DroppedNext(actions: seq<Action>, states: seq<State>, k: nat, j: nat)
    requires k < |actions| < |states|
    ensures Dropped(actions, states, k + 1, j) <==> Dropped(actions, states, k, j) || Drops(states[k], actions[k], j)
  {
    hide Drops;
  }

  predicate Leaving(main: Main) {
    main.Joining? || main.Done?
  }

  /** Every job created is in exactly one place, or was dropped at the stop; and only one can be. */
  lemma {:induction false} NoJobLost(numJobs: nat, actions: seq<Action>, states: seq<State>, k: nat, j: nat)
    requires IsRun(numJobs, actions, states) && k <= |actions|
    ensures Places(states[k], j) + One(Dropped(actions, states, k, j)) == One(j < states[k].nextJob)
    ensures Dropped(actions, states, k, j) ==> Leaving(states[k].main)
  {
    hide Shape, Joined, Conserved, Unique, Step, Enabled, Places, Dropped;
    if k == 0 {
      NothingPlaced(numJobs, actions, states, j);
    } else {
      NoJobLost(numJobs, actions, states, k - 1, j);
      ReachableInv(numJobs, actions, states, k - 1);
      PlacesAfter(states[k - 1], actions[k - 1], j);
      DroppedNext(actions, states, k - 1, j);
      LeavesForGood(states[k - 1], actions[k - 1], j);
    }
  }

  lemma NothingPlaced(numJobs: nat, actions: seq<Action>, states: seq<State>, j: nat)
    requires IsRun(numJobs, actions, states)
    ensures Places(states[0], j) == states[0].nextJob == 0 && !Dropped(actions, states, 0, j)
  {
    FreshWorkers(numJobs, j);
  }

  lemma LeavesForGood(st: State, a: Action, j: nat)
    requires Enabled(st, a)
    ensures Leaving(st.main) ==> Leaving(Step(st, a).main)
    ensures Drops(st, a, j) ==> Leaving(Step(st, a).main) && !Leaving(st.main)
  {
  }

  /** The main loop stops once, so at most one job is dropped. */
  lemma DroppedOnce(numJobs: nat, actions: seq<Action>, states: seq<State>, i: nat, k: nat, j: nat, j': nat)
    requires IsRun(numJobs, actions, states) && i <= k < |actions|
    requires Drops(states[i], actions[i], j) && Drops(states[k], actions[k], j')
    ensures i == k && j == j'
  {
    if i < k {
      NoJobLost(numJobs, actions, states, i + 1, j);
      DroppedNext(actions, states, i, j);
      StaysLeaving(numJobs, actions, states, i + 1, k);
      LeavesForGood(states[k], actions[k], j');
    }
  }

  lemma {:induction false} StaysLeaving(numJobs: nat, actions: seq<Action>, states: seq<State>, i: nat, k: nat)
    requires IsRun(numJobs, actions, states) && i <= k <= |actions| && Leaving(states[i].main)
    ensures Leaving(states[k].main)
  {
    hide Step, Enabled;
    if i < k {
      StaysLeaving(numJobs, actions, states, i, k - 1);
      LeavesForGood(states[k - 1], actions[k - 1], 0);
    }
  }

  /** A job the main loop stops with and keeps is merged before it joins the workers. */
  lemma {:induction false} KeptIsMerged(numJobs: nat, actions: seq<Action>, states: seq<State>, i: nat, k: nat)
    requires IsRun(numJobs, actions, states) && i < k <= |actions| && actions[i] == MainStop(true)
    ensures states[i].main.Holding?
    ensures var j := states[i].main.job;
            || (states[k].main.Stopping? && states[k].main.keep && states[k].main.job == j)
            || states[k].main == Stopped(j)
            || (Leaving(states[k].main) && j in states[k].merged)
  {
    hide Step, Enabled;
    assert Enabled(states[k - 1], actions[k - 1]) && states[k] == Step(states[k - 1], actions[k - 1]);
    assert Enabled(states[i], actions[i]);
    StepKeeps(states[k - 1], actions[k - 1]);
    if i < k - 1 {
      KeptIsMerged(numJobs, actions, states, i, k - 1);
    }
  }

  lemma StepKeeps(st: State, a: Action)
    requires Enabled(st, a)
    ensures a == MainStop(true) ==> st.main.Holding? && Step(st, a).main == Stopping(0, true, st.main.job)
    ensures st.main.Stopping? && st.main.keep ==>
              var m := Step(st, a).main;
              m == Stopped(st.main.job) || (m.Stopping? && m.keep && m.job == st.main.job)
    ensures st.main.Stopped? ==>
              Step(st, a).main == st.main || (Leaving(Step(st, a).main) && st.main.job in Step(st, a).merged)
    ensures Leaving(st.main) ==> Leaving(Step(st, a).main)
    ensures forall j | j in st.merged :: j in Step(st, a).merged
  {
  }

  // ----- what the invariant means

  /** The main loop never pops the sentinel of its own queue: it only leaves through `StopJobs`. */
  lemma MainPopsJobs(st: State)
    requires Inv(st) && Enabled(st, MainPop)
    ensures st.mergeQ[0].Job?
  {
    hide Stops, Unique, ExitedIn, RunningIn;
    QueueHead(st.mergeQ, 0);
  }

  /** No job is handed to a merge twice. */
  lemma MergedOnce(st: State, i: nat, k: nat)
    requires Inv(st) && i < k < |st.merged|
    ensures st.merged[i] != st.merged[k]
  {
    var j := st.merged[k];
    assert st.merged == st.merged[..k] + [j] + st.merged[k + 1..];
    assert Places(st, j) <= 1;
    assert st.merged[i] in st.merged[..k];
    assert multiset(st.merged[..k])[st.merged[i]] > 0;
  }

  /** Once `StopJobs` has pushed its sentinels a worker that is still alive finds something to pop. */
  lemma NoWorkerBlocks(st: State, w: nat)
    requires Inv(st) && Pushed(st) == st.numJobs && w < |st.workers| && !st.workers[w].Exited?
    ensures Stops(st.fuzzQ) > 0 && st.fuzzQ != []
  {
    WorkerCounts(st.workers);
  }

  /** No deadlock: until the main thread is done some thread can take a step. */
  lemma Progress(st: State) returns (a: Action)
    requires Inv(st) && st.numJobs > 0 && !st.main.Done?
    ensures Enabled(st, a)
  {
    hide Stops, ExitedIn, RunningIn, Unique, Conserved;
    match st.main
    case Starting(t, started) => a := if started then PushFirstJob else StartThread;
    case Popping => a := PoppingProgress(st);
    case Holding(_) => a := SpawnMerge;
    case Handed => a := SpawnCreator;
    case Stopping(pushed, _, _) => a := if pushed < st.numJobs then PushStopToWorkers else PushStopToMain;
    case Stopped(_) => a := MergeLast;
    case Joining(joined) =>
      if joined == st.numJobs || st.workers[joined].Exited? {
        a := Join;
      } else {
        NoWorkerBlocks(st, joined);
        a := if st.workers[joined].Idle? then WorkerPop(joined) else WorkerFinish(joined);
      }
    case Done =>
  }

  lemma PoppingProgress(st: State) returns (a: Action)
    requires Inv(st) && st.numJobs > 0 && st.main.Popping?
    ensures Enabled(st, a)
  {
    if st.mergeQ != [] {
      a := MainPop;
    } else if st.creators > 0 {
      a := CreatorPush;
    } else {
      WorkerCounts(st.workers);
      if w: nat :| w < |st.workers| && st.workers[w].Running? {
        a := WorkerFinish(w);
      } else {
        a := WorkerPop(0);
      }
    }
  }

  // ----- after a stop everything ends

  /** How far the last sentinel is from the head of the queue: nothing behind it matters to the workers. */
  function LastStop(q: seq<Item>): nat {
    if q == [] then 0 else if q[|q| - 1].Stop? then |q| else LastStop(q[..|q| - 1])
  }

  lemma {:induction false} LastStopHead(q: seq<Item>)
    requires q != []
    ensures LastStop(q) <= |q| && (LastStop(q) == 0 <==> Stops(q) == 0)
    ensures LastStop(q[1..]) == if LastStop(q) == 0 then 0 else LastStop(q) - 1
  {
    var k := |q| - 1;
    if k > 0 {
      LastStopHead(q[..k]);
      assert q[..k][1..] == q[1..][..k - 1];
    }
  }

  lemma LastStopTail(q: seq<Item>, x: Item)
    ensures LastStop(q + [x]) == if x.Stop? then |q| + 1 else LastStop(q)
  {
    assert (q + [x])[..|q|] == q;
  }

  /** The steps the main thread has left once it is in `StopJobs`. */
  function MainLeft(st: State): int {
    match st.main
    case Stopping(pushed, _, _) => 2 * st.numJobs + 4 - pushed
    case Stopped(_) => st.numJobs + 2
    case Joining(joined) => st.numJobs + 1 - joined
    case _ => 0
  }

  /** What workers and main thread can still do: jobs queued behind the last sentinel do not count. */
  function Work(st: State): int {
    MainLeft(st) + RunningIn(st.workers)
    + 2 * if st.main.Stopping? then |st.fuzzQ| + st.numJobs - st.main.pushed + st.creators else LastStop(st.fuzzQ)
  }

  /** After a stop every step uses up some of the work left; only late creator pushes may not, and they never add to it. */
  lemma StepWork(st: State, a: Action)
    requires Inv(st) && !BeforeStop(st.main) && Enabled(st, a)
    ensures var st' := Step(st, a);
            && !BeforeStop(st'.main)
            && 0 <= Work(st')
            && (a != CreatorPush ==> Work(st') < Work(st) && st'.creators == st.creators)
            && (a == CreatorPush ==> Work(st') == Work(st) && st'.creators == st.creators - 1)
  {
    hide Queued, Stops, RunBy, ExitedIn, LastStop, RunningIn, Unique, Places;
    Bookkeeping(st, a, 0);
    match a
    case WorkerPop(w) =>
      LastStopHead(st.fuzzQ);
      if !st.main.Stopping? {
        NoWorkerBlocks(st, w);
      }
    case CreatorPush => LastStopTail(st.fuzzQ, Job(st.nextJob));
    case PushStopToMain => LastStopBound(st.fuzzQ);
    case _ =>
  }

  lemma LastStopBound(q: seq<Item>)
    ensures LastStop(q) <= |q|
  {
    if q != [] {
      LastStopHead(q);
    }
  }

  /** A run after a stop, from any reachable state, is finite; when nothing can move, every worker has exited and been joined. */
  lemma {:induction false} StopCompletes(actions: seq<Action>, states: seq<State>)
    requires IsPath(actions, states) && Inv(states[0]) && !BeforeStop(states[0].main)
    ensures |actions| <= Work(states[0]) + states[0].creators
    ensures var last := states[|actions|];
            last.numJobs > 0 && (forall a :: !Enabled(last, a)) ==>
              last.main.Done? && forall w | 0 <= w < |last.workers| :: last.workers[w].Exited?
  {
    hide Step, Enabled, Work;
    if actions == [] {
      WorkNonNegative(states[0]);
      if states[0].numJobs > 0 && !states[0].main.Done? {
        var a := Progress(states[0]);
      }
    } else {
      StepInv(states[0], actions[0]);
      StepWork(states[0], actions[0]);
      StopCompletes(actions[1..], states[1..]);
    }
  }

  lemma WorkNonNegative(st: State)
    requires Inv(st)
    ensures 0 <= Work(st)
  {
  }
}
