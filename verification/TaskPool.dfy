/**
  pkg/gather/tasks_processing.go: HandleTasksConcurrently, its workers, and the consumer that ranges over
  the results (pkg/gather/gather.go), as a transition system over their steps.

  Both channels are unbuffered, so a send and its receive are one step of two goroutines.  What the Go
  runtime answers with a panic (a send on a closed channel, a second close, a negative WaitGroup counter)
  leads to a crashed state here.
 */
module TaskPool {
  import opened Options

  datatype Task = Task(name: string, closure: nat)

  /** What running a task's closure does. */
  datatype Outcome = Returned(records: seq<string>, errs: seq<string>) | Panicked(reason: string)

  /** A result keeps its task; the source keeps the task's name. */
  datatype FunctionResult = FunctionResult(task: Task, records: seq<string>, errs: seq<string>, panic: Option<string>)

  /** handleTask: the deferred recover turns a panic into a result without records. */
  function ResultOf(t: Task, o: Outcome): FunctionResult
  {
    match o
    case Returned(records, errs) => FunctionResult(t, records, errs, None)
    case Panicked(reason) => FunctionResult(t, [], [], Some(reason))
  }

  datatype Worker =
    | Listening                      // in `for task := range tasksChan`
    | Working(task: Task)
    | Sending(result: FunctionResult) // at `resultsChan <-`
    | Leaving                        // the range has ended, the deferred wg.Done is still to run
    | Done

  /** The goroutine that spawns the workers, feeds them, waits and closes the results. */
  datatype Feeder = Spawning | Feeding | Waiting | ClosingResults | Finished

  datatype Collector = Ranging | Handling(result: FunctionResult) | Stopped

  datatype State = State(
    workerNum: nat,
    unsent: seq<Task>,
    workers: seq<Worker>,
    wg: int,
    feeder: Feeder,
    tasksClosed: bool,
    resultsClosed: bool,
    collector: Collector,
    collected: seq<FunctionResult>,
    crashed: bool)

  datatype Action =
    | Spawn | StartFeeding | Feed(w: nat) | CloseTasks | WaitReturns | CloseResults
    | Finish(w: nat, outcome: Outcome) | Deliver(w: nat) | Exit(w: nat) | WgDone(w: nat)
    | Handle | Stop

  function WorkerNum(numCPU: nat, tasks: seq<Task>): nat
  {
    if |tasks| < 4 * numCPU then |tasks| else 4 * numCPU
  }

  function Init(numCPU: nat, tasks: seq<Task>): State
  {
    State(WorkerNum(numCPU, tasks), tasks, [], 0, Spawning, false, false, Ranging, [], false)
  }

  predicate At(s: State, w: nat) { w < |s.workers| }

  predicate Enabled(s: State, a: Action)
  {
    !s.crashed &&
    match a
    case Spawn => s.feeder.Spawning? && |s.workers| < s.workerNum
    case StartFeeding => s.feeder.Spawning? && |s.workers| >= s.workerNum
    case Feed(w) => s.feeder.Feeding? && s.unsent != [] && At(s, w) && s.workers[w].Listening?
    case CloseTasks => s.feeder.Feeding? && s.unsent == []
    case WaitReturns => s.feeder.Waiting? && s.wg == 0
    case CloseResults => s.feeder.ClosingResults?
    case Finish(w, _) => At(s, w) && s.workers[w].Working?
    case Deliver(w) => At(s, w) && s.workers[w].Sending? && (s.resultsClosed || s.collector.Ranging?)
    case Exit(w) => At(s, w) && s.workers[w].Listening? && s.tasksClosed
    case WgDone(w) => At(s, w) && s.workers[w].Leaving?
    case Handle => s.collector.Handling?
    case Stop => s.collector.Ranging? && s.resultsClosed
  }

  function SetWorker(s: State, w: nat, x: Worker): State
    requires At(s, w)
  {
    s.(workers := s.workers[w := x])
  }

  function Next(s: State, a: Action): State
    requires Enabled(s, a)
  {
    match a
    case Spawn => s.(workers := s.workers + [Listening], wg := s.wg + 1)
    case StartFeeding => s.(feeder := Feeding)
    case Feed(w) => if s.tasksClosed then s.(crashed := true)
                    else SetWorker(s, w, Working(s.unsent[0])).(unsent := s.unsent[1..])
    case CloseTasks => if s.tasksClosed then s.(crashed := true) else s.(tasksClosed := true, feeder := Waiting)
    case WaitReturns => s.(feeder := ClosingResults)
    case CloseResults => if s.resultsClosed then s.(crashed := true) else s.(resultsClosed := true, feeder := Finished)
    case Finish(w, outcome) => SetWorker(s, w, Sending(ResultOf(s.workers[w].task, outcome)))
    case Deliver(w) => if s.resultsClosed then s.(crashed := true)
                       else SetWorker(s, w, Listening).(collector := Handling(s.workers[w].result))
    case Exit(w) => SetWorker(s, w, Leaving)
    case WgDone(w) => if s.wg <= 0 then s.(crashed := true) else SetWorker(s, w, Done).(wg := s.wg - 1)
    case Handle => s.(collector := Ranging, collected := s.collected + [s.collector.result])
    case Stop => s.(collector := Stopped)
  }

  // ---------- runs ----------

  predicate ValidRun(s: State, run: seq<Action>)
    decreases |run|
  {
    run != [] ==> Enabled(s, run[0]) && ValidRun(Next(s, run[0]), run[1..])
  }

  function After(s: State, run: seq<Action>): State
    requires ValidRun(s, run)
    decreases |run|
  {
    if run == [] then s else After(Next(s, run[0]), run[1..])
  }

  /** The background goroutine has returned and the consumer's range has ended. */
  predicate Final(s: State) { s.feeder.Finished? && s.collector.Stopped? }

  // ---------- what the goroutines hold ----------

  function HeldBy(w: Worker): multiset<Task>
  {
    match w
    case Working(t) => multiset{t}
    case Sending(r) => multiset{r.task}
    case _ => multiset{}
  }

  function Held(ws: seq<Worker>): multiset<Task>
  {
    if ws == [] then multiset{} else Held(ws[..|ws| - 1]) + HeldBy(ws[|ws| - 1])
  }

  function TasksOf(rs: seq<FunctionResult>): multiset<Task>
  {
    if rs == [] then multiset{} else TasksOf(rs[..|rs| - 1]) + multiset{rs[|rs| - 1].task}
  }

  function HeldByCollector(c: Collector): multiset<Task>
  {
    if c.Handling? then multiset{c.result.task} else multiset{}
  }

  function Weight(w: Worker): nat
  {
    match w
    case Listening => 2
    case Working(_) => 5
    case Sending(_) => 4
    case Leaving => 1
    case Done => 0
  }

  function Weights(ws: seq<Worker>): nat
  {
    if ws == [] then 0 else Weights(ws[..|ws| - 1]) + Weight(ws[|ws| - 1])
  }

  function Running(ws: seq<Worker>): nat
  {
    if ws == [] then 0 else Running(ws[..|ws| - 1]) + if ws[|ws| - 1].Done? then 0 else 1
  }

  /** Replacing one worker changes each total by the difference of the two. */
  lemma {:induction false} HeldChange(ws: seq<Worker>, i: nat, x: Worker)
    requires i < |ws|
    ensures HeldBy(ws[i]) <= Held(ws)
    ensures Held(ws[i := x]) == Held(ws) - HeldBy(ws[i]) + HeldBy(x)
  {
    hide HeldBy;
    var n := |ws| - 1;
    if i < n {
      HeldChange(ws[..n], i, x);
      assert ws[i := x][..n] == ws[..n][i := x];
    } else {
      assert ws[i := x][..n] == ws[..n];
    }
  }

  lemma {:induction false} WeightChange(ws: seq<Worker>, i: nat, x: Worker)
    requires i < |ws|
    ensures Weights(ws[i := x]) + Weight(ws[i]) == Weights(ws) + Weight(x)
  {
    hide Weight;
    var n := |ws| - 1;
    if i < n {
      WeightChange(ws[..n], i, x);
      assert ws[i := x][..n] == ws[..n][i := x];
    } else {
      assert ws[i := x][..n] == ws[..n];
    }
  }

  lemma {:induction false} RunningChange(ws: seq<Worker>, i: nat, x: Worker)
    requires i < |ws|
    ensures Running(ws[i := x]) + (if ws[i].Done? then 0 else 1) == Running(ws) + (if x.Done? then 0 else 1)
  {
    var n := |ws| - 1;
    if i < n {
      RunningChange(ws[..n], i, x);
      assert ws[i := x][..n] == ws[..n][i := x];
    } else {
      assert ws[i := x][..n] == ws[..n];
    }
  }

  lemma {:induction false} RunningCountsWorkers(ws: seq<Worker>)
    ensures Running(ws) == 0 <==> forall i | 0 <= i < |ws| :: ws[i].Done?
  {
    if ws != [] {
      RunningCountsWorkers(ws[..|ws| - 1]);
    }
  }

  lemma {:induction false} IdleHoldNothing(ws: seq<Worker>)
    requires forall i | 0 <= i < |ws| :: HeldBy(ws[i]) == multiset{}
    ensures Held(ws) == multiset{}
  {
    if ws != [] {
      IdleHoldNothing(ws[..|ws| - 1]);
    }
  }

  // ---------- the invariant ----------

  /** All tasks wherever they are: still unsent, with a worker, with the consumer, or delivered. */
  function Places(s: State): multiset<Task>
  {
    multiset(s.unsent) + Held(s.workers) + HeldByCollector(s.collector) + TasksOf(s.collected)
  }

  /** No task is lost or duplicated. */
  ghost predicate Conserved(s: State, tasks: seq<Task>) { Places(s) == multiset(tasks) }

  /** How the phases of the goroutines, the counter and the close flags depend on each other. */
  ghost predicate InPhase(s: State)
  {
    && !s.crashed
    && |s.workers| <= s.workerNum
    && (!s.feeder.Spawning? ==> |s.workers| == s.workerNum)
    && s.wg == Running(s.workers)
    && (s.tasksClosed <==> s.feeder.Waiting? || s.feeder.ClosingResults? || s.feeder.Finished?)
    && (s.tasksClosed ==> s.unsent == [])
    && (!s.tasksClosed ==> forall i | 0 <= i < |s.workers| :: !s.workers[i].Leaving? && !s.workers[i].Done?)
    && (s.feeder.ClosingResults? || s.feeder.Finished? ==> s.wg == 0)
    && (s.resultsClosed <==> s.feeder.Finished?)
    && (s.collector.Stopped? ==> s.resultsClosed)
  }

  ghost predicate Inv(s: State, tasks: seq<Task>)
  {
    InPhase(s) && Conserved(s, tasks) && (tasks != [] ==> s.workerNum > 0)
  }

  lemma {:induction false} InitInv(numCPU: nat, tasks: seq<Task>)
    requires numCPU > 0
    ensures Inv(Init(numCPU, tasks), tasks)
  {
    assert multiset(tasks) + Held([]) == multiset(tasks);
  }

  predicate MovesWorker(a: Action)
  {
    a.Finish? || a.Deliver? || a.Exit? || a.WgDone? || a.Feed?
  }

  lemma {:induction false} WorkerStepInPhase(s: State, a: Action)
    requires InPhase(s) && Enabled(s, a) && MovesWorker(a)
    ensures InPhase(Next(s, a))
    ensures Next(s, a).workers == s.workers[a.w := Next(s, a).workers[a.w]]
  {
    hide Running;
    RunningCountsWorkers(s.workers);
    var x := match a
      case Finish(w, outcome) => Sending(ResultOf(s.workers[w].task, outcome))
      case Deliver(w) => Listening
      case Exit(w) => Leaving
      case WgDone(w) => Done
      case Feed(w) => Working(s.unsent[0]);
    RunningChange(s.workers, a.w, x);
  }

  lemma {:induction false} OtherStepInPhase(s: State, a: Action)
    requires InPhase(s) && Enabled(s, a) && !MovesWorker(a)
    ensures InPhase(Next(s, a))
  {
    hide Running, Held, Weights;
    if a.Spawn? {
      RunningSpawn(s.workers);
    }
  }

  lemma {:induction false} RunningSpawn(ws: seq<Worker>)
    ensures Running(ws + [Listening]) == Running(ws) + 1
    ensures Weights(ws + [Listening]) == Weights(ws) + 2
    ensures Held(ws + [Listening]) == Held(ws)
  {
    var ws' := ws + [Listening];
    assert ws'[..|ws'| - 1] == ws;
  }

  /** Every step that does not crash moves at most one task, from one place to the next. */
  lemma {:induction false} StepKeepsPlaces(s: State, a: Action)
    requires Enabled(s, a) && !Next(s, a).crashed
    ensures Places(Next(s, a)) == Places(s)
  {
    hide Held, TasksOf, Places, Next;
    match a
    case Feed(w) => FeedKeepsPlaces(s, w);
    case Deliver(w) => DeliverKeepsPlaces(s, w);
    case Handle => HandleKeepsPlaces(s);
    case Finish(_, _) => WorkerOnlyKeepsPlaces(s, a);
    case Exit(_) => WorkerOnlyKeepsPlaces(s, a);
    case WgDone(_) => WorkerOnlyKeepsPlaces(s, a);
    case _ => NothingMoves(s, a);
  }

  lemma {:induction false} FeedKeepsPlaces(s: State, w: nat)
    requires Enabled(s, Feed(w)) && !Next(s, Feed(w)).crashed
    ensures Places(Next(s, Feed(w))) == Places(s)
  {
    hide Held, TasksOf;
    var t := s.unsent[0];
    HeldChange(s.workers, w, Working(t));
    assert s.unsent == [t] + s.unsent[1..];
    Regroup(multiset(s.unsent[1..]), Held(s.workers), multiset{}, multiset{t},
            HeldByCollector(s.collector), TasksOf(s.collected));
  }

  lemma {:induction false} DeliverKeepsPlaces(s: State, w: nat)
    requires Enabled(s, Deliver(w)) && !Next(s, Deliver(w)).crashed
    ensures Places(Next(s, Deliver(w))) == Places(s)
  {
    hide Held, TasksOf;
    var t := s.workers[w].result.task;
    HeldChange(s.workers, w, Listening);
    Regroup(multiset(s.unsent), Held(s.workers), multiset{t}, multiset{}, multiset{}, TasksOf(s.collected));
  }

  /** Moving `taken` out of and `given` into one of four bags. */
  lemma {:induction false} Regroup(
      a: multiset<Task>, b: multiset<Task>, taken: multiset<Task>, given: multiset<Task>,
      c: multiset<Task>, d: multiset<Task>)
    requires taken <= b
    ensures a + (b - taken + given) + (c + taken) + d == (a + given) + b + c + d
  {}

  lemma {:induction false} HandleKeepsPlaces(s: State)
    requires Enabled(s, Handle)
    ensures Places(Next(s, Handle)) == Places(s)
  {
    hide Held, TasksOf;
    TasksOfOneMore(s.collected, s.collector.result);
  }

  /** A worker that goes on with the task it has, or with none, as before. */
  lemma {:induction false} WorkerOnlyKeepsPlaces(s: State, a: Action)
    requires Enabled(s, a) && !Next(s, a).crashed && (a.Finish? || a.Exit? || a.WgDone?)
    ensures Places(Next(s, a)) == Places(s)
  {
    hide Held, TasksOf;
    match a
    case Finish(w, outcome) => HeldSame(s.workers, w, Sending(ResultOf(s.workers[w].task, outcome)));
    case Exit(w) => HeldSame(s.workers, w, Leaving);
    case WgDone(w) => HeldSame(s.workers, w, Done);
  }

  lemma {:induction false} HeldSame(ws: seq<Worker>, i: nat, x: Worker)
    requires i < |ws| && HeldBy(ws[i]) == HeldBy(x)
    ensures Held(ws[i := x]) == Held(ws)
  {
    hide Held, HeldBy;
    HeldChange(ws, i, x);
  }

  lemma {:induction false} NothingMoves(s: State, a: Action)
    requires Enabled(s, a) && !MovesWorker(a) && !a.Handle?
    ensures Places(Next(s, a)) == Places(s)
  {
    hide Held, TasksOf;
    if a.Spawn? {
      RunningSpawn(s.workers);
    }
  }

  lemma {:induction false} TasksOfOneMore(rs: seq<FunctionResult>, r: FunctionResult)
    ensures TasksOf(rs + [r]) == TasksOf(rs) + multiset{r.task}
  {
    var rs' := rs + [r];
    assert rs'[..|rs'| - 1] == rs;
  }

  lemma {:induction false} StepInv(s: State, tasks: seq<Task>, a: Action)
    requires Inv(s, tasks) && Enabled(s, a)
    ensures Inv(Next(s, a), tasks)
  {
    hide Places;
    if MovesWorker(a) {
      WorkerStepInPhase(s, a);
    } else {
      OtherStepInPhase(s, a);
    }
    StepKeepsPlaces(s, a);
  }

  // ---------- progress ----------

  function FeederWeight(f: Feeder): nat
  {
    match f
    case Spawning => 4
    case Feeding => 3
    case Waiting => 2
    case ClosingResults => 1
    case Finished => 0
  }

  function CollectorWeight(c: Collector): nat
  {
    match c
    case Ranging => 1
    case Handling(_) => 2
    case Stopped => 0
  }

  /** The number of steps still to be taken. */
  function Remaining(s: State): nat
    requires |s.workers| <= s.workerNum
  {
    4 * |s.unsent| + 3 * (s.workerNum - |s.workers|) + Weights(s.workers)
    + FeederWeight(s.feeder) + CollectorWeight(s.collector)
  }

  lemma {:induction false} StepUsesOne(s: State, a: Action)
    requires InPhase(s) && Enabled(s, a)
    ensures |Next(s, a).workers| <= Next(s, a).workerNum
    ensures Remaining(Next(s, a)) == Remaining(s) - 1
  {
    hide Running, Weights;
    if MovesWorker(a) {
      WorkerStepInPhase(s, a);
      WeightChange(s.workers, a.w, Next(s, a).workers[a.w]);
    } else {
      OtherStepInPhase(s, a);
      if a.Spawn? {
        RunningSpawn(s.workers);
      }
    }
  }

  /** No deadlock: some goroutine can move in every state that is not final; tasks are taken to return or panic. */
  lemma {:induction false} Progress(s: State, tasks: seq<Task>) returns (a: Action)
    requires Inv(s, tasks) && !Final(s)
    ensures Enabled(s, a)
  {
    hide Held, TasksOf, Conserved;
    RunningCountsWorkers(s.workers);
    if s.collector.Handling? {
      a := Handle;
    } else if w: nat :| At(s, w) && s.workers[w].Sending? {
      a := Deliver(w);
    } else if w: nat :| At(s, w) && s.workers[w].Working? {
      a := Finish(w, Panicked(""));
    } else if w: nat :| At(s, w) && s.workers[w].Leaving? {
      a := WgDone(w);
    } else {
      match s.feeder
      case Spawning =>
        a := if |s.workers| < s.workerNum then Spawn else StartFeeding;
      case Feeding =>
        if s.unsent == [] {
          a := CloseTasks;
        } else {
          SomeTask(s, tasks);
          assert At(s, 0);
          a := Feed(0);
        }
      case Waiting =>
        if w: nat :| At(s, w) && s.workers[w].Listening? {
          a := Exit(w);
        } else {
          assert forall i | 0 <= i < |s.workers| :: At(s, i);
          a := WaitReturns;
        }
      case ClosingResults => a := CloseResults;
      case Finished => a := Stop;
    }
  }

  lemma {:induction false} SomeTask(s: State, tasks: seq<Task>)
    requires Conserved(s, tasks) && s.unsent != []
    ensures tasks != []
  {
    assert s.unsent[0] in multiset(s.unsent);
    assert s.unsent[0] in multiset(tasks);
  }

  // ---------- main results ----------

  lemma {:induction false} RunInv(s: State, tasks: seq<Task>, run: seq<Action>)
    requires Inv(s, tasks) && ValidRun(s, run)
    ensures Inv(After(s, run), tasks)
    ensures |run| + Remaining(After(s, run)) == Remaining(s)
    decreases |run|
  {
    hide Inv, Remaining;
    WorkersFit(s, tasks);
    if run != [] {
      StepInv(s, tasks, run[0]);
      StepUsesOne(s, run[0]);
      RunInv(Next(s, run[0]), tasks, run[1..]);
    }
    WorkersFit(After(s, run), tasks);
  }

  lemma {:induction false} WorkersFit(s: State, tasks: seq<Task>)
    requires Inv(s, tasks)
    ensures InPhase(s) && |s.workers| <= s.workerNum && !s.crashed
  {}

  /**
    Every reachable state of every interleaving: nothing has crashed, so no result was sent on the closed
    channel and no channel was closed twice; every task is in exactly one place; and once the results are
    closed, every result has been delivered.
   */
  lemma {:induction false} PoolIsSafe(numCPU: nat, tasks: seq<Task>, run: seq<Action>)
    requires numCPU > 0 && ValidRun(Init(numCPU, tasks), run)
    ensures var s := After(Init(numCPU, tasks), run);
            && !s.crashed
            && Conserved(s, tasks)
            && (s.resultsClosed ==> forall i | 0 <= i < |s.workers| :: s.workers[i].Done?)
            && (s.resultsClosed ==> HeldByCollector(s.collector) + TasksOf(s.collected) == multiset(tasks))
  {
    InitInv(numCPU, tasks);
    RunInv(Init(numCPU, tasks), tasks, run);
    var s := After(Init(numCPU, tasks), run);
    RunningCountsWorkers(s.workers);
    if s.resultsClosed {
      IdleHoldNothing(s.workers);
    }
  }

  /**
    Every run ends: it can be extended until it is final, it is final exactly when it has
    4 * tasks + 3 * workers + 5 steps, and then the consumer has one result for every task.
   */
  lemma {:induction false} PoolTerminates(numCPU: nat, tasks: seq<Task>, run: seq<Action>)
    requires numCPU > 0 && ValidRun(Init(numCPU, tasks), run)
    ensures var s := After(Init(numCPU, tasks), run);
            var workers := if |tasks| < 4 * numCPU then |tasks| else 4 * numCPU;
            var total := 4 * |tasks| + 3 * workers + 5;
            && |run| <= total
            && (Final(s) <==> |run| == total)
            && (!Final(s) ==> exists a :: Enabled(s, a))
            && (Final(s) ==> TasksOf(s.collected) == multiset(tasks))
  {
    InitInv(numCPU, tasks);
    RunInv(Init(numCPU, tasks), tasks, run);
    var s := After(Init(numCPU, tasks), run);
    if Final(s) {
      PoolIsSafe(numCPU, tasks, run);
      NothingLeft(s, tasks);
    } else {
      var a := Progress(s, tasks);
      StepUsesOne(s, a);
    }
  }

  lemma {:induction false} NothingLeft(s: State, tasks: seq<Task>)
    requires Inv(s, tasks) && Final(s)
    ensures Remaining(s) == 0
  {
    RunningCountsWorkers(s.workers);
    DoneWeighsNothing(s.workers);
  }

  lemma {:induction false} DoneWeighsNothing(ws: seq<Worker>)
    requires forall i | 0 <= i < |ws| :: ws[i].Done?
    ensures Weights(ws) == 0
  {
    if ws != [] {
      DoneWeighsNothing(ws[..|ws| - 1]);
    }
  }
}
