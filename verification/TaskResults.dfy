/** pkg/gather/tasks_processing.go: the results that the consumer of the task pool gets, over whole runs. */
module TaskResults {
  import opened Options
  import opened TaskPool

  function ResultBy(w: Worker): multiset<FunctionResult> { if w.Sending? then multiset{w.result} else multiset{} }

  function AtSend(ws: seq<Worker>): multiset<FunctionResult>
  {
    if ws == [] then multiset{} else AtSend(ws[..|ws| - 1]) + ResultBy(ws[|ws| - 1])
  }

  lemma {:induction false} NothingAtSend(ws: seq<Worker>)
    requires forall i | 0 <= i < |ws| :: ws[i].Done?
    ensures AtSend(ws) == multiset{}
  {
    if ws != [] {
      NothingAtSend(ws[..|ws| - 1]);
    }
  }

  lemma {:induction false} AtSendChange(ws: seq<Worker>, i: nat, x: Worker)
    requires i < |ws|
    ensures ResultBy(ws[i]) <= AtSend(ws)
    ensures AtSend(ws[i := x]) == AtSend(ws) - ResultBy(ws[i]) + ResultBy(x)
  {
    hide ResultBy;
    var n := |ws| - 1;
    if i < n {
      AtSendChange(ws[..n], i, x);
      assert ws[i := x][..n] == ws[..n][i := x];
    } else {
      assert ws[i := x][..n] == ws[..n];
    }
  }

  /** All results wherever they are: at a worker's send, with the consumer, or delivered. */
  function Results(s: State): multiset<FunctionResult>
  {
    AtSend(s.workers)
    + (if s.collector.Handling? then multiset{s.collector.result} else multiset{})
    + multiset(s.collected)
  }

  /** The result that a step produces: what the task returned, or its panic. */
  function ProducedBy(s: State, a: Action): multiset<FunctionResult>
    requires Enabled(s, a)
  {
    match a
    case Finish(w, Returned(records, errs)) => multiset{FunctionResult(s.workers[w].task, records, errs, None)}
    case Finish(w, Panicked(reason)) => multiset{FunctionResult(s.workers[w].task, [], [], Some(reason))}
    case _ => multiset{}
  }

  function Produced(s: State, run: seq<Action>): multiset<FunctionResult>
    requires ValidRun(s, run)
    decreases |run|
  {
    if run == [] then multiset{} else ProducedBy(s, run[0]) + Produced(Next(s, run[0]), run[1..])
  }

  /** No step changes, loses or duplicates a result. */
  lemma {:induction false} StepKeepsResults(s: State, a: Action)
    requires Enabled(s, a) && !Next(s, a).crashed
    ensures Results(Next(s, a)) == Results(s) + ProducedBy(s, a)
  {
    hide AtSend, Results;
    match a
    case Feed(w) => WorkerOnlyResults(s, a, Working(s.unsent[0]));
    case Finish(w, outcome) => WorkerOnlyResults(s, a, Sending(ResultOf(s.workers[w].task, outcome)));
    case Deliver(w) => DeliverKeepsResults(s, w);
    case Exit(w) => WorkerOnlyResults(s, a, Leaving);
    case WgDone(w) => WorkerOnlyResults(s, a, Done);
    case _ => NoWorkerResults(s, a);
  }

  lemma {:induction false} WorkerOnlyResults(s: State, a: Action, x: Worker)
    requires Enabled(s, a) && !Next(s, a).crashed && MovesWorker(a) && !a.Deliver?
    requires Next(s, a).workers == s.workers[a.w := x]
    requires ResultBy(x) == ProducedBy(s, a) && ResultBy(s.workers[a.w]) == multiset{}
    ensures Results(Next(s, a)) == Results(s) + ProducedBy(s, a)
  {
    hide AtSend, ResultBy, ProducedBy;
    AtSendChange(s.workers, a.w, x);
  }

  lemma {:induction false} NoWorkerResults(s: State, a: Action)
    requires Enabled(s, a) && !Next(s, a).crashed && !MovesWorker(a)
    ensures Results(Next(s, a)) == Results(s) + ProducedBy(s, a)
  {
    if a.Spawn? {
      assert (s.workers + [Listening])[..|s.workers|] == s.workers;
    }
  }

  lemma {:induction false} DeliverKeepsResults(s: State, w: nat)
    requires Enabled(s, Deliver(w)) && !Next(s, Deliver(w)).crashed
    ensures Results(Next(s, Deliver(w))) == Results(s)
  {
    hide AtSend;
    AtSendChange(s.workers, w, Listening);
    var r, bag := multiset{s.workers[w].result}, AtSend(s.workers);
    assert r <= bag;
    assert bag - r + multiset{} + r == bag;
  }

  lemma {:induction false} RunKeepsResults(s: State, tasks: seq<Task>, run: seq<Action>)
    requires Inv(s, tasks) && ValidRun(s, run)
    ensures Results(After(s, run)) == Results(s) + Produced(s, run)
    decreases |run|
  {
    hide Inv, Results, ProducedBy;
    if run != [] {
      StepInv(s, tasks, run[0]);
      WorkersFit(Next(s, run[0]), tasks);
      StepKeepsResults(s, run[0]);
      RunKeepsResults(Next(s, run[0]), tasks, run[1..]);
    }
  }

  /**
    In the end the consumer has exactly the results that the tasks produced, unchanged: for every finished task what
    it returned, and for every panic its record-free result.
   */
  lemma {:induction false} DeliveredIsProduced(numCPU: nat, tasks: seq<Task>, run: seq<Action>)
    requires numCPU > 0 && ValidRun(Init(numCPU, tasks), run) && Final(After(Init(numCPU, tasks), run))
    ensures multiset(After(Init(numCPU, tasks), run).collected) == Produced(Init(numCPU, tasks), run)
  {
    hide Inv, Results, Produced, Final;
    var s0 := Init(numCPU, tasks);
    InitInv(numCPU, tasks);
    RunInv(s0, tasks, run);
    RunKeepsResults(s0, tasks, run);
    NoResultsYet(numCPU, tasks);
    AllDelivered(After(s0, run), tasks);
  }

  lemma {:induction false} NoResultsYet(numCPU: nat, tasks: seq<Task>)
    ensures Results(Init(numCPU, tasks)) == multiset{}
  {}

  lemma {:induction false} AllDelivered(s: State, tasks: seq<Task>)
    requires Inv(s, tasks) && Final(s)
    ensures Results(s) == multiset(s.collected)
  {
    RunningCountsWorkers(s.workers);
    NothingAtSend(s.workers);
    hide AtSend, Running, Conserved;
  }

  /**
    A task that panics yields exactly one result: in the end its panic has been delivered without records or errors,
    and no other result of the task, if it was given once.
   */
  lemma {:induction false} PanicYieldsOneResult(numCPU: nat, tasks: seq<Task>, run: seq<Action>, p: nat)
    requires numCPU > 0 && ValidRun(Init(numCPU, tasks), run) && Final(After(Init(numCPU, tasks), run))
    requires p < |run| && run[p].Finish? && run[p].outcome.Panicked?
    ensures ValidRun(Init(numCPU, tasks), run[..p])
    ensures var before := After(Init(numCPU, tasks), run[..p]);
            Enabled(before, run[p])
            && var t := before.workers[run[p].w].task;
            OnlyResult(After(Init(numCPU, tasks), run).collected, tasks, t,
                       FunctionResult(t, [], [], Some(run[p].outcome.reason)))
  {
    var s0 := Init(numCPU, tasks);
    ProducedAt(s0, run, p);
    var t := After(s0, run[..p]).workers[run[p].w].task;
    YieldsOneResult(numCPU, tasks, run, p, FunctionResult(t, [], [], Some(run[p].outcome.reason)));
  }

  /**
    A task that returns yields exactly one result: in the end all records and errors that it returned have been
    delivered together, without a panic, and no other result of the task, if it was given once.
   */
  lemma {:induction false} ReturnYieldsItsResult(numCPU: nat, tasks: seq<Task>, run: seq<Action>, p: nat)
    requires numCPU > 0 && ValidRun(Init(numCPU, tasks), run) && Final(After(Init(numCPU, tasks), run))
    requires p < |run| && run[p].Finish? && run[p].outcome.Returned?
    ensures ValidRun(Init(numCPU, tasks), run[..p])
    ensures var before := After(Init(numCPU, tasks), run[..p]);
            Enabled(before, run[p])
            && var t := before.workers[run[p].w].task;
            OnlyResult(After(Init(numCPU, tasks), run).collected, tasks, t,
                       FunctionResult(t, run[p].outcome.records, run[p].outcome.errs, None))
  {
    var s0 := Init(numCPU, tasks);
    ProducedAt(s0, run, p);
    var t := After(s0, run[..p]).workers[run[p].w].task;
    YieldsOneResult(numCPU, tasks, run, p, FunctionResult(t, run[p].outcome.records, run[p].outcome.errs, None));
  }

  /** r was delivered for the task t, and nothing else if t was given once. */
  ghost predicate OnlyResult(collected: seq<FunctionResult>, tasks: seq<Task>, t: Task, r: FunctionResult)
  {
    && r in collected
    && t in tasks
    && (multiset(tasks)[t] == 1 ==> forall i | 0 <= i < |collected| && collected[i].task == t :: collected[i] == r)
  }

  lemma {:induction false} YieldsOneResult(numCPU: nat, tasks: seq<Task>, run: seq<Action>, p: nat, r: FunctionResult)
    requires numCPU > 0 && ValidRun(Init(numCPU, tasks), run) && Final(After(Init(numCPU, tasks), run))
    requires p < |run| && ValidRun(Init(numCPU, tasks), run[..p])
    requires Enabled(After(Init(numCPU, tasks), run[..p]), run[p])
    requires ProducedBy(After(Init(numCPU, tasks), run[..p]), run[p]) == multiset{r}
    ensures OnlyResult(After(Init(numCPU, tasks), run).collected, tasks, r.task, r)
  {
    hide TasksOf, Produced, Final, Enabled, Next, ProducedBy;
    var s0 := Init(numCPU, tasks);
    ProducedAt(s0, run, p);
    DeliveredIsProduced(numCPU, tasks, run);
    PoolTerminates(numCPU, tasks, run);
    var collected := After(s0, run).collected;
    assert r in multiset(collected);
    OnlyOne(collected, tasks, r);
  }

  lemma {:induction false} ProducedAt(s: State, run: seq<Action>, p: nat)
    requires ValidRun(s, run) && p < |run|
    ensures ValidRun(s, run[..p]) && Enabled(After(s, run[..p]), run[p])
    ensures ProducedBy(After(s, run[..p]), run[p]) <= Produced(s, run)
    decreases p
  {
    hide Enabled, Next, ProducedBy;
    if p > 0 {
      ProducedAt(Next(s, run[0]), run[1..], p - 1);
      assert run[..p][1..] == run[1..][..p - 1];
    }
  }

  lemma {:induction false} OnlyOne(rs: seq<FunctionResult>, tasks: seq<Task>, r: FunctionResult)
    requires TasksOf(rs) == multiset(tasks) && r in rs
    ensures r.task in tasks
    ensures multiset(tasks)[r.task] == 1 ==> forall i | 0 <= i < |rs| && rs[i].task == r.task :: rs[i] == r
  {
    hide TasksOf;
    var k :| 0 <= k < |rs| && rs[k] == r;
    TaskAt(rs, k);
    assert r.task in multiset(tasks);
    forall i | 0 <= i < |rs| && rs[i].task == r.task && i != k ensures multiset(tasks)[r.task] >= 2 {
      TasksAt(rs, if i < k then i else k, if i < k then k else i);
    }
  }

  lemma {:induction false} TaskAt(rs: seq<FunctionResult>, i: nat)
    requires i < |rs|
    ensures TasksOf(rs)[rs[i].task] >= 1
  {
    if i < |rs| - 1 {
      TaskAt(rs[..|rs| - 1], i);
    }
  }

  lemma {:induction false} TasksAt(rs: seq<FunctionResult>, i: nat, j: nat)
    requires i < j < |rs| && rs[i].task == rs[j].task
    ensures TasksOf(rs)[rs[i].task] >= 2
  {
    if j < |rs| - 1 {
      TasksAt(rs[..|rs| - 1], i, j);
    } else {
      TaskAt(rs[..|rs| - 1], i);
    }
  }
}
