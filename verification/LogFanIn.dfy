/**
  pkg/gatherers/conditional/filter_and_gather_container_logs.go: gatherContainerLogs, filterContainerLogs
  and the container goroutines, as a transition system.

  One goroutine per namespace and one per container send to the same unbuffered channel; one receiver
  collects.  What the Go runtime answers with a panic (a send on the closed channel, a negative WaitGroup
  counter) leads to a crashed state.
 */
module LogFanIn {
  import opened Options

  /** recordWithError. */
  datatype Message = Message(record: Option<string>, err: Option<string>)

  /** A pod of the mapping: its messages do not compile, or each container goroutine produces one message. */
  datatype Pod = BadRegex(err: string) | Good(containers: seq<Message>)

  /** What createPodToContainersAndMessagesMapping returns for a namespace, the pods in iteration order. */
  datatype Mapping = Mapping(errs: seq<string>, pods: seq<Pod>)

  /** What is left to do for a namespace goroutine. */
  datatype Job =
    | Emit(m: Message)            // send on recCh from the namespace goroutine
    | AddAndSpawn(ms: seq<Message>) // wgContainers.Add, then one `go` for each
    | Spawning(ms: seq<Message>)

  datatype Container = Fetching(m: Message) | Ready(m: Message) | Sent | Gone

  datatype Namespace =
    | NotStarted(todo: seq<Job>)
    | Running(todo: seq<Job>, containers: seq<Container>, wgContainers: int)
    | Finished

  datatype Main = Starting | WaitingSenders | Closing | WaitingReceiver | Returned

  datatype Receiver = Ranging | Handling(m: Message) | Stopped

  datatype State = State(
    namespaces: seq<Namespace>, started: nat, sendWG: int, main: Main,
    recClosed: bool, receiver: Receiver, records: seq<string>, errs: seq<string>, crashed: bool)

  datatype Action =
    | Start | StopStarting | SendersDone | Close | Return
    | NsEmit(i: nat) | NsAdd(i: nat) | NsSpawn(i: nat) | NsSpawned(i: nat) | NsDone(i: nat)
    | Fetch(i: nat, c: nat) | Send(i: nat, c: nat) | ContainerDone(i: nat, c: nat)
    | Handle | Stop

  function ErrorMessage(err: string): Message { Message(None, Some(err)) }

  function PodJob(p: Pod): Job
  {
    match p
    case BadRegex(err) => Emit(ErrorMessage(err))
    case Good(containers) => AddAndSpawn(containers)
  }

  /** The work of filterContainerLogs: with mapping errors it only reports them. */
  function Program(m: Mapping): (jobs: seq<Job>)
  {
    if |m.errs| > 0 then seq(|m.errs|, i requires 0 <= i < |m.errs| => Emit(ErrorMessage(m.errs[i])))
    else seq(|m.pods|, i requires 0 <= i < |m.pods| => PodJob(m.pods[i]))
  }

  function Init(mappings: seq<Mapping>): State
  {
    State(seq(|mappings|, i requires 0 <= i < |mappings| => NotStarted(Program(mappings[i]))),
          0, 0, Starting, false, Ranging, [], [], false)
  }

  predicate IsRunning(s: State, i: nat) { i < |s.namespaces| && s.namespaces[i].Running? }

  predicate HasJob(s: State, i: nat) { IsRunning(s, i) && s.namespaces[i].todo != [] }

  predicate HasContainer(s: State, i: nat, c: nat) { IsRunning(s, i) && c < |s.namespaces[i].containers| }

  predicate CanSend(s: State) { s.recClosed || s.receiver.Ranging? }

  predicate Enabled(s: State, a: Action)
  {
    !s.crashed &&
    match a
    case Start => s.main.Starting? && s.started < |s.namespaces| && s.namespaces[s.started].NotStarted?
    case StopStarting => s.main.Starting? && s.started >= |s.namespaces|
    case SendersDone => s.main.WaitingSenders? && s.sendWG == 0
    case Close => s.main.Closing?
    case Return => s.main.WaitingReceiver? && s.receiver.Stopped?
    case NsEmit(i) => HasJob(s, i) && s.namespaces[i].todo[0].Emit? && CanSend(s)
    case NsAdd(i) => HasJob(s, i) && s.namespaces[i].todo[0].AddAndSpawn?
    case NsSpawn(i) => HasJob(s, i) && s.namespaces[i].todo[0].Spawning? && s.namespaces[i].todo[0].ms != []
    case NsSpawned(i) => HasJob(s, i) && s.namespaces[i].todo[0].Spawning? && s.namespaces[i].todo[0].ms == []
    case NsDone(i) => IsRunning(s, i) && s.namespaces[i].todo == [] && s.namespaces[i].wgContainers == 0
    case Fetch(i, c) => HasContainer(s, i, c) && s.namespaces[i].containers[c].Fetching?
    case Send(i, c) => HasContainer(s, i, c) && s.namespaces[i].containers[c].Ready? && CanSend(s)
    case ContainerDone(i, c) => HasContainer(s, i, c) && s.namespaces[i].containers[c].Sent?
    case Handle => s.receiver.Handling?
    case Stop => s.receiver.Ranging? && s.recClosed
  }

  function SetNs(s: State, i: nat, n: Namespace): State
    requires i < |s.namespaces|
  {
    s.(namespaces := s.namespaces[i := n])
  }

  function SetContainer(n: Namespace, c: nat, x: Container): (r: Namespace)
    requires n.Running? && c < |n.containers|
    ensures r.Running?
  {
    n.(containers := n.containers[c := x])
  }

  function Next(s: State, a: Action): State
    requires Enabled(s, a)
  {
    match a
    case Start =>
      SetNs(s, s.started, Running(s.namespaces[s.started].todo, [], 0))
        .(started := s.started + 1, sendWG := s.sendWG + 1)
    case StopStarting => s.(main := WaitingSenders)
    case SendersDone => s.(main := Closing)
    case Close => if s.recClosed then s.(crashed := true) else s.(recClosed := true, main := WaitingReceiver)
    case Return => s.(main := Returned)
    case NsEmit(i) =>
      var n := s.namespaces[i];
      if s.recClosed then s.(crashed := true)
      else SetNs(s, i, n.(todo := n.todo[1..])).(receiver := Handling(n.todo[0].m))
    case NsAdd(i) =>
      var n := s.namespaces[i];
      SetNs(s, i, n.(todo := [Spawning(n.todo[0].ms)] + n.todo[1..], wgContainers := n.wgContainers + |n.todo[0].ms|))
    case NsSpawn(i) =>
      var n := s.namespaces[i];
      var ms := n.todo[0].ms;
      SetNs(s, i, n.(todo := [Spawning(ms[1..])] + n.todo[1..], containers := n.containers + [Fetching(ms[0])]))
    case NsSpawned(i) =>
      var n := s.namespaces[i];
      SetNs(s, i, n.(todo := n.todo[1..]))
    case NsDone(i) =>
      if s.sendWG <= 0 then s.(crashed := true) else SetNs(s, i, Finished).(sendWG := s.sendWG - 1)
    case Fetch(i, c) =>
      SetNs(s, i, SetContainer(s.namespaces[i], c, Ready(s.namespaces[i].containers[c].m)))
    case Send(i, c) =>
      if s.recClosed then s.(crashed := true)
      else SetNs(s, i, SetContainer(s.namespaces[i], c, Sent)).(receiver := Handling(s.namespaces[i].containers[c].m))
    case ContainerDone(i, c) =>
      var n := s.namespaces[i];
      if n.wgContainers <= 0 then s.(crashed := true)
      else SetNs(s, i, SetContainer(n, c, Gone).(wgContainers := n.wgContainers - 1))
    case Handle =>
      var m := s.receiver.m;
      s.(receiver := Ranging,
         records := if m.record.Some? then s.records + [m.record.value] else s.records,
         errs := if m.err.Some? then s.errs + [m.err.value] else s.errs)
    case Stop => s.(receiver := Stopped)
  }

  predicate ValidRun(s: State, run: seq<Action>)
    decreases |run|
  {
    run != [] ==> Enabled(s, run[0]) && ValidRun(Next(s, run[0]), run[1..])
  }

  function After(s: State, run: seq<Action>): State
    requires ValidRun(s, run)
    decreases |run|
  {
    if run == [] then s else After(Next(s, run[0]), run[1..])
  }

  // ---------- what is still to come ----------

  /** The two kinds of payload: a message carries at most one of each. */
  datatype Kind = Records | Errs

  function Payload(m: Message, k: Kind): multiset<string>
  {
    var part := if k.Records? then m.record else m.err;
    if part.Some? then multiset{part.value} else multiset{}
  }

  function Payloads(ms: seq<Message>, k: Kind): multiset<string>
  {
    if ms == [] then multiset{} else Payload(ms[0], k) + Payloads(ms[1..], k)
  }

  function JobOwes(j: Job, k: Kind): multiset<string>
  {
    match j
    case Emit(m) => Payload(m, k)
    case AddAndSpawn(ms) => Payloads(ms, k)
    case Spawning(ms) => Payloads(ms, k)
  }

  function JobsOwe(jobs: seq<Job>, k: Kind): multiset<string>
  {
    if jobs == [] then multiset{} else JobOwes(jobs[0], k) + JobsOwe(jobs[1..], k)
  }

  function ContainerOwes(c: Container, k: Kind): multiset<string>
  {
    match c
    case Fetching(m) => Payload(m, k)
    case Ready(m) => Payload(m, k)
    case Sent => multiset{}
    case Gone => multiset{}
  }

  function ContainersOwe(cs: seq<Container>, k: Kind): multiset<string>
  {
    if cs == [] then multiset{} else ContainersOwe(cs[..|cs| - 1], k) + ContainerOwes(cs[|cs| - 1], k)
  }

  function NsOwes(n: Namespace, k: Kind): multiset<string>
  {
    match n
    case NotStarted(todo) => JobsOwe(todo, k)
    case Running(todo, containers, _) => JobsOwe(todo, k) + ContainersOwe(containers, k)
    case Finished => multiset{}
  }

  function AllOwe(ns: seq<Namespace>, k: Kind): multiset<string>
  {
    if ns == [] then multiset{} else AllOwe(ns[..|ns| - 1], k) + NsOwes(ns[|ns| - 1], k)
  }

  function ReceiverHolds(r: Receiver, k: Kind): multiset<string>
  {
    if r.Handling? then Payload(r.m, k) else multiset{}
  }

  function Collected(s: State, k: Kind): multiset<string>
  {
    if k.Records? then multiset(s.records) else multiset(s.errs)
  }

  /** Everything of one kind: still owed by a goroutine, in the receiver's hand, or collected. */
  function Everything(s: State, k: Kind): multiset<string>
  {
    AllOwe(s.namespaces, k) + ReceiverHolds(s.receiver, k) + Collected(s, k)
  }

  // ---------- what is to be collected, by the mappings alone ----------

  /** The record of a container's message, or its error. */
  function Carried(m: Message, k: Kind): multiset<string>
  {
    match (k, m)
    case (Records, Message(Some(record), _)) => multiset{record}
    case (Errs, Message(_, Some(err))) => multiset{err}
    case _ => multiset{}
  }

  function AllCarried(ms: seq<Message>, k: Kind): multiset<string>
  {
    if ms == [] then multiset{} else Carried(ms[0], k) + AllCarried(ms[1..], k)
  }

  /** A pod whose messages do not compile gives that error; any other what every container's message carries. */
  function PodProduces(p: Pod, k: Kind): multiset<string>
  {
    match p
    case BadRegex(err) => if k.Errs? then multiset{err} else multiset{}
    case Good(containers) => AllCarried(containers, k)
  }

  function PodsProduce(pods: seq<Pod>, k: Kind): multiset<string>
  {
    if pods == [] then multiset{} else PodProduces(pods[0], k) + PodsProduce(pods[1..], k)
  }

  /** A namespace whose mapping failed gives exactly the errors and nothing of its pods. */
  function Produced(mappings: seq<Mapping>, k: Kind): multiset<string>
  {
    if mappings == [] then multiset{}
    else
      var m := mappings[|mappings| - 1];
      Produced(mappings[..|mappings| - 1], k)
      + if m.errs == [] then PodsProduce(m.pods, k)
        else if k.Errs? then multiset(m.errs)
        else multiset{}
  }

  lemma {:induction false} ErrorJobsOwe(errs: seq<string>, jobs: seq<Job>, k: Kind)
    requires |jobs| == |errs| && forall i | 0 <= i < |errs| :: jobs[i] == Emit(ErrorMessage(errs[i]))
    ensures JobsOwe(jobs, k) == if k.Errs? then multiset(errs) else multiset{}
  {
    if errs != [] {
      ErrorJobsOwe(errs[1..], jobs[1..], k);
      assert errs == [errs[0]] + errs[1..];
    }
  }

  lemma {:induction false} ContainersOweTheirMessages(ms: seq<Message>, k: Kind)
    ensures Payloads(ms, k) == AllCarried(ms, k)
  {
    if ms != [] {
      ContainersOweTheirMessages(ms[1..], k);
    }
  }

  lemma {:induction false} PodOwes(p: Pod, k: Kind)
    ensures JobOwes(PodJob(p), k) == PodProduces(p, k)
  {
    if p.Good? {
      ContainersOweTheirMessages(p.containers, k);
    }
  }

  lemma {:induction false} PodJobsOwe(pods: seq<Pod>, jobs: seq<Job>, k: Kind)
    requires |jobs| == |pods| && forall i | 0 <= i < |pods| :: jobs[i] == PodJob(pods[i])
    ensures JobsOwe(jobs, k) == PodsProduce(pods, k)
  {
    hide PodJob, JobOwes, PodProduces;
    if pods != [] {
      PodOwes(pods[0], k);
      PodJobsOwe(pods[1..], jobs[1..], k);
    }
  }

  /** The program of a namespace owes what the mappings say. */
  lemma {:induction false} ProgramOwes(mappings: seq<Mapping>, k: Kind)
    requires mappings != []
    ensures Produced(mappings, k)
         == Produced(mappings[..|mappings| - 1], k) + JobsOwe(Program(mappings[|mappings| - 1]), k)
  {
    hide JobsOwe, PodsProduce, PodJob;
    var m := mappings[|mappings| - 1];
    if m.errs == [] {
      PodJobsOwe(m.pods, Program(m), k);
    } else {
      ErrorJobsOwe(m.errs, Program(m), k);
    }
  }

  lemma {:induction false} AllOweChange(ns: seq<Namespace>, i: nat, x: Namespace, k: Kind)
    requires i < |ns|
    ensures NsOwes(ns[i], k) <= AllOwe(ns, k)
    ensures AllOwe(ns[i := x], k) == AllOwe(ns, k) - NsOwes(ns[i], k) + NsOwes(x, k)
  {
    hide NsOwes;
    var n := |ns| - 1;
    if i < n {
      AllOweChange(ns[..n], i, x, k);
      assert ns[i := x][..n] == ns[..n][i := x];
    } else {
      assert ns[i := x][..n] == ns[..n];
    }
  }

  lemma {:induction false} ContainersChange(cs: seq<Container>, i: nat, x: Container, k: Kind)
    requires i < |cs|
    ensures ContainerOwes(cs[i], k) <= ContainersOwe(cs, k)
    ensures ContainersOwe(cs[i := x], k) == ContainersOwe(cs, k) - ContainerOwes(cs[i], k) + ContainerOwes(x, k)
  {
    hide ContainerOwes;
    var n := |cs| - 1;
    if i < n {
      ContainersChange(cs[..n], i, x, k);
      assert cs[i := x][..n] == cs[..n][i := x];
    } else {
      assert cs[i := x][..n] == cs[..n];
    }
  }

  lemma {:induction false} OneMoreContainer(cs: seq<Container>, x: Container, k: Kind)
    ensures ContainersOwe(cs + [x], k) == ContainersOwe(cs, k) + ContainerOwes(x, k)
    ensures NotGone(cs + [x]) == NotGone(cs) + if x.Gone? then 0 else 1
    ensures ContainersWeight(cs + [x]) == ContainersWeight(cs) + ContainerWeight(x)
  {
    var cs' := cs + [x];
    assert cs'[..|cs'| - 1] == cs;
  }

  lemma {:induction false} FirstJob(j: Job, jobs: seq<Job>, k: Kind)
    ensures JobsOwe([j] + jobs, k) == JobOwes(j, k) + JobsOwe(jobs, k)
    ensures JobsWeight([j] + jobs) == JobWeight(j) + JobsWeight(jobs)
  {
    assert ([j] + jobs)[1..] == jobs;
  }

  lemma {:induction false} SplitFirstJob(jobs: seq<Job>, k: Kind)
    requires jobs != []
    ensures JobsOwe(jobs, k) == JobOwes(jobs[0], k) + JobsOwe(jobs[1..], k)
    ensures JobsWeight(jobs) == JobWeight(jobs[0]) + JobsWeight(jobs[1..])
  {}

  function NotGone(cs: seq<Container>): nat
  {
    if cs == [] then 0 else NotGone(cs[..|cs| - 1]) + if cs[|cs| - 1].Gone? then 0 else 1
  }

  function Alive(ns: seq<Namespace>): nat
  {
    if ns == [] then 0 else Alive(ns[..|ns| - 1]) + if ns[|ns| - 1].Running? then 1 else 0
  }

  lemma {:induction false} NotGoneChange(cs: seq<Container>, i: nat, x: Container)
    requires i < |cs|
    ensures NotGone(cs[i := x]) + (if cs[i].Gone? then 0 else 1) == NotGone(cs) + (if x.Gone? then 0 else 1)
  {
    var n := |cs| - 1;
    if i < n {
      NotGoneChange(cs[..n], i, x);
      assert cs[i := x][..n] == cs[..n][i := x];
    } else {
      assert cs[i := x][..n] == cs[..n];
    }
  }

  lemma {:induction false} AliveChange(ns: seq<Namespace>, i: nat, x: Namespace)
    requires i < |ns|
    ensures Alive(ns[i := x]) + (if ns[i].Running? then 1 else 0) == Alive(ns) + (if x.Running? then 1 else 0)
  {
    var n := |ns| - 1;
    if i < n {
      AliveChange(ns[..n], i, x);
      assert ns[i := x][..n] == ns[..n][i := x];
    } else {
      assert ns[i := x][..n] == ns[..n];
    }
  }

  lemma {:induction false} NobodyAlive(ns: seq<Namespace>)
    ensures Alive(ns) == 0 <==> forall i | 0 <= i < |ns| :: !ns[i].Running?
  {
    if ns != [] {
      NobodyAlive(ns[..|ns| - 1]);
    }
  }

  lemma {:induction false} EveryoneGone(cs: seq<Container>, k: Kind)
    ensures NotGone(cs) == 0 <==> forall c | 0 <= c < |cs| :: cs[c].Gone?
    ensures NotGone(cs) == 0 ==> ContainersOwe(cs, k) == multiset{} && ContainersWeight(cs) == 0
  {
    if cs != [] {
      EveryoneGone(cs[..|cs| - 1], k);
    }
  }

  lemma {:induction false} FinishedOweNothing(ns: seq<Namespace>, k: Kind)
    requires forall i | 0 <= i < |ns| :: ns[i].Finished?
    ensures AllOwe(ns, k) == multiset{} && AllWeight(ns) == 0
  {
    if ns != [] {
      FinishedOweNothing(ns[..|ns| - 1], k);
    }
  }

  // ---------- the invariant ----------

  /** wgContainers counts the container goroutines that are not through, those about to be spawned included. */
  predicate NsConsistent(n: Namespace)
  {
    n.Running? ==>
      && n.wgContainers == NotGone(n.containers) + (if n.todo != [] && n.todo[0].Spawning? then |n.todo[0].ms| else 0)
      && forall j | 1 <= j < |n.todo| :: !n.todo[j].Spawning?
  }

  predicate NoneSpawning(n: Namespace)
  {
    n.NotStarted? ==> forall j | 0 <= j < |n.todo| :: !n.todo[j].Spawning?
  }

  ghost predicate InPhase(s: State)
  {
    && !s.crashed
    && s.started <= |s.namespaces|
    && (forall i | 0 <= i < |s.namespaces| :: s.namespaces[i].NotStarted? <==> s.started <= i)
    && (forall i | 0 <= i < |s.namespaces| :: NsConsistent(s.namespaces[i]) && NoneSpawning(s.namespaces[i]))
    && s.sendWG == Alive(s.namespaces)
    && (!s.main.Starting? ==> s.started == |s.namespaces|)
    && (s.main.Closing? || s.main.WaitingReceiver? || s.main.Returned? ==> s.sendWG == 0)
    && (s.recClosed <==> s.main.WaitingReceiver? || s.main.Returned?)
    && (s.receiver.Stopped? ==> s.recClosed)
    && (s.main.Returned? ==> s.receiver.Stopped?)
  }

  lemma {:induction false} InitInPhase(mappings: seq<Mapping>)
    ensures InPhase(Init(mappings))
  {
    NobodyAlive(Init(mappings).namespaces);
  }

  lemma {:induction false} RunningMeansOpen(s: State, i: nat)
    requires InPhase(s) && IsRunning(s, i)
    ensures !s.recClosed && s.sendWG > 0
  {
    NobodyAlive(s.namespaces);
  }

  /** The namespace that an action changes, and what it becomes. */
  predicate ChangesNs(a: Action)
  {
    a.NsEmit? || a.NsAdd? || a.NsSpawn? || a.NsSpawned? || a.NsDone? || a.Fetch? || a.Send? || a.ContainerDone?
  }

  lemma {:induction false} NsStepConsistent(s: State, a: Action)
    requires InPhase(s) && Enabled(s, a) && ChangesNs(a)
    ensures !Next(s, a).crashed
    ensures a.i < |Next(s, a).namespaces| == |s.namespaces|
    ensures Next(s, a).namespaces == s.namespaces[a.i := Next(s, a).namespaces[a.i]]
    ensures var n := Next(s, a).namespaces[a.i];
            NsConsistent(n) && !n.NotStarted? && (n.Finished? <==> a.NsDone?)
  {
    hide NotGone, Alive, NoneSpawning, NsConsistent;
    RunningMeansOpen(s, a.i);
    if a.Fetch? || a.Send? || a.ContainerDone? {
      ContainerStepConsistent(s, a);
    } else if !a.NsDone? {
      JobStepConsistent(s, a);
    } else {
      FinishedIsConsistent();
    }
  }

  lemma {:induction false} FinishedIsConsistent()
    ensures NsConsistent(Finished)
  {}

  lemma {:induction false} JobStepConsistent(s: State, a: Action)
    requires Enabled(s, a) && (a.NsEmit? || a.NsAdd? || a.NsSpawn? || a.NsSpawned?)
    requires !s.recClosed && NsConsistent(s.namespaces[a.i])
    ensures NsConsistent(Next(s, a).namespaces[a.i])
  {
    hide NotGone;
    var n := s.namespaces[a.i];
    if a.NsSpawn? {
      OneMoreContainer(n.containers, Fetching(n.todo[0].ms[0]), Records);
    }
  }

  lemma {:induction false} ContainerStepConsistent(s: State, a: Action)
    requires Enabled(s, a) && (a.Fetch? || a.Send? || a.ContainerDone?)
    requires !s.recClosed && NsConsistent(s.namespaces[a.i])
    ensures !Next(s, a).crashed && NsConsistent(Next(s, a).namespaces[a.i])
  {
    hide NotGone;
    var n := s.namespaces[a.i];
    var x := if a.Fetch? then Ready(n.containers[a.c].m) else if a.Send? then Sent else Gone;
    NotGoneChange(n.containers, a.c, x);
    SomeoneNotGone(n.containers, a.c);
  }

  lemma {:induction false} SomeoneNotGone(cs: seq<Container>, c: nat)
    requires c < |cs| && !cs[c].Gone?
    ensures NotGone(cs) > 0
  {
    EveryoneGone(cs, Records);
  }

  lemma {:induction false} NsStepInPhase(s: State, a: Action)
    requires InPhase(s) && Enabled(s, a) && ChangesNs(a)
    ensures InPhase(Next(s, a))
  {
    hide NsConsistent, NoneSpawning, Alive;
    NsStepConsistent(s, a);
    RunningMeansOpen(s, a.i);
    var x := Next(s, a).namespaces[a.i];
    AliveChange(s.namespaces, a.i, x);
    StartedSpawnsNothing(x);
  }

  lemma {:induction false} StartedSpawnsNothing(n: Namespace)
    requires !n.NotStarted?
    ensures NoneSpawning(n)
  {}

  lemma {:induction false} OtherStepInPhase(s: State, a: Action)
    requires InPhase(s) && Enabled(s, a) && !ChangesNs(a)
    ensures InPhase(Next(s, a))
  {
    hide Alive, NotGone;
    if a.Start? {
      var n := s.namespaces[s.started];
      assert NoneSpawning(n);
      AliveChange(s.namespaces, s.started, Running(n.todo, [], 0));
      EveryoneGone([], Records);
    }
  }

  lemma {:induction false} StepInPhase(s: State, a: Action)
    requires InPhase(s) && Enabled(s, a)
    ensures InPhase(Next(s, a))
  {
    hide InPhase;
    if ChangesNs(a) {
      NsStepInPhase(s, a);
    } else {
      OtherStepInPhase(s, a);
    }
  }

  // ---------- no payload is lost or duplicated ----------

  /** What a step of a namespace's goroutines takes out of its debt is what the receiver gets. */
  lemma {:induction false} NsStepDebt(s: State, a: Action, k: Kind)
    requires InPhase(s) && Enabled(s, a) && ChangesNs(a)
    requires !Next(s, a).crashed && a.i < |Next(s, a).namespaces|
    ensures NsOwes(Next(s, a).namespaces[a.i], k) + ReceiverHolds(Next(s, a).receiver, k)
         == NsOwes(s.namespaces[a.i], k) + ReceiverHolds(s.receiver, k)
  {
    hide InPhase, NsConsistent, JobsOwe, ContainersOwe, Payload;
    var n := s.namespaces[a.i];
    NsWasOpen(s, a);
    if a.NsEmit? || a.NsAdd? || a.NsSpawn? || a.NsSpawned? {
      JobStepDebt(s, a, k);
    } else if a.NsDone? {
      DoneDebt(s, a.i, k);
    } else {
      ContainerStepDebt(s, a, k);
    }
  }

  lemma {:induction false} NsWasOpen(s: State, a: Action)
    requires InPhase(s) && Enabled(s, a) && ChangesNs(a)
    ensures !s.recClosed && NsConsistent(s.namespaces[a.i])
  {
    RunningMeansOpen(s, a.i);
  }

  lemma {:induction false} DoneDebt(s: State, i: nat, k: Kind)
    requires Enabled(s, NsDone(i)) && NsConsistent(s.namespaces[i])
    ensures NsOwes(s.namespaces[i], k) == multiset{}
  {
    EveryoneGone(s.namespaces[i].containers, k);
  }

  lemma {:induction false} ContainerStepDebt(s: State, a: Action, k: Kind)
    requires Enabled(s, a) && (a.Fetch? || a.Send? || a.ContainerDone?) && !s.recClosed && !Next(s, a).crashed
    ensures NsOwes(Next(s, a).namespaces[a.i], k) + ReceiverHolds(Next(s, a).receiver, k)
         == NsOwes(s.namespaces[a.i], k) + ReceiverHolds(s.receiver, k)
  {
    hide NsOwes, Payload;
    var n := s.namespaces[a.i];
    if a.Fetch? {
      ContainerKeepsDebt(n, a.c, Ready(n.containers[a.c].m), n.wgContainers, k);
    } else if a.Send? {
      ContainerPaysDebt(n, a.c, k);
    } else {
      ContainerKeepsDebt(n, a.c, Gone, n.wgContainers - 1, k);
    }
  }

  lemma {:induction false} ContainerKeepsDebt(n: Namespace, c: nat, x: Container, wg: int, k: Kind)
    requires n.Running? && c < |n.containers|
    requires ContainerOwes(x, k) == ContainerOwes(n.containers[c], k)
    ensures NsOwes(Running(n.todo, n.containers[c := x], wg), k) == NsOwes(n, k)
  {
    hide JobsOwe, ContainersOwe, ContainerOwes;
    ContainersChange(n.containers, c, x, k);
    assert ContainersOwe(n.containers[c := x], k) == ContainersOwe(n.containers, k);
  }

  lemma {:induction false} ContainerPaysDebt(n: Namespace, c: nat, k: Kind)
    requires n.Running? && c < |n.containers| && n.containers[c].Ready?
    ensures NsOwes(n, k) == NsOwes(SetContainer(n, c, Sent), k) + Payload(n.containers[c].m, k)
  {
    hide JobsOwe, ContainersOwe, Payload;
    ContainersChange(n.containers, c, Sent, k);
    var before, after := ContainersOwe(n.containers, k), ContainersOwe(n.containers[c := Sent], k);
    assert before == after + Payload(n.containers[c].m, k);
  }

  lemma {:induction false} JobStepDebt(s: State, a: Action, k: Kind)
    requires Enabled(s, a) && (a.NsEmit? || a.NsAdd? || a.NsSpawn? || a.NsSpawned?) && !s.recClosed
    ensures NsOwes(Next(s, a).namespaces[a.i], k) + ReceiverHolds(Next(s, a).receiver, k)
         == NsOwes(s.namespaces[a.i], k) + ReceiverHolds(s.receiver, k)
  {
    hide NsOwes, Payload;
    var n := s.namespaces[a.i];
    if a.NsEmit? {
      EmitPaysDebt(n, k);
    } else if a.NsAdd? {
      AddKeepsDebt(n, k);
    } else if a.NsSpawn? {
      SpawnKeepsDebt(n, k);
    } else {
      SpawnedKeepsDebt(n, k);
    }
  }

  lemma {:induction false} EmitPaysDebt(n: Namespace, k: Kind)
    requires n.Running? && n.todo != [] && n.todo[0].Emit?
    ensures NsOwes(n, k) == NsOwes(n.(todo := n.todo[1..]), k) + Payload(n.todo[0].m, k)
  {
    hide JobsOwe, ContainersOwe, Payload;
    SplitFirstJob(n.todo, k);
  }

  lemma {:induction false} AddKeepsDebt(n: Namespace, k: Kind)
    requires n.Running? && n.todo != [] && n.todo[0].AddAndSpawn?
    ensures var todo' := [Spawning(n.todo[0].ms)] + n.todo[1..];
            NsOwes(n.(todo := todo', wgContainers := n.wgContainers + |n.todo[0].ms|), k) == NsOwes(n, k)
  {
    hide JobsOwe, ContainersOwe, Payloads;
    SplitFirstJob(n.todo, k);
    FirstJob(Spawning(n.todo[0].ms), n.todo[1..], k);
  }

  lemma {:induction false} SpawnKeepsDebt(n: Namespace, k: Kind)
    requires n.Running? && n.todo != [] && n.todo[0].Spawning? && n.todo[0].ms != []
    ensures NsOwes(n.(todo := [Spawning(n.todo[0].ms[1..])] + n.todo[1..],
                      containers := n.containers + [Fetching(n.todo[0].ms[0])]), k)
         == NsOwes(n, k)
  {
    hide JobsOwe, ContainersOwe, Payload;
    var ms := n.todo[0].ms;
    SplitFirstJob(n.todo, k);
    FirstJob(Spawning(ms[1..]), n.todo[1..], k);
    OneMoreContainer(n.containers, Fetching(ms[0]), k);
  }

  lemma {:induction false} SpawnedKeepsDebt(n: Namespace, k: Kind)
    requires n.Running? && n.todo != [] && n.todo[0].Spawning? && n.todo[0].ms == []
    ensures NsOwes(n.(todo := n.todo[1..]), k) == NsOwes(n, k)
  {
    hide JobsOwe, ContainersOwe, Payload;
    SplitFirstJob(n.todo, k);
  }

  lemma {:induction false} StepKeepsEverything(s: State, a: Action, k: Kind)
    requires InPhase(s) && Enabled(s, a)
    ensures Everything(Next(s, a), k) == Everything(s, k)
  {
    hide InPhase, NsOwes, AllOwe, Payload, ReceiverHolds, NsConsistent;
    if ChangesNs(a) {
      NsStepConsistent(s, a);
      NsStepDebt(s, a, k);
      var x := Next(s, a).namespaces[a.i];
      AllOweChange(s.namespaces, a.i, x, k);
      SameCollected(s, a, k);
      Transfer(AllOwe(s.namespaces, k), NsOwes(s.namespaces[a.i], k), NsOwes(x, k),
               ReceiverHolds(s.receiver, k), ReceiverHolds(Next(s, a).receiver, k));
    } else if a.Start? {
      var todo := s.namespaces[s.started].todo;
      AllOweChange(s.namespaces, s.started, Running(todo, [], 0), k);
      StartingOwesTheSame(todo, k);
    } else if a.Handle? {
      HandleCollects(s, k);
      Reassociate(AllOwe(s.namespaces, k), ReceiverHolds(s.receiver, k), Collected(s, k),
                  ReceiverHolds(Next(s, a).receiver, k), Collected(Next(s, a), k));
    } else {
      SameReceiver(s, a, k);
    }
  }

  lemma {:induction false} Transfer(all: multiset<string>, before: multiset<string>, after: multiset<string>,
                                    held: multiset<string>, held': multiset<string>)
    requires before <= all && after + held' == before + held
    ensures (all - before + after) + held' == all + held
  {
    forall x ensures ((all - before + after) + held')[x] == (all + held)[x] {
      assert (after + held')[x] == (before + held)[x];
    }
  }

  lemma {:induction false} Reassociate(a: multiset<string>, b: multiset<string>, c: multiset<string>,
                                       b': multiset<string>, c': multiset<string>)
    requires b' + c' == b + c
    ensures a + b' + c' == a + b + c
  {
    assert a + b' + c' == a + (b' + c');
  }

  lemma {:induction false} SameCollected(s: State, a: Action, k: Kind)
    requires Enabled(s, a) && !a.Handle?
    ensures Collected(Next(s, a), k) == Collected(s, k)
  {}

  lemma {:induction false} StartingOwesTheSame(todo: seq<Job>, k: Kind)
    ensures NsOwes(Running(todo, [], 0), k) == NsOwes(NotStarted(todo), k)
  {}

  lemma {:induction false} SameReceiver(s: State, a: Action, k: Kind)
    requires Enabled(s, a) && !ChangesNs(a) && !a.Start? && !a.Handle?
    ensures Next(s, a).namespaces == s.namespaces
    ensures ReceiverHolds(Next(s, a).receiver, k) == ReceiverHolds(s.receiver, k)
    ensures Collected(Next(s, a), k) == Collected(s, k)
  {}

  lemma {:induction false} HandleCollects(s: State, k: Kind)
    requires Enabled(s, Handle)
    ensures ReceiverHolds(Next(s, Handle).receiver, k) + Collected(Next(s, Handle), k)
         == ReceiverHolds(s.receiver, k) + Collected(s, k)
  {}

  // ---------- progress ----------

  function JobWeight(j: Job): nat
  {
    match j
    case Emit(_) => 2
    case AddAndSpawn(ms) => 2 + 5 * |ms|
    case Spawning(ms) => 1 + 5 * |ms|
  }

  function JobsWeight(jobs: seq<Job>): nat
  {
    if jobs == [] then 0 else JobWeight(jobs[0]) + JobsWeight(jobs[1..])
  }

  function ContainerWeight(c: Container): nat
  {
    match c
    case Fetching(_) => 4
    case Ready(_) => 3
    case Sent => 1
    case Gone => 0
  }

  function ContainersWeight(cs: seq<Container>): nat
  {
    if cs == [] then 0 else ContainersWeight(cs[..|cs| - 1]) + ContainerWeight(cs[|cs| - 1])
  }

  function NsWeight(n: Namespace): nat
  {
    match n
    case NotStarted(todo) => 2 + JobsWeight(todo)
    case Running(todo, containers, _) => 1 + JobsWeight(todo) + ContainersWeight(containers)
    case Finished => 0
  }

  function AllWeight(ns: seq<Namespace>): nat
  {
    if ns == [] then 0 else AllWeight(ns[..|ns| - 1]) + NsWeight(ns[|ns| - 1])
  }

  function MainWeight(m: Main): nat
  {
    match m
    case Starting => 4
    case WaitingSenders => 3
    case Closing => 2
    case WaitingReceiver => 1
    case Returned => 0
  }

  function ReceiverWeight(r: Receiver): nat
  {
    match r
    case Ranging => 1
    case Handling(_) => 2
    case Stopped => 0
  }

  /** The number of steps still to be taken. */
  function Remaining(s: State): nat
  {
    AllWeight(s.namespaces) + MainWeight(s.main) + ReceiverWeight(s.receiver)
  }

  lemma {:induction false} AllWeightChange(ns: seq<Namespace>, i: nat, x: Namespace)
    requires i < |ns|
    ensures AllWeight(ns[i := x]) + NsWeight(ns[i]) == AllWeight(ns) + NsWeight(x)
  {
    hide NsWeight;
    var n := |ns| - 1;
    if i < n {
      AllWeightChange(ns[..n], i, x);
      assert ns[i := x][..n] == ns[..n][i := x];
    } else {
      assert ns[i := x][..n] == ns[..n];
    }
  }

  lemma {:induction false} ContainersWeightChange(cs: seq<Container>, i: nat, x: Container)
    requires i < |cs|
    ensures ContainersWeight(cs[i := x]) + ContainerWeight(cs[i]) == ContainersWeight(cs) + ContainerWeight(x)
  {
    hide ContainerWeight;
    var n := |cs| - 1;
    if i < n {
      ContainersWeightChange(cs[..n], i, x);
      assert cs[i := x][..n] == cs[..n][i := x];
    } else {
      assert cs[i := x][..n] == cs[..n];
    }
  }

  lemma {:induction false} NsStepWeight(s: State, a: Action)
    requires Enabled(s, a) && ChangesNs(a) && !s.recClosed && !Next(s, a).crashed && NsConsistent(s.namespaces[a.i])
    ensures NsWeight(Next(s, a).namespaces[a.i]) + ReceiverWeight(Next(s, a).receiver) + 1
         == NsWeight(s.namespaces[a.i]) + ReceiverWeight(s.receiver)
  {
    hide JobsWeight, ContainersWeight, NotGone, JobsOwe, ContainersOwe, Payloads, Payload;
    var n := s.namespaces[a.i];
    if a.NsDone? {
      EveryoneGone(n.containers, Records);
      NoJobsWeighNothing();
    } else if a.Fetch? || a.Send? || a.ContainerDone? {
      var x := if a.Fetch? then Ready(n.containers[a.c].m) else if a.Send? then Sent else Gone;
      ContainersWeightChange(n.containers, a.c, x);
    } else {
      SplitFirstJob(n.todo, Records);
      if a.NsAdd? {
        FirstJob(Spawning(n.todo[0].ms), n.todo[1..], Records);
      } else if a.NsSpawn? {
        FirstJob(Spawning(n.todo[0].ms[1..]), n.todo[1..], Records);
        OneMoreContainer(n.containers, Fetching(n.todo[0].ms[0]), Records);
      }
    }
  }

  lemma {:induction false} NoJobsWeighNothing()
    ensures JobsWeight([]) == 0
  {}

  lemma {:induction false} StepUsesOne(s: State, a: Action)
    requires InPhase(s) && Enabled(s, a)
    ensures Remaining(Next(s, a)) + 1 == Remaining(s)
  {
    hide InPhase, NsWeight, AllWeight, NsConsistent;
    if ChangesNs(a) {
      NsStepConsistent(s, a);
      NsWasOpen(s, a);
      NsStepWeight(s, a);
      AllWeightChange(s.namespaces, a.i, Next(s, a).namespaces[a.i]);
    } else if a.Start? {
      var todo := s.namespaces[s.started].todo;
      AllWeightChange(s.namespaces, s.started, Running(todo, [], 0));
      StartWeight(todo);
    } else {
      CloseIsFirst(s);
    }
  }

  lemma {:induction false} CloseIsFirst(s: State)
    requires InPhase(s)
    ensures s.main.Closing? ==> !s.recClosed
  {}

  lemma {:induction false} StartWeight(todo: seq<Job>)
    ensures NsWeight(Running(todo, [], 0)) + 1 == NsWeight(NotStarted(todo))
  {}

  /** No deadlock: until gatherContainerLogs has returned, some goroutine can move. */
  lemma {:induction false} Progress(s: State) returns (a: Action)
    requires InPhase(s) && !s.main.Returned?
    ensures Enabled(s, a)
  {
    hide NsConsistent, NoneSpawning, Alive;
    NobodyAlive(s.namespaces);
    if s.receiver.Handling? {
      a := Handle;
    } else if i: nat :| IsRunning(s, i) {
      a := NsProgress(s, i);
    } else {
      forall i | 0 <= i < |s.namespaces| ensures !s.namespaces[i].Running? {
        assert !IsRunning(s, i);
      }
      match s.main
      case Starting => a := if s.started < |s.namespaces| then Start else StopStarting;
      case WaitingSenders => a := SendersDone;
      case Closing => a := Close;
      case WaitingReceiver => a := if s.receiver.Ranging? then Stop else Return;
    }
  }

  lemma {:induction false} NsProgress(s: State, i: nat) returns (a: Action)
    requires InPhase(s) && IsRunning(s, i) && !s.receiver.Handling?
    ensures Enabled(s, a)
  {
    hide Alive, NotGone;
    RunningMeansOpen(s, i);
    var n := s.namespaces[i];
    if n.todo != [] {
      a := if n.todo[0].Emit? then NsEmit(i) else if n.todo[0].AddAndSpawn? then NsAdd(i)
           else if n.todo[0].ms != [] then NsSpawn(i) else NsSpawned(i);
    } else if c: nat :| c < |n.containers| && !n.containers[c].Gone? {
      a := if n.containers[c].Fetching? then Fetch(i, c)
           else if n.containers[c].Ready? then Send(i, c) else ContainerDone(i, c);
    } else {
      EveryoneGone(n.containers, Records);
      assert NsConsistent(n);
      a := NsDone(i);
    }
  }

  // ---------- main results ----------

  lemma {:induction false} RunInPhase(s: State, run: seq<Action>, k: Kind)
    requires InPhase(s) && ValidRun(s, run)
    ensures InPhase(After(s, run))
    ensures Everything(After(s, run), k) == Everything(s, k)
    ensures |run| + Remaining(After(s, run)) == Remaining(s)
    decreases |run|
  {
    hide InPhase, Everything, Remaining;
    if run != [] {
      StepInPhase(s, run[0]);
      StepKeepsEverything(s, run[0], k);
      StepUsesOne(s, run[0]);
      RunInPhase(Next(s, run[0]), run[1..], k);
    }
  }

  lemma {:induction false} NothingProduced(k: Kind)
    ensures Produced([], k) == multiset{}
  {}

  lemma {:induction false} InitOwesEverything(mappings: seq<Mapping>, k: Kind)
    ensures AllOwe(Init(mappings).namespaces, k) == Produced(mappings, k)
  {
    hide Program, JobsOwe, Produced;
    if mappings == [] {
      assert Init(mappings).namespaces == [];
      NothingProduced(k);
    } else {
      var n := |mappings| - 1;
      InitOwesEverything(mappings[..n], k);
      ProgramOwes(mappings, k);
      assert Init(mappings).namespaces[..n] == Init(mappings[..n]).namespaces;
    }
  }

  /**
    In every interleaving no goroutine sends on the closed channel, and when gatherContainerLogs returns,
    the collected records and errors are exactly those that the mappings hold: the errors of a namespace that
    could not be mapped, and for every pod of the others its regex error or what each of its containers gave.
   */
  lemma {:induction false} FanInIsExact(mappings: seq<Mapping>, run: seq<Action>)
    requires ValidRun(Init(mappings), run)
    ensures var s := After(Init(mappings), run);
            && !s.crashed
            && (s.recClosed ==> forall i | 0 <= i < |s.namespaces| :: s.namespaces[i].Finished?)
            && (s.main.Returned? ==> multiset(s.records) == Produced(mappings, Records))
            && (s.main.Returned? ==> multiset(s.errs) == Produced(mappings, Errs))
  {
    hide AllOwe, Alive, NsConsistent, NoneSpawning, Produced;
    var s := After(Init(mappings), run);
    InitInPhase(mappings);
    RunInPhase(Init(mappings), run, Records);
    NobodyAlive(s.namespaces);
    if s.recClosed {
      ClosedHasEverything(mappings, run, Records);
      ClosedHasEverything(mappings, run, Errs);
    }
  }

  lemma {:induction false} ClosedHasEverything(mappings: seq<Mapping>, run: seq<Action>, k: Kind)
    requires ValidRun(Init(mappings), run) && After(Init(mappings), run).recClosed
    ensures var s := After(Init(mappings), run);
            ReceiverHolds(s.receiver, k) + Collected(s, k) == Produced(mappings, k)
  {
    hide AllOwe, Alive, NsConsistent, NoneSpawning, Payload, ReceiverHolds, Produced;
    var s := After(Init(mappings), run);
    InitInPhase(mappings);
    RunInPhase(Init(mappings), run, k);
    NobodyAlive(s.namespaces);
    FinishedOweNothing(s.namespaces, k);
    InitOwesEverything(mappings, k);
    NothingHeldAtFirst(k);
    assert Collected(Init(mappings), k) == multiset{};
    assert Everything(Init(mappings), k) == Produced(mappings, k);
    assert Everything(s, k) == ReceiverHolds(s.receiver, k) + Collected(s, k);
  }

  lemma {:induction false} NothingHeldAtFirst(k: Kind)
    ensures ReceiverHolds(Ranging, k) == multiset{}
  {}

  /**
    Every run ends: it has at most Remaining(Init) steps, and can go on exactly as long as nothing has been
    returned.
   */
  lemma {:induction false} FanInTerminates(mappings: seq<Mapping>, run: seq<Action>)
    requires ValidRun(Init(mappings), run)
    ensures var s := After(Init(mappings), run);
            && |run| <= Remaining(Init(mappings))
            && (s.main.Returned? <==> |run| == Remaining(Init(mappings)))
            && (!s.main.Returned? ==> exists a :: Enabled(s, a))
  {
    hide AllOwe, Alive, NsConsistent, NoneSpawning;
    var s := After(Init(mappings), run);
    InitInPhase(mappings);
    RunInPhase(Init(mappings), run, Records);
    if s.main.Returned? {
      NobodyAlive(s.namespaces);
      FinishedOweNothing(s.namespaces, Records);
    } else {
      var a := Progress(s);
      StepUsesOne(s, a);
    }
  }
}
