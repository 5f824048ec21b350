/**
  pkg/gatherers/workloads/gather_workloads_info.go: workloadInfo, the paged loop over all pods.

  The hash of namespace names is a parameter.
 */
module Workloads {
  import opened Options
  import opened PodShapes

  const PODS_LIMIT := 8000

  // ---------- the listing ----------

  /** What the API answers, request by request: the last page, a page to continue from, or an error. */
  datatype Listing = LastPage(items: seq<Pod>) | Page(items: seq<Pod>, next: Listing) | Failure

  function Pods(listing: Listing): seq<Pod>
  {
    match listing
    case LastPage(items) => items
    case Page(items, next) => items + Pods(next)
    case Failure => []
  }

  predicate Fails(listing: Listing)
  {
    match listing
    case LastPage(_) => false
    case Page(_, next) => Fails(next)
    case Failure => true
  }

  // ---------- runs of namespaces ----------

  datatype Run = Run(namespace: Namespace, pods: seq<Pod>)

  function Switched(runs: seq<Run>, ns: Namespace): (r: seq<Run>)
    ensures r != [] && r[|r| - 1].namespace == ns
  {
    if runs == [] || runs[|runs| - 1].namespace != ns then runs + [Run(ns, [])] else runs
  }

  function Added(runs: seq<Run>, pod: Pod): seq<Run>
    requires runs != []
  {
    var last := runs[|runs| - 1];
    runs[..|runs| - 1] + [Run(last.namespace, last.pods + [pod])]
  }

  /** The pods cut where the namespace changes. */
  function Runs(pods: seq<Pod>): seq<Run>
  {
    if pods == [] then []
    else
      var last := pods[|pods| - 1];
      Added(Switched(Runs(pods[..|pods| - 1]), last.namespace), last)
  }

  function Flat(runs: seq<Run>): seq<Pod>
  {
    if runs == [] then [] else Flat(runs[..|runs| - 1]) + runs[|runs| - 1].pods
  }

  predicate OfOneNamespace(run: Run) { run.pods != [] && forall p | p in run.pods :: p.namespace == run.namespace }

  /** Each run is of one namespace, and the next one of another. */
  ghost predicate Alternate(runs: seq<Run>)
  {
    && (forall k | 0 <= k < |runs| :: OfOneNamespace(runs[k]))
    && (forall j, k | 0 <= j < k < |runs| && k == j + 1 :: runs[j].namespace != runs[k].namespace)
  }

  /** The runs are the pods in their order, cut exactly where the namespace changes. */
  lemma {:induction false} RunsCutThePods(pods: seq<Pod>)
    ensures Flat(Runs(pods)) == pods && Alternate(Runs(pods))
  {
    hide *;
    if pods == [] {
      NothingCut();
    } else {
      var init, last := pods[..|pods| - 1], pods[|pods| - 1];
      RunsCutThePods(init);
      assert pods == init + [last];
      RunsMore(init, last);
      CutsOneMore(Runs(init), last);
    }
  }

  lemma {:induction false} NothingCut()
    ensures Flat(Runs([])) == [] && Alternate(Runs([]))
  {}

  lemma {:induction false} CutsOneMore(runs: seq<Run>, pod: Pod)
    requires Alternate(runs)
    ensures var runs' := Added(Switched(runs, pod.namespace), pod);
            Flat(runs') == Flat(runs) + [pod] && Alternate(runs')
  {
    hide Flat, Alternate, OfOneNamespace;
    var ns, n := pod.namespace, |runs| - 1;
    if runs == [] || runs[n].namespace != ns {
      var one := Run(ns, [pod]);
      NewRun(runs, pod);
      LastRunAdded(runs, one);
    } else {
      var longer := Run(ns, runs[n].pods + [pod]);
      assert runs == runs[..n] + [runs[n]];
      LastRunTaken(runs);
      LongerRun(runs[n], pod);
      LastRunAdded(runs[..n], longer);
      LastRunAdded(runs[..n], runs[n]);
    }
  }

  lemma {:induction false} NewRun(runs: seq<Run>, pod: Pod)
    requires runs == [] || runs[|runs| - 1].namespace != pod.namespace
    ensures Added(Switched(runs, pod.namespace), pod) == runs + [Run(pod.namespace, [pod])]
    ensures OfOneNamespace(Run(pod.namespace, [pod]))
  {
    assert Switched(runs, pod.namespace)[..|runs|] == runs;
    assert Run(pod.namespace, []).pods + [pod] == [pod];
  }

  lemma {:induction false} LongerRun(run: Run, pod: Pod)
    requires OfOneNamespace(run) && pod.namespace == run.namespace
    ensures OfOneNamespace(Run(run.namespace, run.pods + [pod]))
  {}

  lemma {:induction false} LastRunAdded(runs: seq<Run>, run: Run)
    requires Alternate(runs) && OfOneNamespace(run)
    requires runs != [] ==> runs[|runs| - 1].namespace != run.namespace
    ensures Flat(runs + [run]) == Flat(runs) + run.pods && Alternate(runs + [run])
  {
    assert (runs + [run])[..|runs|] == runs;
    hide Flat, OfOneNamespace;
  }

  lemma {:induction false} LastRunTaken(runs: seq<Run>)
    requires Alternate(runs) && runs != []
    ensures var n := |runs| - 1;
            && Alternate(runs[..n])
            && (n > 0 ==> runs[n - 1].namespace != runs[n].namespace)
            && OfOneNamespace(runs[n])
  {
    hide OfOneNamespace;
  }

  /** The runs that are reported: those of the first 8000 pods, and that of the pod at which the limit is noticed. */
  function ReportedRuns(pods: seq<Pod>): seq<Run>
  {
    if |pods| <= PODS_LIMIT then Runs(pods) else Switched(Runs(pods[..PODS_LIMIT]), pods[PODS_LIMIT].namespace)
  }

  type Hash = string -> string

  predicate IsLast(runs: seq<Run>, k: nat, hash: Hash)
    requires k < |runs|
  {
    forall j | k < j < |runs| :: hash(runs[j].namespace) != hash(runs[k].namespace)
  }

  /** Each hash has the tally of the last run of that hash: a later run replaces an earlier one. */
  ghost predicate Reports(m: map<string, NamespacePods>, runs: seq<Run>, hash: Hash)
  {
    && (forall h | h in m :: exists k :: 0 <= k < |runs| && hash(runs[k].namespace) == h)
    && (forall k | 0 <= k < |runs| :: hash(runs[k].namespace) in m)
    && (forall k | 0 <= k < |runs| && IsLast(runs, k, hash) :: Tallies(m[hash(runs[k].namespace)], runs[k].pods))
  }

  function Total(runs: seq<Run>): nat
  {
    if runs == [] then 0 else Total(runs[..|runs| - 1]) + |runs[|runs| - 1].pods|
  }

  // ---------- the loop ----------

  datatype WorkloadPods = WorkloadPods(podCount: nat, namespaces: map<string, NamespacePods>)

  /** The running state of the loop. */
  datatype State = State(info: WorkloadPods, namespace: string, namespaceHash: string, namespacePods: NamespacePods)

  const START := State(WorkloadPods(0, map[]), "", "", NO_PODS)

  /** The state after the given runs, of which the last is still open. */
  ghost predicate Running(s: State, runs: seq<Run>, hash: Hash)
  {
    if runs == [] then s.namespace == "" && s.namespacePods == NO_PODS && s.info == WorkloadPods(0, map[])
    else
      var n := |runs| - 1;
      && s.namespace == runs[n].namespace && s.namespaceHash == hash(s.namespace)
      && Tallies(s.namespacePods, runs[n].pods)
      && Reports(s.info.namespaces, runs[..n], hash) && s.info.podCount == Total(runs[..n])
  }

  /** The open namespace is added to the report. */
  function Closed(s: State): WorkloadPods
  {
    if |s.namespace| == 0 then s.info
    else WorkloadPods(s.info.podCount + s.namespacePods.count, s.info.namespaces[s.namespaceHash := s.namespacePods])
  }

  method EnterNamespace(s: State, pod: Pod, hash: Hash, ghost runs: seq<Run>) returns (s': State)
    requires Running(s, runs, hash)
    ensures Running(s', Switched(runs, pod.namespace), hash)
  {
    hide Running, Closed, Switched;
    NamespaceSwitch(s, runs, hash, pod.namespace);
    s' := s;
    if pod.namespace != s.namespace {
      s' := State(Closed(s), pod.namespace, hash(pod.namespace), NO_PODS);
    }
  }

  /** The loop over the pods of one page: takes all of them, or stops at the pod that is over the limit. */
  method TakePage(items: seq<Pod>, s: State, hash: Hash, images: seq<string>, ghost done: seq<Pod>)
    returns (s': State, limitReached: bool, images': seq<string>, ghost taken: nat)
    requires Running(s, Runs(done), hash) && |done| <= PODS_LIMIT && Sent(images, done)
    ensures taken <= |items| && (limitReached <==> taken < |items|)
    ensures Sent(images', done + items[..taken])
    ensures limitReached ==> |done| + taken == PODS_LIMIT
                             && Running(s', Switched(Runs(done + items[..taken]), items[taken].namespace), hash)
    ensures !limitReached ==> |done| + taken <= PODS_LIMIT && Running(s', Runs(done + items), hash)
  {
    hide Running, Closed, Switched, Runs, Added, Tallies, Sent, KindOf, ImagesOf;
    s', images' := s, images;
    assert done + items[..0] == done;
    for i := 0 to |items|
      invariant Running(s', Runs(done + items[..i]), hash)
      invariant |done| + i <= PODS_LIMIT && Sent(images', done + items[..i])
    {
      var pod := items[i];
      ghost var seen := done + items[..i];
      ghost var runs := Switched(Runs(seen), pod.namespace);
      // a pod of another namespace closes the open one
      s' := EnterNamespace(s', pod, hash, Runs(seen));
      CountSoFar(s', runs, hash, seen, pod.namespace);
      if s'.info.podCount >= PODS_LIMIT || s'.info.podCount + s'.namespacePods.count >= PODS_LIMIT {
        return s', true, images', i;
      }
      LastTally(s', runs, hash);
      var tally, isNew := TallyPod(s'.namespacePods, pod, runs[|runs| - 1].pods);
      ghost var before := images';
      if isNew {
        ShapedPod(pod);
        images' := SendImages(images', pod.shape.value);
      }
      OpenRunSeen(seen, pod.namespace);
      FirstPodSends(before, images', seen, pod, s'.namespacePods, runs[|runs| - 1].pods, isNew);
      PodAdded(s', tally, runs, hash, pod);
      s' := s'.(namespacePods := tally);
      RunsMore(seen, pod);
      assert done + items[..i + 1] == seen + [pod];
    }
    assert items[..|items|] == items;
    return s', false, images', |items|;
  }

  method WorkloadInfo(listing: Listing, hash: Hash)
    returns (limitReached: bool, info: WorkloadPods, images: seq<string>, err: bool)
    ensures err <==> Fails(listing) && |Pods(listing)| <= 8000
    ensures err ==> !limitReached && info == WorkloadPods(0, map[])
    ensures !err ==> (limitReached <==> |Pods(listing)| > 8000)
    ensures !err ==> info.podCount == if limitReached then 8000 else |Pods(listing)|
    ensures !err ==> Reports(info.namespaces, ReportedRuns(Pods(listing)), hash)
    ensures !err ==> Sent(images, if limitReached then Pods(listing)[..8000] else Pods(listing))
  {
    hide Running, Closed, Switched, Runs, Added, Tallies, Pods, Fails, ReportedRuns, Reports, Sent;
    var s := START;
    images := [];
    limitReached := false;
    var rest := listing;
    ghost var pods := Pods(listing);
    ghost var done: seq<Pod> := [];
    ghost var runs := Runs(done);
    NothingRun(hash);
    while true
      invariant pods == done + Pods(rest) && Fails(rest) == Fails(listing)
      invariant Running(s, Runs(done), hash) && |done| <= PODS_LIMIT
      invariant !limitReached && Sent(images, done)
      decreases rest
    {
      NextPage(done, rest);
      if rest.Failure? {
        return false, WorkloadPods(0, map[]), images, true;
      }
      ghost var taken;
      s, limitReached, images, taken := TakePage(rest.items, s, hash, images, done);
      runs := if limitReached then Switched(Runs(done + rest.items[..taken]), rest.items[taken].namespace)
              else Runs(done + rest.items);
      assert rest.items[..|rest.items|] == rest.items;
      if limitReached {
        PageStopped(pods, done, rest, taken);
        break;
      }
      if rest.LastPage? {
        assert pods == done + rest.items;
        WholeList(pods);
        break;
      }
      done := done + rest.items;
      rest := rest.next;
    }
    // the open namespace is reported as well
    LastRun(s, runs, hash);
    CountAll(runs, pods);
    return limitReached, Closed(s), images, false;
  }

  // ---------- the loop's steps ----------

  lemma {:induction false} NothingRun(hash: Hash)
    ensures Running(START, Runs([]), hash) && Sent([], [])
  {}

  lemma {:induction false} NextPage(done: seq<Pod>, rest: Listing)
    ensures rest.Failure? ==> done + Pods(rest) == done && Fails(rest)
    ensures rest.LastPage? ==> done + Pods(rest) == done + rest.items && !Fails(rest)
    ensures rest.Page? ==> done + Pods(rest) == done + rest.items + Pods(rest.next) && Fails(rest) == Fails(rest.next)
  {}

  /** Closing the open run: its tally takes the place of an earlier one of the same hash. */
  lemma {:induction false} RunClosed(m: map<string, NamespacePods>, runs: seq<Run>, np: NamespacePods, hash: Hash)
    requires runs != []
    requires var n := |runs| - 1; Reports(m, runs[..n], hash) && Tallies(np, runs[n].pods)
    ensures Reports(m[hash(runs[|runs| - 1].namespace) := np], runs, hash)
  {
    hide Tallies, IsLast;
    var n := |runs| - 1;
    var h := hash(runs[n].namespace);
    var m' := m[h := np];
    forall x | x in m' ensures exists k :: 0 <= k < |runs| && hash(runs[k].namespace) == x {
      if x == h {
        assert hash(runs[n].namespace) == x;
      } else {
        var k := ReportedAt(m, runs[..n], hash, x);
        assert hash(runs[k].namespace) == x;
      }
    }
    forall k | 0 <= k < |runs|
      ensures hash(runs[k].namespace) in m'
      ensures IsLast(runs, k, hash) ==> Tallies(m'[hash(runs[k].namespace)], runs[k].pods)
    {
      if k < n {
        ReportedRun(m, runs[..n], hash, k);
        if IsLast(runs, k, hash) {
          StillLast(runs, k, hash);
        }
      }
    }
  }

  lemma {:induction false} ReportedAt(
    m: map<string, NamespacePods>, runs: seq<Run>, hash: Hash, x: string) returns (k: nat)
    requires Reports(m, runs, hash) && x in m
    ensures k < |runs| && hash(runs[k].namespace) == x
  {
    hide Tallies, IsLast;
    k :| 0 <= k < |runs| && hash(runs[k].namespace) == x;
  }

  lemma {:induction false} ReportedRun(m: map<string, NamespacePods>, runs: seq<Run>, hash: Hash, k: nat)
    requires Reports(m, runs, hash) && k < |runs|
    ensures hash(runs[k].namespace) in m
    ensures IsLast(runs, k, hash) ==> Tallies(m[hash(runs[k].namespace)], runs[k].pods)
  {
    hide Tallies, IsLast;
  }

  lemma {:induction false} StillLast(runs: seq<Run>, k: nat, hash: Hash)
    requires k < |runs| - 1 && IsLast(runs, k, hash)
    ensures IsLast(runs[..|runs| - 1], k, hash)
    ensures hash(runs[|runs| - 1].namespace) != hash(runs[k].namespace)
  {}

  lemma {:induction false} NoReports(hash: Hash)
    ensures Reports(map[], [], hash) && Total([]) == 0
  {}

  lemma {:induction false} NoTally()
    ensures Tallies(NO_PODS, [])
  {}

  lemma {:induction false} NamespaceSwitch(s: State, runs: seq<Run>, hash: Hash, next: Namespace)
    requires Running(s, runs, hash)
    ensures next == s.namespace ==> Switched(runs, next) == runs
    ensures next != s.namespace ==> Running(State(Closed(s), next, hash(next), NO_PODS), Switched(runs, next), hash)
  {
    hide Tallies, Reports;
    if next != s.namespace {
      NoTally();
      assert Switched(runs, next)[..|runs|] == runs;
      LastRun(s, runs, hash);
    }
  }

  lemma {:induction false} TallyCount(np: NamespacePods, pods: seq<Pod>)
    requires Tallies(np, pods)
    ensures np.count == |pods|
  {}

  lemma {:induction false} NothingTotal()
    ensures Total(Runs([])) == 0
  {}

  lemma {:induction false} TotalAll(pods: seq<Pod>)
    ensures Total(Runs(pods)) == |pods|
  {
    hide Added, Runs, Total, Switched;
    if pods == [] {
      NothingTotal();
    } else {
      var last, init := pods[|pods| - 1], pods[..|pods| - 1];
      TotalAll(init);
      TotalSwitched(Runs(init), last.namespace);
      TotalAdded(Switched(Runs(init), last.namespace), last);
      assert pods == init + [last];
      RunsMore(init, last);
    }
  }

  lemma {:induction false} TotalSwitched(runs: seq<Run>, ns: Namespace)
    ensures Total(Switched(runs, ns)) == Total(runs)
  {
    assert (runs + [Run(ns, [])])[..|runs|] == runs;
  }

  lemma {:induction false} TotalAdded(runs: seq<Run>, pod: Pod)
    requires runs != []
    ensures Total(Added(runs, pod)) == Total(runs) + 1
  {
    assert Added(runs, pod)[..|runs| - 1] == runs[..|runs| - 1];
  }

  lemma {:induction false} CountSoFar(s: State, runs: seq<Run>, hash: Hash, seen: seq<Pod>, ns: Namespace)
    requires Running(s, runs, hash) && runs == Switched(Runs(seen), ns)
    ensures s.info.podCount + s.namespacePods.count == |seen|
  {
    hide Tallies, Reports, Switched, Runs;
    TotalAll(seen);
    TotalSwitched(Runs(seen), ns);
    TallyCount(s.namespacePods, runs[|runs| - 1].pods);
  }

  /** Stopped within a page: the limit and the pod over it. */
  lemma {:induction false} PageStopped(pods: seq<Pod>, done: seq<Pod>, rest: Listing, taken: nat)
    requires !rest.Failure? && taken < |rest.items| && |done| + taken == PODS_LIMIT && pods == done + Pods(rest)
    ensures |pods| > PODS_LIMIT && pods[..PODS_LIMIT] == done + rest.items[..taken]
    ensures ReportedRuns(pods) == Switched(Runs(done + rest.items[..taken]), rest.items[taken].namespace)
  {
    hide Runs, Switched;
    assert pods[..PODS_LIMIT] == done + rest.items[..taken];
  }

  lemma {:induction false} LastTally(s: State, runs: seq<Run>, hash: Hash)
    requires Running(s, runs, hash) && runs != []
    ensures Tallies(s.namespacePods, runs[|runs| - 1].pods)
  {}

  lemma {:induction false} ShapedPod(pod: Pod)
    requires KindOf(pod).Shaped?
    ensures pod.shape.Some? && KindOf(pod).key == Key(pod.shape.value)
  {}

  /** The pods of the open run have been seen. */
  lemma {:induction false} OpenRunSeen(seen: seq<Pod>, ns: Namespace)
    ensures var runs := Switched(Runs(seen), ns); forall p | p in runs[|runs| - 1].pods :: p in seen
  {
    hide *;
    if seen == [] {
      NothingOpen(ns);
    } else {
      var init, last := seen[..|seen| - 1], seen[|seen| - 1];
      OpenRunSeen(init, last.namespace);
      assert seen == init + [last];
      RunsMore(init, last);
      var runs := Switched(Runs(init), last.namespace);
      OpenRunOneMore(runs, last, ns);
      var pods := runs[|runs| - 1].pods;
      assert forall p | p in pods + [last] :: p in seen;
    }
  }

  lemma {:induction false} NothingOpen(ns: Namespace)
    ensures Switched(Runs([]), ns) == [Run(ns, [])]
  {}

  lemma {:induction false} OpenRunOneMore(runs: seq<Run>, pod: Pod, ns: Namespace)
    requires runs != []
    ensures var runs' := Switched(Added(runs, pod), ns);
            var pods := runs'[|runs'| - 1].pods;
            pods == [] || pods == runs[|runs| - 1].pods + [pod]
  {}

  lemma {:induction false} PodAdded(s: State, tally: NamespacePods, runs: seq<Run>, hash: Hash, pod: Pod)
    requires Running(s, runs, hash) && runs != []
    requires Tallies(tally, runs[|runs| - 1].pods + [pod])
    ensures Running(s.(namespacePods := tally), Added(runs, pod), hash)
  {
    hide Tallies, Reports;
    assert Added(runs, pod)[..|runs| - 1] == runs[..|runs| - 1];
  }

  lemma {:induction false} RunsMore(done: seq<Pod>, pod: Pod)
    ensures Runs(done + [pod]) == Added(Switched(Runs(done), pod.namespace), pod)
  {
    assert (done + [pod])[..|done|] == done;
  }

  lemma {:induction false} LastRun(s: State, runs: seq<Run>, hash: Hash)
    requires Running(s, runs, hash)
    ensures Closed(s).podCount == Total(runs) && Reports(Closed(s).namespaces, runs, hash)
  {
    hide Tallies, Reports;
    if runs == [] {
      NoReports(hash);
    } else {
      RunClosed(s.info.namespaces, runs, s.namespacePods, hash);
      TallyCount(s.namespacePods, runs[|runs| - 1].pods);
    }
  }

  lemma {:induction false} WholeList(pods: seq<Pod>)
    requires |pods| <= PODS_LIMIT
    ensures ReportedRuns(pods) == Runs(pods)
  {}

  lemma {:induction false} CountAll(runs: seq<Run>, pods: seq<Pod>)
    requires runs == ReportedRuns(pods)
    ensures Total(runs) == if |pods| <= PODS_LIMIT then |pods| else PODS_LIMIT
  {
    hide Switched, Runs;
    if |pods| <= PODS_LIMIT {
      TotalAll(pods);
    } else {
      TotalAll(pods[..PODS_LIMIT]);
      TotalSwitched(Runs(pods[..PODS_LIMIT]), pods[PODS_LIMIT].namespace);
    }
  }
}
