/** pkg/gatherers/workloads: when the reported pod count is the sum of the reported namespace counts. */
module WorkloadCounts {
  import opened PodShapes
  import opened Sums
  import opened Workloads

  function CountOf(np: NamespacePods): nat { np.count }

  ghost function SumCounts(m: map<string, NamespacePods>): nat { Sum(m, CountOf) }

  /** No two of the runs have the same hash. */
  predicate HashesDistinct(runs: seq<Run>, hash: Hash)
  {
    forall i, j | 0 <= i < j < |runs| :: hash(runs[i].namespace) != hash(runs[j].namespace)
  }

  /**
    The reported pod count is the sum of the reported namespace counts exactly when no namespace is met again
    after another one and no two hashes collide.
   */
  lemma {:induction false} CountIsSumExactly(pods: seq<Pod>, m: map<string, NamespacePods>, hash: Hash)
    requires Reports(m, ReportedRuns(pods), hash)
    ensures SumCounts(m) == (if |pods| <= PODS_LIMIT then |pods| else PODS_LIMIT)
            <==> HashesDistinct(ReportedRuns(pods), hash)
  {
    hide Reports, ReportedRuns, HashesDistinct, Total;
    var runs := ReportedRuns(pods);
    CountAll(runs, pods);
    ReportedShape(pods);
    SumOfRuns(m, runs, hash);
  }

  predicate Contiguous(pods: seq<Pod>)
  {
    forall i, j, k | 0 <= i <= j <= k < |pods| && pods[i].namespace == pods[k].namespace ::
      pods[j].namespace == pods[i].namespace
  }

  /** In particular for pods listed namespace by namespace, with hashes that do not collide. */
  lemma {:induction false} ListedByNamespaceSumUp(pods: seq<Pod>, m: map<string, NamespacePods>, hash: Hash)
    requires Reports(m, ReportedRuns(pods), hash) && Contiguous(pods)
    requires forall i, j | 0 <= i < |pods| && 0 <= j < |pods| && hash(pods[i].namespace) == hash(pods[j].namespace) ::
               pods[i].namespace == pods[j].namespace
    ensures SumCounts(m) == if |pods| <= PODS_LIMIT then |pods| else PODS_LIMIT
  {
    hide Reports, ReportedRuns, Contiguous;
    CountIsSumExactly(pods, m, hash);
    ReportedOnce(pods);
    var runs := ReportedRuns(pods);
    forall i, j | 0 <= i < j < |runs| ensures hash(runs[i].namespace) != hash(runs[j].namespace) {
      assert Occurs(pods, runs[i].namespace) && Occurs(pods, runs[j].namespace);
    }
  }

  // ---------- the sum ----------

  predicate NonEmptyButLast(runs: seq<Run>) { forall k | 0 <= k < |runs| - 1 :: runs[k].pods != [] }

  lemma {:induction false} SumOfRuns(m: map<string, NamespacePods>, runs: seq<Run>, hash: Hash)
    requires Reports(m, runs, hash) && NonEmptyButLast(runs)
    ensures SumCounts(m) <= Total(runs)
    ensures SumCounts(m) == Total(runs) <==> HashesDistinct(runs, hash)
  {
    hide Tallies, Total, Reports;
    if runs == [] {
      NothingReported(m, hash);
    } else {
      var rest := runs[1..];
      var h := hash(runs[0].namespace);
      TotalFront(runs);
      if j :| 1 <= j < |runs| && hash(runs[j].namespace) == h {
        FirstReplaced(m, runs, hash, j);
        SumOfRuns(m, rest, hash);
      } else {
        FirstReported(m, runs, hash);
        SumOfRuns(m - {h}, rest, hash);
        SumWithout(m, CountOf, h);
        DistinctFront(runs, hash);
      }
    }
  }

  lemma {:induction false} DistinctFront(runs: seq<Run>, hash: Hash)
    requires runs != [] && forall j | 1 <= j < |runs| :: hash(runs[j].namespace) != hash(runs[0].namespace)
    ensures HashesDistinct(runs, hash) <==> HashesDistinct(runs[1..], hash)
  {
    var rest := runs[1..];
    if HashesDistinct(rest, hash) {
      forall i, j | 0 <= i < j < |runs| ensures hash(runs[i].namespace) != hash(runs[j].namespace) {
        if i > 0 {
          assert runs[i] == rest[i - 1] && runs[j] == rest[j - 1];
        }
      }
    }
  }

  lemma {:induction false} NothingReported(m: map<string, NamespacePods>, hash: Hash)
    requires Reports(m, [], hash)
    ensures m == map[] && Total([]) == 0
  {
    hide Tallies;
  }

  lemma {:induction false} TotalFront(runs: seq<Run>)
    requires runs != []
    ensures Total(runs) == |runs[0].pods| + Total(runs[1..])
  {
    if |runs| > 1 {
      var n := |runs| - 1;
      TotalFront(runs[..n]);
      assert runs[..n][1..] == runs[1..][..n - 1];
    }
  }

  /** A later run of the same hash has replaced the first run. */
  lemma {:induction false} FirstReplaced(m: map<string, NamespacePods>, runs: seq<Run>, hash: Hash, j: nat)
    requires Reports(m, runs, hash) && NonEmptyButLast(runs)
    requires 1 <= j < |runs| && hash(runs[j].namespace) == hash(runs[0].namespace)
    ensures Reports(m, runs[1..], hash) && runs[0].pods != [] && NonEmptyButLast(runs[1..])
    ensures !HashesDistinct(runs, hash)
  {
    hide Tallies, IsLast;
    var rest := runs[1..];
    forall h | h in m ensures exists k :: 0 <= k < |rest| && hash(rest[k].namespace) == h {
      var k := ReportedAt(m, runs, hash, h);
      assert hash(rest[(if k == 0 then j else k) - 1].namespace) == h;
    }
    RestReported(m, m, runs, hash);
  }

  /** The first run is the only one of its hash. */
  lemma {:induction false} FirstReported(m: map<string, NamespacePods>, runs: seq<Run>, hash: Hash)
    requires Reports(m, runs, hash) && NonEmptyButLast(runs) && runs != []
    requires forall j | 1 <= j < |runs| :: hash(runs[j].namespace) != hash(runs[0].namespace)
    ensures var h := hash(runs[0].namespace);
            h in m && m[h].count == |runs[0].pods| && Reports(m - {h}, runs[1..], hash)
    ensures NonEmptyButLast(runs[1..])
  {
    var h := hash(runs[0].namespace);
    assert IsLast(runs, 0, hash);
    TallyCount(m[h], runs[0].pods);
    hide Tallies;
    var rest := runs[1..];
    forall x | x in m - {h} ensures exists k :: 0 <= k < |rest| && hash(rest[k].namespace) == x {
      var k := ReportedAt(m, runs, hash, x);
      assert hash(rest[k - 1].namespace) == x;
    }
    RestReported(m, m - {h}, runs, hash);
  }

  lemma {:induction false} RestReported(
    m: map<string, NamespacePods>, m': map<string, NamespacePods>, runs: seq<Run>, hash: Hash)
    requires Reports(m, runs, hash) && runs != []
    requires forall k | 1 <= k < |runs| ::
               hash(runs[k].namespace) in m' && m'[hash(runs[k].namespace)] == m[hash(runs[k].namespace)]
    requires forall x | x in m' :: exists k :: 0 <= k < |runs[1..]| && hash(runs[1..][k].namespace) == x
    ensures Reports(m', runs[1..], hash)
  {
    hide Tallies, IsLast;
    var rest := runs[1..];
    forall k | 0 <= k < |rest|
      ensures hash(rest[k].namespace) in m'
      ensures IsLast(rest, k, hash) ==> Tallies(m'[hash(rest[k].namespace)], rest[k].pods)
    {
      assert rest[k] == runs[k + 1];
      ReportedRun(m, runs, hash, k + 1);
      if IsLast(rest, k, hash) {
        LastInRest(runs, k, hash);
      }
    }
  }

  lemma {:induction false} LastInRest(runs: seq<Run>, k: nat, hash: Hash)
    requires k + 1 < |runs| && IsLast(runs[1..], k, hash)
    ensures IsLast(runs, k + 1, hash)
  {
    forall j | k + 1 < j < |runs| ensures hash(runs[j].namespace) != hash(runs[k + 1].namespace) {
      assert runs[j] == runs[1..][j - 1];
    }
  }

  // ---------- the runs of a listing ----------

  ghost predicate Occurs(pods: seq<Pod>, ns: Namespace) { exists i :: 0 <= i < |pods| && pods[i].namespace == ns }

  predicate RunsDistinct(runs: seq<Run>) { forall i, j | 0 <= i < j < |runs| :: runs[i].namespace != runs[j].namespace }

  lemma {:induction false} NoRuns()
    ensures Runs([]) == []
  {}

  /** Runs are not empty, and the last one is that of the last pod. */
  lemma {:induction false} RunsShape(pods: seq<Pod>)
    ensures forall k | 0 <= k < |Runs(pods)| :: Runs(pods)[k].pods != [] && Occurs(pods, Runs(pods)[k].namespace)
    ensures pods != [] ==> Runs(pods) != [] && Runs(pods)[|Runs(pods)| - 1].namespace == pods[|pods| - 1].namespace
    ensures pods == [] ==> Runs(pods) == []
  {
    hide Runs;
    if pods == [] {
      NoRuns();
    } else {
      var init, last := pods[..|pods| - 1], pods[|pods| - 1];
      RunsShape(init);
      assert pods == init + [last];
      RunsMore(init, last);
      var runs := Switched(Runs(init), last.namespace);
      forall k | 0 <= k < |runs| ensures Occurs(pods, runs[k].namespace) {
        if k < |Runs(init)| {
          assert Occurs(init, Runs(init)[k].namespace);
          var i :| 0 <= i < |init| && init[i].namespace == Runs(init)[k].namespace;
          assert pods[i].namespace == runs[k].namespace;
        } else {
          assert pods[|pods| - 1].namespace == runs[k].namespace;
        }
      }
    }
  }

  lemma {:induction false} ReportedShape(pods: seq<Pod>)
    ensures NonEmptyButLast(ReportedRuns(pods))
  {
    hide Runs;
    RunsShape(if |pods| <= PODS_LIMIT then pods else pods[..PODS_LIMIT]);
  }

  lemma {:induction false} SwitchOnce(pods: seq<Pod>, next: Pod)
    requires Contiguous(pods + [next]) && RunsDistinct(Runs(pods))
    ensures RunsDistinct(Switched(Runs(pods), next.namespace))
  {
    hide Runs;
    RunsShape(pods);
    var runs := Runs(pods);
    var all := pods + [next];
    forall k | 0 <= k < |runs| - 1
      ensures runs[k].namespace != next.namespace || Switched(runs, next.namespace) == runs
    {
      assert Occurs(pods, runs[k].namespace);
      var i :| 0 <= i < |pods| && pods[i].namespace == runs[k].namespace;
      var first, last := all[i].namespace, all[|pods| - 1].namespace;
      assert all[|pods|] == next;
      assert first == next.namespace ==> last == first;
    }
  }

  lemma {:induction false} RunsOnce(pods: seq<Pod>)
    requires Contiguous(pods)
    ensures RunsDistinct(Runs(pods))
  {
    hide Runs;
    if pods == [] {
      NoRuns();
    } else {
      var init, last := pods[..|pods| - 1], pods[|pods| - 1];
      assert pods == init + [last];
      RunsOnce(init);
      SwitchOnce(init, last);
      RunsMore(init, last);
    }
  }

  lemma {:induction false} ReportedOnce(pods: seq<Pod>)
    requires Contiguous(pods)
    ensures RunsDistinct(ReportedRuns(pods))
    ensures forall k | 0 <= k < |ReportedRuns(pods)| :: Occurs(pods, ReportedRuns(pods)[k].namespace)
  {
    hide Runs;
    if |pods| <= PODS_LIMIT {
      RunsOnce(pods);
      RunsShape(pods);
    } else {
      var first, next := pods[..PODS_LIMIT], pods[PODS_LIMIT];
      assert first + [next] == pods[..PODS_LIMIT + 1];
      RunsOnce(first);
      RunsShape(first);
      SwitchOnce(first, next);
      var runs := ReportedRuns(pods);
      forall k | 0 <= k < |runs| ensures Occurs(pods, runs[k].namespace) {
        if k < |Runs(first)| {
          assert Occurs(first, Runs(first)[k].namespace);
          var i :| 0 <= i < |first| && first[i].namespace == Runs(first)[k].namespace;
          assert pods[i].namespace == runs[k].namespace;
        } else {
          assert pods[PODS_LIMIT].namespace == runs[k].namespace;
        }
      }
    }
  }
}
