/** pkg/gatherers/clusterconfig: what the report of install plans holds in every order of visiting the map. */
module InstallPlanTop {
  import opened Orders
  import opened InstallPlans
  import opened InstallPlanReport

  // ---------- size and counts ----------

  /**
    In every order the report has as many plans as the limit allows, all of them collected plans, each with at
    least the limit-th largest count.
   */
  lemma {:induction false} ReportIsFullAndFrequent(plans: seq<Plan>, order: seq<Plan>, cnts: seq<int>, limit: int)
    requires SortedCounts(cnts, plans) && multiset(order) == multiset(plans)
    ensures var sel, n := Selected(order, cnts, limit), if limit == 0 then 100 else limit;
            var most := if n < 0 then 1 else n;
            && |sel| == (if |plans| < most then |plans| else most)
            && multiset(sel) <= multiset(plans)
            && |cnts| == |plans|
            && (|cnts| > n > 0 ==> forall p | p in sel :: p.count >= cnts[n - 1])
  {
    hide Frequent, Counts, SortedCounts;
    var n, c := Limit(limit), CountLimit(cnts, Limit(limit));
    CountsLength(plans, cnts);
    SameSize(order, plans);
    ManyFrequent(plans, order, cnts, c);
    AreFrequent(order, c);
    FrequentAreSome(order, c);
    PrefixOfSome(Frequent(order, c), Most(limit));
    if |plans| > n > 0 {
      FirstAtLeast(plans, cnts, n);
    } else {
      AllFrequent(order, c);
    }
  }

  // ---------- the most frequent ----------

  /** No plan that is left out is more frequent than one that is selected. */
  ghost predicate IsTop(sel: seq<Plan>, plans: seq<Plan>)
  {
    forall p, q | p in sel && q in multiset(plans) - multiset(sel) :: q.count <= p.count
  }

  ghost predicate TopInEveryOrder(plans: seq<Plan>, cnts: seq<int>, limit: int)
  {
    forall order | multiset(order) == multiset(plans) :: IsTop(Selected(order, cnts, limit), plans)
  }

  /** All plans fit, or the limit falls between two counts, or all counts up to the limit are equal. */
  predicate ClearCut(cnts: seq<int>, n: nat)
    requires n > 0
  {
    |cnts| <= n || cnts[n - 1] > cnts[n] || cnts[0] == cnts[n - 1]
  }

  /** The most frequent plans are reported in every order exactly when the limit makes a clear cut. */
  lemma {:induction false} MostFrequentExactly(plans: seq<Plan>, cnts: seq<int>, limit: nat)
    requires SortedCounts(cnts, plans)
    ensures TopInEveryOrder(plans, cnts, limit) <==> ClearCut(cnts, Limit(limit))
  {
    hide Selected, SortedCounts, IsTop;
    if ClearCut(cnts, Limit(limit)) {
      forall order | multiset(order) == multiset(plans) ensures IsTop(Selected(order, cnts, limit), plans) {
        ClearCutIsTop(plans, order, cnts, limit);
      }
    } else {
      var order := BadOrder(plans, cnts, limit);
    }
  }

  /** In particular when no two plans are equally frequent. */
  lemma {:induction false} DistinctCountsAreTop(plans: seq<Plan>, cnts: seq<int>, limit: nat)
    requires SortedCounts(cnts, plans) && forall i, j | 0 <= i < j < |cnts| :: cnts[i] != cnts[j]
    ensures TopInEveryOrder(plans, cnts, limit)
  {
    MostFrequentExactly(plans, cnts, limit);
    hide TopInEveryOrder;
    var n := Limit(limit);
    assert |cnts| > n ==> !(cnts[n] > cnts[n - 1]) && cnts[n - 1] != cnts[n];
  }

  lemma {:induction false} ClearCutIsTop(plans: seq<Plan>, order: seq<Plan>, cnts: seq<int>, limit: nat)
    requires SortedCounts(cnts, plans) && multiset(order) == multiset(plans) && ClearCut(cnts, Limit(limit))
    ensures IsTop(Selected(order, cnts, limit), plans)
  {
    hide Frequent, Counts, SortedCounts;
    var n, c := Limit(limit), CountLimit(cnts, Limit(limit));
    var frequent, sel := Frequent(order, c), Selected(order, cnts, limit);
    CountsLength(plans, cnts);
    SameSize(order, plans);
    AreFrequent(order, c);
    if |cnts| <= n {
      AllFrequent(order, c);
      assert multiset(plans) - multiset(sel) == multiset{};
    } else if cnts[n - 1] > cnts[n] {
      ManyFrequent(plans, order, cnts, c);
      ExactlyAtLeast(plans, cnts, n);
      assert sel == frequent;
      forall p, q | p in sel && q in multiset(plans) - multiset(sel) ensures q.count <= p.count {
        FrequentCount(order, c, q);
      }
    } else {
      forall p, q | p in sel && q in multiset(plans) - multiset(sel) ensures q.count <= p.count {
        assert q in multiset(plans);
        AtMostFirst(plans, cnts, q);
      }
    }
  }

  /** Visiting a most frequent plan last, and an equally frequent one on each side of the limit early. */
  lemma {:induction false} BadOrder(plans: seq<Plan>, cnts: seq<int>, limit: nat) returns (order: seq<Plan>)
    requires SortedCounts(cnts, plans) && !ClearCut(cnts, Limit(limit))
    ensures multiset(order) == multiset(plans) && !IsTop(Selected(order, cnts, limit), plans)
  {
    hide Frequent;
    var n, c := Limit(limit), CountLimit(cnts, Limit(limit));
    var desc := InCountOrder(plans, cnts);
    var sel := [desc[n]] + desc[1..n];
    var rest := desc[n + 1..] + [desc[0]];
    order := sel + rest;
    assert desc == [desc[0]] + desc[1..n] + [desc[n]] + desc[n + 1..];
    assert multiset(order) == multiset(desc);
    forall p | p in sel ensures p.count >= c {
      SelectedFrequent(desc, cnts, n, p);
    }
    AllFrequent(sel, c);
    FrequentConcat(sel, rest, c);
    assert Selected(order, cnts, limit) == sel;
    hide Selected;
    assert sel[0] == desc[n];
    LeftOut(sel, desc[n + 1..], desc[0], plans);
    DescCounts(desc, cnts, n);
  }

  lemma {:induction false} SelectedFrequent(desc: seq<Plan>, cnts: seq<int>, n: nat, p: Plan)
    requires Counts(desc) == cnts && Sorted(Greater, cnts) && 0 < n < |cnts| && cnts[n - 1] <= cnts[n]
    requires p in [desc[n]] + desc[1..n]
    ensures p.count >= cnts[n - 1]
  {
    if p == desc[n] {
      assert cnts[n] == desc[n].count;
    } else {
      var i :| 1 <= i < n && desc[i] == p;
      assert cnts[i] == p.count;
      assert i < n - 1 ==> !Greater(cnts[n - 1], cnts[i]);
    }
  }

  lemma {:induction false} DescCounts(desc: seq<Plan>, cnts: seq<int>, n: nat)
    requires Counts(desc) == cnts && Sorted(Greater, cnts) && 0 < n < |cnts|
    requires !(cnts[n - 1] > cnts[n]) && cnts[0] != cnts[n - 1]
    ensures desc[0].count > desc[n].count
  {
    assert cnts[0] == desc[0].count && cnts[n] == desc[n].count;
    assert !Greater(cnts[n - 1], cnts[0]) && !Greater(cnts[n], cnts[n - 1]);
  }

  lemma {:induction false} LeftOut(sel: seq<Plan>, others: seq<Plan>, q: Plan, plans: seq<Plan>)
    requires multiset(sel + (others + [q])) == multiset(plans)
    ensures q in multiset(plans) - multiset(sel)
  {
    assert multiset(plans) == multiset(sel) + multiset(others) + multiset([q]);
    assert multiset(plans) - multiset(sel) == multiset(others) + multiset([q]);
  }

  /** The plans in the order of their counts. */
  lemma {:induction false} InCountOrder(plans: seq<Plan>, cnts: seq<int>) returns (desc: seq<Plan>)
    requires multiset(cnts) == multiset(Counts(plans))
    ensures multiset(desc) == multiset(plans) && Counts(desc) == cnts
  {
    hide Counts;
    CountsShape(plans);
    if cnts == [] {
      EmptyCounts(plans);
      desc := [];
    } else {
      var before, after := Around(cnts, Counts(plans));
      var k := |before|;
      var n := |cnts| - 1;
      assert Counts(plans)[k] == cnts[n];
      var rest := plans[..k] + plans[k + 1..];
      CountsShape(rest);
      assert Counts(rest) == before + after;
      var init := InCountOrder(rest, cnts[..n]);
      desc := init + [plans[k]];
      CountsShape(init);
      CountsShape(desc);
      assert plans == plans[..k] + [plans[k]] + plans[k + 1..];
    }
  }

  // ---------- counting ----------

  function NumberAtLeast(s: seq<int>, c: int): nat
  {
    if s == [] then 0 else NumberAtLeast(s[..|s| - 1], c) + if s[|s| - 1] >= c then 1 else 0
  }

  lemma {:induction false} CountsShape(plans: seq<Plan>)
    ensures |Counts(plans)| == |plans|
    ensures forall i | 0 <= i < |plans| :: Counts(plans)[i] == plans[i].count
  {}

  lemma {:induction false} EmptyCounts(plans: seq<Plan>)
    requires multiset([]) == multiset(Counts(plans))
    ensures plans == [] && Counts([]) == []
  {
    assert |multiset(Counts(plans))| == |plans|;
  }

  lemma {:induction false} CountsLength(plans: seq<Plan>, cnts: seq<int>)
    requires SortedCounts(cnts, plans)
    ensures |cnts| == |plans|
  {
    SameSize(cnts, Counts(plans));
  }

  lemma {:induction false} NumberConcat(a: seq<int>, b: seq<int>, c: int)
    ensures NumberAtLeast(a + b, c) == NumberAtLeast(a, c) + NumberAtLeast(b, c)
  {
    if b == [] {
      assert a + b == a;
    } else {
      assert (a + b)[..|a + b| - 1] == a + b[..|b| - 1];
      NumberConcat(a, b[..|b| - 1], c);
    }
  }

  lemma {:induction false} NumberPermute(a: seq<int>, b: seq<int>, c: int)
    requires multiset(a) == multiset(b)
    ensures NumberAtLeast(a, c) == NumberAtLeast(b, c)
  {
    hide NumberAtLeast;
    SameSize(a, b);
    if a != [] {
      var before, after := Around(a, b);
      var x := [a[|a| - 1]];
      NumberPermute(a[..|a| - 1], before + after, c);
      assert a == a[..|a| - 1] + x;
      NumberConcat(a[..|a| - 1], x, c);
      NumberConcat(before + x, after, c);
      NumberConcat(before, x, c);
      NumberConcat(before, after, c);
    } else {
      assert b == [];
    }
  }

  lemma {:induction false} NumberFrequent(plans: seq<Plan>, c: int)
    ensures |Frequent(plans, c)| == NumberAtLeast(Counts(plans), c)
  {
    if plans != [] {
      var init := plans[..|plans| - 1];
      NumberFrequent(init, c);
      assert Counts(plans)[..|plans| - 1] == Counts(init);
    }
  }

  /** In every order as many plans pass as there are counts that pass. */
  lemma {:induction false} ManyFrequent(plans: seq<Plan>, order: seq<Plan>, cnts: seq<int>, c: int)
    requires SortedCounts(cnts, plans) && multiset(order) == multiset(plans)
    ensures |Frequent(order, c)| == NumberAtLeast(cnts, c)
  {
    hide Sorted, Frequent, NumberAtLeast, Counts;
    NumberFrequent(order, c);
    CountsPermute(order, plans);
    NumberPermute(cnts, Counts(order), c);
  }

  lemma {:induction false} CountsConcat(a: seq<Plan>, b: seq<Plan>)
    ensures Counts(a + b) == Counts(a) + Counts(b)
  {}

  lemma {:induction false} CountsPermute(a: seq<Plan>, b: seq<Plan>)
    requires multiset(a) == multiset(b)
    ensures multiset(Counts(a)) == multiset(Counts(b))
  {
    hide Counts;
    SameSize(a, b);
    if a != [] {
      var before, after := Around(a, b);
      var x := [a[|a| - 1]];
      CountsPermute(a[..|a| - 1], before + after);
      assert a == a[..|a| - 1] + x;
      CountsConcat(a[..|a| - 1], x);
      CountsConcat(before + x, after);
      CountsConcat(before, x);
      CountsConcat(before, after);
    } else {
      assert b == [];
    }
  }

  lemma {:induction false} AtLeastAll(s: seq<int>, c: int, k: nat)
    requires k <= |s| && forall i | 0 <= i < k :: s[i] >= c
    ensures NumberAtLeast(s, c) >= k
    ensures (forall i | k <= i < |s| :: s[i] < c) ==> NumberAtLeast(s, c) == k
  {
    if s != [] {
      var n := |s| - 1;
      AtLeastAll(s[..n], c, if k > n then n else k);
    }
  }

  lemma {:induction false} FirstAtLeast(plans: seq<Plan>, cnts: seq<int>, n: nat)
    requires SortedCounts(cnts, plans) && 0 < n < |cnts|
    ensures NumberAtLeast(cnts, cnts[n - 1]) >= n
  {
    assert forall i | 0 <= i < n - 1 :: !Greater(cnts[n - 1], cnts[i]);
    AtLeastAll(cnts, cnts[n - 1], n);
  }

  lemma {:induction false} ExactlyAtLeast(plans: seq<Plan>, cnts: seq<int>, n: nat)
    requires SortedCounts(cnts, plans) && 0 < n < |cnts| && cnts[n - 1] > cnts[n]
    ensures NumberAtLeast(cnts, cnts[n - 1]) == n
  {
    assert forall i | 0 <= i < n - 1 :: !Greater(cnts[n - 1], cnts[i]);
    assert forall i | n < i < |cnts| :: !Greater(cnts[i], cnts[n]);
    AtLeastAll(cnts, cnts[n - 1], n);
  }

  lemma {:induction false} AtMostFirst(plans: seq<Plan>, cnts: seq<int>, q: Plan)
    requires SortedCounts(cnts, plans) && q in plans
    ensures cnts != [] && q.count <= cnts[0]
  {
    var i :| 0 <= i < |plans| && plans[i] == q;
    assert Counts(plans)[i] == q.count;
    assert q.count in multiset(cnts);
    assert q.count in cnts;
    var j :| 0 <= j < |cnts| && cnts[j] == q.count;
    assert j > 0 ==> !Greater(cnts[j], cnts[0]);
  }

  lemma {:induction false} AreFrequent(order: seq<Plan>, c: int)
    ensures forall p | p in Frequent(order, c) :: p.count >= c
  {
    if order != [] {
      AreFrequent(order[..|order| - 1], c);
    }
  }

  lemma {:induction false} AllFrequent(order: seq<Plan>, c: int)
    requires forall p | p in order :: p.count >= c
    ensures Frequent(order, c) == order
  {
    hide Frequent;
    if order == [] {
      NoneFrequent(c);
    } else {
      var init, last := order[..|order| - 1], order[|order| - 1];
      assert order == init + [last];
      assert last in order && forall p | p in init :: p in order;
      AllFrequent(init, c);
      FrequentMore(init, last, c);
    }
  }

  lemma {:induction false} FrequentCount(order: seq<Plan>, c: int, q: Plan)
    ensures multiset(Frequent(order, c))[q] == if q.count >= c then multiset(order)[q] else 0
  {
    if order != [] {
      var init, last := order[..|order| - 1], order[|order| - 1];
      FrequentCount(init, c, q);
      assert order == init + [last];
      FrequentMore(init, last, c);
      hide Frequent;
      assert multiset(order)[q] == multiset(init)[q] + if last == q then 1 else 0;
    }
  }

  lemma {:induction false} FrequentAreSome(order: seq<Plan>, c: int)
    ensures multiset(Frequent(order, c)) <= multiset(order)
  {
    hide Frequent;
    forall q ensures multiset(Frequent(order, c))[q] <= multiset(order)[q] {
      FrequentCount(order, c, q);
    }
  }

  lemma {:induction false} PrefixOfSome<T>(s: seq<T>, n: nat)
    ensures multiset(Prefix(s, n)) <= multiset(s)
  {
    if n < |s| {
      assert s == s[..n] + s[n..];
    }
  }
}
