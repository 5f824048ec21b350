/** pkg/gatherers/clusterconfig/gather_install_plans.go: Marshal, the selection of the most frequent plans. */
module InstallPlanReport {
  import opened Orders
  import opened InstallPlans

  predicate Greater(a: int, b: int) { a > b }

  predicate MoreFrequent(a: Plan, b: Plan) { a.count > b.count }

  function Counts(plans: seq<Plan>): (r: seq<int>) { seq(|plans|, i requires 0 <= i < |plans| => plans[i].count) }

  /** The count a plan must have: the limit-th largest count when there are more plans than the limit. */
  function CountLimit(cnts: seq<int>, limit: int): int
  {
    if |cnts| > limit && limit > 0 then cnts[limit - 1] else -1
  }

  function Frequent(plans: seq<Plan>, countLimit: int): seq<Plan>
  {
    if plans == [] then []
    else
      var last := plans[|plans| - 1];
      Frequent(plans[..|plans| - 1], countLimit) + if last.count >= countLimit then [last] else []
  }

  function Prefix<T>(s: seq<T>, n: nat): seq<T> { if n < |s| then s[..n] else s }

  function Limit(limit: int): int { if limit == 0 then 100 else limit }

  /** The most that are reported: even under a negative limit the loop takes one plan before it checks. */
  function Most(limit: int): nat { if Limit(limit) < 1 then 1 else Limit(limit) }

  /** The plans the loop takes from the map, visited in the given order. */
  function Selected(order: seq<Plan>, cnts: seq<int>, limit: int): seq<Plan>
  {
    Prefix(Frequent(order, CountLimit(cnts, Limit(limit))), Most(limit))
  }

  datatype Report = Report(totalCount: nat, totalNonUniq: nat, items: seq<Plan>)

  predicate SortedCounts(cnts: seq<int>, plans: seq<Plan>)
  {
    Sorted(Greater, cnts) && multiset(cnts) == multiset(Counts(plans))
  }

  method Marshal(first: seq<Plan>, second: seq<Plan>, total: nat, limit: int)
    returns (report: Report, ghost cnts: seq<int>)
    requires multiset(first) == multiset(second)
    ensures SortedCounts(cnts, first)
    ensures report.totalCount == total && report.totalNonUniq == |first|
    ensures multiset(report.items) == multiset(Selected(second, cnts, limit))
    ensures forall i, j | 0 <= i < j < |report.items| :: report.items[i].count >= report.items[j].count
  {
    hide Sorted, StrictWeakOrder, Frequent, Counts;
    var theLimit := if limit == 0 then 100 else limit;
    CountsOrder();
    var sorted := Sort(Counts(first), Greater);
    cnts := sorted;
    var countLimit := -1;
    if |sorted| > theLimit && theLimit > 0 {
      countLimit := sorted[theLimit - 1];
    }
    var uls := 0;
    var it: seq<Plan> := [];
    NoneFrequent(countLimit);
    for i := 0 to |second|
      invariant it == Frequent(second[..i], countLimit) && uls == |it|
      invariant i > 0 ==> uls < theLimit
    {
      FrequentMore(second[..i], second[i], countLimit);
      assert second[..i + 1] == second[..i] + [second[i]];
      if second[i].count >= countLimit {
        it := it + [second[i]];
        uls := uls + 1;
      }
      if uls >= theLimit {
        FrequentConcat(second[..i + 1], second[i + 1..], countLimit);
        assert second == second[..i + 1] + second[i + 1..];
        break;
      }
    }
    assert second[..|second|] == second;
    assert it == Selected(second, cnts, limit);
    PlansOrder();
    var items := Sort(it, MoreFrequent);
    MostFrequentFirst(items);
    report := Report(total, |first|, items);
  }

  lemma {:induction false} MostFrequentFirst(items: seq<Plan>)
    requires Sorted(MoreFrequent, items)
    ensures forall i, j | 0 <= i < j < |items| :: items[i].count >= items[j].count
  {}

  lemma {:induction false} CountsOrder()
    ensures StrictWeakOrder(Greater)
  {}

  lemma {:induction false} PlansOrder()
    ensures StrictWeakOrder(MoreFrequent)
  {}

  lemma {:induction false} NoneFrequent(countLimit: int)
    ensures Frequent([], countLimit) == []
  {}

  lemma {:induction false} FrequentMore(plans: seq<Plan>, plan: Plan, countLimit: int)
    ensures Frequent(plans + [plan], countLimit)
            == Frequent(plans, countLimit) + if plan.count >= countLimit then [plan] else []
  {
    assert (plans + [plan])[..|plans|] == plans;
  }

  lemma {:induction false} FrequentConcat(a: seq<Plan>, b: seq<Plan>, countLimit: int)
    ensures Frequent(a + b, countLimit) == Frequent(a, countLimit) + Frequent(b, countLimit)
  {
    if b == [] {
      assert a + b == a;
    } else {
      assert (a + b)[..|a + b| - 1] == a + b[..|b| - 1];
      FrequentConcat(a, b[..|b| - 1], countLimit);
    }
  }
}
