/**
  pkg/controller/status/conditions.go: the conditions of the cluster operator by type.

  Every call of setCondition reads the clock; a Conditions object holds the clock and the number of readings
  so far.
 */
module StatusConditions {
  import opened Options
  import opened Orders
  import opened ControllerStatuses
  import opened StatusSources

  // ---------- types of conditions ----------

  datatype Kind = Available | Progressing | Degraded | Disabled | UploadDegraded | InsightsDownloadDegraded
    | ClusterTransferAvailable | SCAAvailable | RemoteConfigurationAvailable | RemoteConfigurationValid
    | GatheringDisabled | Other(name: string)

  function Name(k: Kind): string
  {
    match k
    case Available => "Available"
    case Progressing => "Progressing"
    case Degraded => "Degraded"
    case Disabled => "Disabled"
    case UploadDegraded => "UploadDegraded"
    case InsightsDownloadDegraded => "InsightsDownloadDegraded"
    case ClusterTransferAvailable => "ClusterTransferAvailable"
    case SCAAvailable => "SCAAvailable"
    case RemoteConfigurationAvailable => "RemoteConfigurationAvailable"
    case RemoteConfigurationValid => "RemoteConfigurationValid"
    case GatheringDisabled => "GatheringDisabled"
    case Other(name) => name
  }

  /** A condition type is a string: those the operator sets are spelled as constructors only. */
  type ConditionType = k: Kind | k.Other? ==> forall o: Kind :: !o.Other? ==> Name(o) != k.name witness Available

  lemma {:induction false} NamesAreDistinct(a: ConditionType, b: ConditionType)
    requires Name(a) == Name(b)
    ensures a == b
  {
    if !a.Other? && !b.Other? {
      assert |Name(a)| == |Name(b)|;
      assert Name(a)[0] == Name(b)[0] && Name(a)[1] == Name(b)[1];
    }
  }

  // ---------- conditions ----------

  datatype ConditionStatus = True | False | Unknown

  datatype Condition = Condition(
    kind: ConditionType, status: ConditionStatus, reason: string, message: string, lastTransitionTime: Time)

  type ConditionsMap = map<ConditionType, Condition>

  predicate Keyed(m: ConditionsMap) { forall t | t in m :: m[t].kind == t }

  const DEFAULT_KINDS: set<ConditionType> := {Available, Progressing, Degraded, SCAAvailable,
    ClusterTransferAvailable, RemoteConfigurationAvailable, RemoteConfigurationValid, GatheringDisabled}

  function LastOf(conditions: seq<Condition>, t: ConditionType): Option<Condition>
  {
    if conditions == [] then None
    else
      var last := conditions[|conditions| - 1];
      if last.kind == t then Some(last) else LastOf(conditions[..|conditions| - 1], t)
  }

  /** The condition a merge starts from: the last existing one of the type, or an unknown one by default. */
  function Start(existing: seq<Condition>, t: ConditionType, now: Time): Option<Condition>
  {
    if LastOf(existing, t).Some? then LastOf(existing, t)
    else if t in DEFAULT_KINDS then Some(Condition(t, Unknown, "", "", now)) else None
  }

  predicate TypeLess(a: Condition, b: Condition) { StringLess(Name(a.kind), Name(b.kind)) }

  /** The list has the conditions of the map, each once, ordered by type. */
  ghost predicate Lists(conditions: seq<Condition>, m: ConditionsMap)
  {
    && StrictlySorted(TypeLess, conditions)
    && forall c :: c in conditions <==> Get(m, c.kind) == Some(c)
  }

  // ---------- what happens to a condition ----------

  datatype Target = Keep | Remove | Set(status: ConditionStatus, reason: string, message: string)

  ghost predicate Fresh(clock: nat -> Time, n: nat, t: Time) { exists k: nat :: k < n && clock(k) == t }

  /** The condition after a set: its transition time moves, to a reading of the clock, exactly with its status. */
  ghost predicate Becomes(was: Option<Condition>, c: Condition, target: Target, clock: nat -> Time, n: nat)
    requires target.Set?
  {
    && c.status == target.status && c.reason == target.reason && c.message == target.message
    && if was.Some? && was.value.status == target.status then c.lastTransitionTime == was.value.lastTransitionTime
       else Fresh(clock, n, c.lastTransitionTime)
  }

  ghost predicate Matches(
    was: Option<Condition>, now: Option<Condition>, t: ConditionType, target: Target, clock: nat -> Time, n: nat)
  {
    match target
    case Keep => now == was
    case Remove => now == None
    case Set(_, _, _) => now.Some? && now.value.kind == t && Becomes(was, now.value, target, clock, n)
  }

  class Conditions {
    const clock: nat -> Time
    var readings: nat
    var entryMap: ConditionsMap

    constructor (existing: seq<Condition>, now: Time, clock: nat -> Time, readings: nat)
      ensures this.clock == clock && this.readings == readings
      ensures Keyed(entryMap)
      ensures forall t :: Get(entryMap, t) == Start(existing, t, now)
    {
      hide Start;
      this.clock := clock;
      this.readings := readings;
      var entries: ConditionsMap := map t: ConditionType | t in DEFAULT_KINDS :: Condition(t, Unknown, "", "", now);
      StartEmpty(now);
      for i := 0 to |existing|
        invariant Keyed(entries)
        invariant forall t: ConditionType :: Get(entries, t) == Start(existing[..i], t, now)
      {
        entries := entries[existing[i].kind := existing[i]];
        forall t ensures Get(entries, t) == Start(existing[..i + 1], t, now) {
          StartMore(existing, i, t, now);
        }
      }
      assert existing[..|existing|] == existing;
      entryMap := entries;
    }

    method SetCondition(conditionType: ConditionType, status: ConditionStatus, reason: string, message: string)
      requires Keyed(entryMap)
      modifies this
      ensures Keyed(entryMap) && readings == old(readings) + 1
      ensures entryMap.Keys == old(entryMap).Keys + {conditionType}
      ensures var was := Get(old(entryMap), conditionType);
              var kept := was.Some? && was.value.status == status;
              entryMap[conditionType].lastTransitionTime
              == if kept then was.value.lastTransitionTime else clock(old(readings))
      ensures Becomes(Get(old(entryMap), conditionType), entryMap[conditionType],
                      Set(status, reason, message), clock, readings)
      ensures forall t | t != conditionType :: Get(entryMap, t) == Get(old(entryMap), t)
    {
      var originalCondition := FindCondition(conditionType);
      var transitionTime := clock(readings);
      readings := readings + 1;
      // the transition time moves with the status only
      if originalCondition.Some? && originalCondition.value.status == status {
        transitionTime := originalCondition.value.lastTransitionTime;
      }
      entryMap := entryMap[conditionType := Condition(conditionType, status, reason, message, transitionTime)];
    }

    method RemoveCondition(conditionType: ConditionType)
      requires Keyed(entryMap)
      modifies this`entryMap
      ensures Keyed(entryMap)
      ensures forall t :: Get(entryMap, t) == if t == conditionType then None else Get(old(entryMap), t)
    {
      entryMap := map t | t in entryMap && t != conditionType :: entryMap[t];
    }

    predicate HasCondition(conditionType: ConditionType)
      reads this
    {
      conditionType in entryMap
    }

    function FindCondition(conditionType: ConditionType): Option<Condition>
      reads this
    {
      Get(entryMap, conditionType)
    }

    /** The map is visited in any order; the result does not depend on it. */
    method Entries() returns (res: seq<Condition>)
      requires Keyed(entryMap)
      ensures Lists(res, entryMap)
    {
      hide StringLess, StrictTotalOrder, StrictWeakOrder, Sorted, StrictlySorted;
      res := [];
      var todo := entryMap.Keys;
      while todo != {}
        invariant todo <= entryMap.Keys
        invariant forall c :: c in res <==> c.kind !in todo && Get(entryMap, c.kind) == Some(c)
        invariant OfDistinctTypes(res)
        decreases |todo|
      {
        var k :| k in todo;
        todo := todo - {k};
        res := res + [entryMap[k]];
      }
      TypeOrder();
      var ordered := Sort(res, TypeLess);
      SortedStrictly(res, ordered);
      assert forall c :: c in ordered <==> c in multiset(ordered);
      assert forall c :: c in res <==> c in multiset(res);
      res := ordered;
    }
  }

  lemma {:induction false} StartEmpty(now: Time)
    ensures forall t :: Start([], t, now) ==
              if t in DEFAULT_KINDS then Some(Condition(t, Unknown, "", "", now)) else None
  {}

  lemma {:induction false} StartMore(existing: seq<Condition>, i: nat, t: ConditionType, now: Time)
    requires i < |existing|
    ensures Start(existing[..i + 1], t, now)
            == if t == existing[i].kind then Some(existing[i]) else Start(existing[..i], t, now)
  {
    var s := existing[..i + 1];
    assert s[..|s| - 1] == existing[..i] && s[|s| - 1] == existing[i];
  }

  lemma {:induction false} TypeOrder()
    ensures StrictWeakOrder(TypeLess)
  {
    hide StringLess;
    StringOrder();
    TotalIsWeak(StringLess);
  }

  ghost predicate OfDistinctTypes(s: seq<Condition>) { forall i, j | 0 <= i < j < |s| :: s[i].kind != s[j].kind }

  lemma {:induction false} CountOfType(s: seq<Condition>, c: Condition)
    requires OfDistinctTypes(s)
    ensures multiset(s)[c] <= 1
  {
    if s != [] {
      var n := |s| - 1;
      var init := s[..n];
      CountOfType(init, c);
      assert s == init + [s[n]];
      assert multiset(s)[c] == multiset(init)[c] + if s[n] == c then 1 else 0;
      if s[n] == c {
        assert c !in init;
      }
    }
  }

  /** Sorting conditions of distinct types leaves no two of the same name. */
  lemma {:induction false} SortedStrictly(s: seq<Condition>, ordered: seq<Condition>)
    requires OfDistinctTypes(s) && multiset(ordered) == multiset(s) && Sorted(TypeLess, ordered)
    ensures StrictlySorted(TypeLess, ordered)
  {
    hide StringLess, Name;
    forall i, j | 0 <= i < j < |ordered| ensures TypeLess(ordered[i], ordered[j]) {
      var a, b := ordered[i], ordered[j];
      assert !TypeLess(b, a);
      StringTrichotomy(Name(a.kind), Name(b.kind));
      if Name(a.kind) == Name(b.kind) {
        NamesAreDistinct(a.kind, b.kind);
        TypedOnce(s, a, b);
        CountOfType(s, a);
        CountsTwice(ordered, i, j);
        assert false;
      }
    }
  }

  lemma {:induction false} TypedOnce(s: seq<Condition>, a: Condition, b: Condition)
    requires OfDistinctTypes(s) && a in multiset(s) && b in multiset(s) && a.kind == b.kind
    ensures a == b
  {
    assert a in s && b in s;
  }

  // ---------- lists of conditions ----------

  /** The list of a map's conditions is unique. */
  lemma {:induction false} ListIsUnique(a: seq<Condition>, b: seq<Condition>, m: ConditionsMap)
    requires Lists(a, m) && Lists(b, m)
    ensures a == b
  {
    hide StringLess, Name;
    assert a != [] ==> a[0] in b;
    assert b != [] ==> b[0] in a;
    if a != [] && b != [] {
      HeadIsLeast(a, b[0]);
      HeadIsLeast(b, a[0]);
      StringTrichotomy(Name(a[0].kind), Name(b[0].kind));
      ListTail(a, m);
      ListTail(b, m);
      ListIsUnique(a[1..], b[1..], map t | t in m && t != a[0].kind :: m[t]);
    }
  }

  lemma {:induction false} HeadIsLeast(a: seq<Condition>, c: Condition)
    requires StrictlySorted(TypeLess, a) && c in a
    ensures c == a[0] || TypeLess(a[0], c)
  {
    hide TypeLess;
  }

  lemma {:induction false} ListTail(a: seq<Condition>, m: ConditionsMap)
    requires Lists(a, m) && a != []
    ensures Lists(a[1..], map t | t in m && t != a[0].kind :: m[t])
  {
    hide StringLess, Name;
    var rest: ConditionsMap := map t | t in m && t != a[0].kind :: m[t];
    forall c ensures c in a[1..] <==> Get(rest, c.kind) == Some(c) {
      if c in a[1..] {
        assert c in a;
        assert TypeLess(a[0], c);
        StringTrichotomy(Name(a[0].kind), Name(c.kind));
      }
      if Get(rest, c.kind) == Some(c) {
        assert c in a;
      }
    }
  }

  /** Reading a list back gives the map it was made from. */
  lemma {:induction false} ListReadsBack(a: seq<Condition>, m: ConditionsMap, t: ConditionType)
    requires Lists(a, m)
    ensures LastOf(a, t) == Get(m, t) || (t in m && m[t].kind != t)
  {
    hide LastOf;
    if LastOf(a, t).Some? {
      LastOfIsIn(a, t);
    } else if t in m && m[t].kind == t {
      assert m[t] in a;
      NoneOfType(a, t, m[t]);
    }
  }

  /** Of several conditions of a type the last one counts. */
  lemma {:induction false} LastOneCounts(a: seq<Condition>, t: ConditionType, k: nat)
    requires k < |a| && a[k].kind == t && forall j | k < j < |a| :: a[j].kind != t
    ensures LastOf(a, t) == Some(a[k])
  {
    if k < |a| - 1 {
      LastOneCounts(a[..|a| - 1], t, k);
    }
  }

  lemma {:induction false} LastOfIsIn(a: seq<Condition>, t: ConditionType)
    requires LastOf(a, t).Some?
    ensures LastOf(a, t).value in a && LastOf(a, t).value.kind == t
  {
    if a[|a| - 1].kind != t {
      LastOfIsIn(a[..|a| - 1], t);
    }
  }

  lemma {:induction false} NoneOfType(a: seq<Condition>, t: ConditionType, c: Condition)
    requires LastOf(a, t) == None && c in a
    ensures c.kind != t
  {
    hide LastOf;
    var init, last := a[..|a| - 1], a[|a| - 1];
    NoneBefore(a, t);
    if c != last {
      InFront(a, c);
      NoneOfType(init, t, c);
    }
  }

  lemma {:induction false} NoneBefore(a: seq<Condition>, t: ConditionType)
    requires LastOf(a, t) == None && a != []
    ensures LastOf(a[..|a| - 1], t) == None && a[|a| - 1].kind != t
  {}

  lemma {:induction false} InFront<T>(a: seq<T>, c: T)
    requires c in a && c != a[|a| - 1]
    ensures c in a[..|a| - 1]
  {
    assert a == a[..|a| - 1] + [a[|a| - 1]];
  }
}
