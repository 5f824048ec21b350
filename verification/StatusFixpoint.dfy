/** Merges of the cluster operator status, one after another and seen as a whole. */
module StatusFixpoint {
  import opened Options
  import opened Orders
  import opened ControllerStatuses
  import opened StatusSources
  import opened StatusOrder
  import opened StatusConditions
  import opened StatusTargets
  import opened StatusMerge

  // ---------- merging again ----------

  /**
    Merging again with the same inputs changes nothing, whatever the clock says, exactly when the first merge
    did not announce an upgrade: an announced upgrade is taken back by the next merge.
   */
  lemma {:induction false} MergingAgainChangesNothingExactly(
    s0: Status, s1: Status, s2: Status, i: Inputs, env: Env, clock: nat -> Time, clock': nat -> Time)
    requires Merged(s0, s1, i, env, clock) && Merged(s1, s2, i, env, clock')
    ensures s2 == s1 <==> !Upgrades(env, s0.versions)
  {
    hide MergedMap, Lists, Upgrades, RelatedObjects;
    var m1, n1 :| MergedMap(s0.conditions, m1, i, Upgrades(env, s0.versions), clock, n1) && Lists(s1.conditions, m1);
    var m2, n2 :| MergedMap(s1.conditions, m2, i, Upgrades(env, s1.versions), clock', n2) && Lists(s2.conditions, m2);
    NoSecondUpgrade(s0, env, s1.versions);
    MapsAgree(s0.conditions, s1.conditions, m1, m2, i, Upgrades(env, s0.versions), clock, n1, clock', n2);
    if !Upgrades(env, s0.versions) {
      ListIsUnique(s1.conditions, s2.conditions, m1);
    } else if s2 == s1 {
      MergedIsKeyed(s0.conditions, m1, i, Upgrades(env, s0.versions), clock, n1);
      MergedIsKeyed(s1.conditions, m2, i, Upgrades(env, s1.versions), clock', n2);
      SameList(s1.conditions, m1, m2, Progressing);
      assert false;
    }
  }

  /** After at most one announced upgrade, merges with the same inputs change nothing. */
  lemma {:induction false} ThirdMergeIsTheSecond(
    s0: Status, s1: Status, s2: Status, s3: Status, i: Inputs, env: Env,
    clock: nat -> Time, clock': nat -> Time, clock'': nat -> Time)
    requires Merged(s0, s1, i, env, clock) && Merged(s1, s2, i, env, clock') && Merged(s2, s3, i, env, clock'')
    ensures s3 == s2
  {
    assert s1.versions == if env.release == "" then s0.versions else [OperandVersion("operator", env.release)];
    hide Merged, Upgrades;
    NoSecondUpgrade(s0, env, s1.versions);
    MergingAgainChangesNothingExactly(s1, s2, s3, i, env, clock', clock'');
  }

  /**
    With unchanged sources that agree, read again in any order, and no upgrade, the new status equals the
    existing one, so the update is skipped.
   */
  lemma {:induction false} UnchangedSourcesSkipTheUpdate(
    s0: Status, s1: Status, s2: Status, i: Inputs, i': Inputs, env: Env, clock: nat -> Time, clock': nat -> Time,
    readings: seq<Reading>, readings': seq<Reading>)
    requires Agree(readings) && multiset(readings') == multiset(readings)
    requires StatusOf(i.status, readings, i.config) && StatusOf(i'.status, readings', i.config)
    requires i' == i.(status := i'.status)
    requires Merged(s0, s1, i, env, clock) && Merged(s1, s2, i', env, clock')
    requires !Upgrades(env, s0.versions)
    ensures s2 == s1
  {
    hide Merged, Upgrades, StatusOf, Agree;
    OrderIndependentExactly(readings, i.config);
    UseSame(readings, i.config, readings', i.status, i'.status);
    MergingAgainChangesNothingExactly(s0, s1, s2, i, env, clock, clock');
  }

  lemma {:induction false} NoSecondUpgrade(s0: Status, env: Env, versions: seq<OperandVersion>)
    requires versions == if env.release == "" then s0.versions else [OperandVersion("operator", env.release)]
    ensures !Upgrades(env, versions)
  {}

  lemma {:induction false} MergedIsKeyed(
    was: seq<Condition>, m: ConditionsMap, i: Inputs, upgrades: bool, clock: nat -> Time, n: nat)
    requires MergedMap(was, m, i, upgrades, clock, n)
    ensures Keyed(m)
  {}

  lemma {:induction false} DefaultsStay(
    was: seq<Condition>, m: ConditionsMap, i: Inputs, upgrades: bool, clock: nat -> Time, n: nat, t: ConditionType)
    requires MergedMap(was, m, i, upgrades, clock, n) && t in DEFAULT_KINDS
    ensures t in m
  {
    assert !TargetOf(i, t).Remove?;
    hide TargetOf;
    assert MergedCondition(Start(was, t, clock(0)), Get(m, t), t, i, upgrades, clock, n);
  }

  /** What the next merge starts from is what the last one left. */
  lemma {:induction false} StartsWhereItLeft(
    was: seq<Condition>, list: seq<Condition>, m: ConditionsMap, i: Inputs, upgrades: bool, clock: nat -> Time, n: nat,
    t: ConditionType, now: Time)
    requires MergedMap(was, m, i, upgrades, clock, n) && Lists(list, m)
    ensures Start(list, t, now) == Get(m, t)
  {
    hide MergedCondition, Lists, LastOf;
    ListReadsBack(list, m, t);
    assert LastOf(list, t) == Get(m, t);
    if t in DEFAULT_KINDS {
      DefaultsStay(was, m, i, upgrades, clock, n, t);
    }
  }

  lemma {:induction false} SettledCondition(
    was: Option<Condition>, c1: Option<Condition>, c2: Option<Condition>, t: ConditionType, i: Inputs, upgrades: bool,
    clock: nat -> Time, n: nat, clock': nat -> Time, n': nat)
    requires MergedCondition(was, c1, t, i, upgrades, clock, n)
    requires MergedCondition(c1, c2, t, i, false, clock', n')
    ensures c1 == c2 <==> !(t == Progressing && upgrades)
  {
    assert t == Progressing ==> TargetOf(i, t).Set? && TargetOf(i, t).status == False;
    hide TargetOf;
  }

  lemma {:induction false} MapsAgree(
    s0: seq<Condition>, s1: seq<Condition>, m1: ConditionsMap, m2: ConditionsMap, i: Inputs, upgrades: bool,
    clock: nat -> Time, n1: nat, clock': nat -> Time, n2: nat)
    requires MergedMap(s0, m1, i, upgrades, clock, n1) && Lists(s1, m1)
    requires MergedMap(s1, m2, i, false, clock', n2)
    ensures !upgrades ==> m2 == m1
    ensures upgrades ==> Get(m1, Progressing) != Get(m2, Progressing)
  {
    hide Lists;
    forall t: ConditionType ensures Get(m1, t) == Get(m2, t) <==> !(t == Progressing && upgrades) {
      StartsWhereItLeft(s0, s1, m1, i, upgrades, clock, n1, t, clock'(0));
      assert MergedCondition(Start(s0, t, clock(0)), Get(m1, t), t, i, upgrades, clock, n1);
      assert MergedCondition(Start(s1, t, clock'(0)), Get(m2, t), t, i, false, clock', n2);
      hide MergedCondition, MergedMap;
      SettledCondition(Start(s0, t, clock(0)), Get(m1, t), Get(m2, t), t, i, upgrades, clock, n1, clock', n2);
    }
    if !upgrades {
      SameConditions(m1, m2);
    } else {
      var p: ConditionType := Progressing;
      assert Get(m1, p) != Get(m2, p);
    }
  }

  lemma {:induction false} SameConditions(m: ConditionsMap, m': ConditionsMap)
    requires forall t: ConditionType :: Get(m, t) == Get(m', t)
    ensures m' == m
  {
    forall t: ConditionType ensures t in m <==> t in m'
      ensures t in m && t in m' ==> m[t] == m'[t]
    {
      assert Get(m, t) == Get(m', t);
    }
  }

  lemma {:induction false} SameList(list: seq<Condition>, m: ConditionsMap, m': ConditionsMap, t: ConditionType)
    requires Lists(list, m) && Lists(list, m') && Keyed(m) && Keyed(m')
    ensures Get(m, t) == Get(m', t)
  {
    hide LastOf;
    ListReadsBack(list, m, t);
    ListReadsBack(list, m', t);
  }

  // ---------- what every merge leaves ----------

  function ConditionOf(s: Status, t: ConditionType): Option<Condition> { LastOf(s.conditions, t) }

  predicate Is(s: Status, t: ConditionType, status: ConditionStatus)
  {
    ConditionOf(s, t).Some? && ConditionOf(s, t).value.status == status
  }

  /** A merged list is strictly ordered by type; each condition is the table's, in the time the rule says. */
  lemma {:induction false} EveryConditionIsTheTables(
    s0: Status, s1: Status, i: Inputs, env: Env, clock: nat -> Time, t: ConditionType)
    requires Merged(s0, s1, i, env, clock)
    ensures StrictlySorted(TypeLess, s1.conditions)
    ensures t in DEFAULT_KINDS ==> ConditionOf(s1, t).Some?
    ensures exists n :: MergedCondition(Start(s0.conditions, t, clock(0)), ConditionOf(s1, t), t, i,
                                        Upgrades(env, s0.versions), clock, n)
  {
    hide MergedCondition, Upgrades, Start;
    var m, n :| MergedMap(s0.conditions, m, i, Upgrades(env, s0.versions), clock, n) && Lists(s1.conditions, m);
    ListReadsBack(s1.conditions, m, t);
    assert ConditionOf(s1, t) == Get(m, t);
    assert MergedCondition(Start(s0.conditions, t, clock(0)), Get(m, t), t, i, Upgrades(env, s0.versions), clock, n);
    if t in DEFAULT_KINDS {
      DefaultsStay(s0.conditions, m, i, Upgrades(env, s0.versions), clock, n, t);
    }
  }

  /** Degraded, unavailable, and an error of an operator that is not disabled are the same thing. */
  lemma {:induction false} DegradedIsUnavailable(s0: Status, s1: Status, i: Inputs, env: Env, clock: nat -> Time)
    requires Merged(s0, s1, i, env, clock)
    ensures Is(s1, Degraded, True) <==> ErrorStatus in i.status && DisabledStatus !in i.status
    ensures Is(s1, Available, False) <==> ErrorStatus in i.status && DisabledStatus !in i.status
    ensures Is(s1, Degraded, True) || Is(s1, Degraded, False)
    ensures Is(s1, Available, True) || Is(s1, Available, False)
  {
    hide Merged, Upgrades, Start;
    EveryConditionIsTheTables(s0, s1, i, env, clock, Degraded);
    EveryConditionIsTheTables(s0, s1, i, env, clock, Available);
  }

  /** Degraded, in terms of the sources: a degrading failure, while reporting is enabled and gathering not disabled. */
  lemma {:induction false} DegradedByASource(
    s0: Status, s1: Status, i: Inputs, env: Env, clock: nat -> Time, readings: seq<Reading>)
    requires Merged(s0, s1, i, env, clock) && StatusOf(i.status, readings, i.config)
    ensures Is(s1, Degraded, True)
            <==> i.config.reportingEnabled && !GatherDisabled(i.config) && exists r :: r in readings && Degrading(r)
  {
    hide Merged, Is;
    DegradedIsUnavailable(s0, s1, i, env, clock);
    SomeDegrading(readings);
    hide DegradingSaid, Degrading, LastSaid;
    assert Get(i.status, ErrorStatus).Some? <==> DegradingSaid(readings) != [];
    assert Get(i.status, DisabledStatus) == DisabledOf(i.config);
  }

  lemma {:induction false} SomeDegrading(readings: seq<Reading>)
    ensures DegradingSaid(readings) != [] <==> exists r :: r in readings && Degrading(r)
  {
    hide Degrading, Said;
    if readings != [] {
      var n := |readings| - 1;
      SomeDegrading(readings[..n]);
      assert readings == readings[..n] + [readings[n]];
      if Degrading(readings[n]) {
        assert readings[n] in readings;
      }
    }
  }

  /** The two ways of saying that gathering is disabled agree. */
  lemma {:induction false} DisabledIsGatheringDisabled(
    s0: Status, s1: Status, i: Inputs, env: Env, clock: nat -> Time, readings: seq<Reading>)
    requires Merged(s0, s1, i, env, clock) && StatusOf(i.status, readings, i.config)
    ensures Is(s1, Disabled, True) <==> !i.config.reportingEnabled || GatherDisabled(i.config)
    ensures Is(s1, GatheringDisabled, True) <==> Is(s1, Disabled, True)
  {
    hide Merged, Upgrades, Start, ErrorOf, LastSaid, DegradingSaid;
    EveryConditionIsTheTables(s0, s1, i, env, clock, Disabled);
    EveryConditionIsTheTables(s0, s1, i, env, clock, GatheringDisabled);
    assert Get(i.status, DisabledStatus) == DisabledOf(i.config);
  }

  /** A disabled operator is not degraded and raises no alarm; an alarm is either absent or true. */
  lemma {:induction false} DisabledSilencesAlarms(s0: Status, s1: Status, i: Inputs, env: Env, clock: nat -> Time)
    requires Merged(s0, s1, i, env, clock)
    ensures Is(s1, Disabled, True) ==> !Is(s1, Degraded, True)
    ensures Is(s1, Disabled, True) ==>
              ConditionOf(s1, UploadDegraded) == ConditionOf(s1, InsightsDownloadDegraded) == None
    ensures ConditionOf(s1, UploadDegraded) == None || Is(s1, UploadDegraded, True)
    ensures ConditionOf(s1, InsightsDownloadDegraded) == None || Is(s1, InsightsDownloadDegraded, True)
  {
    hide Merged, Upgrades, Start, LastOf;
    EveryConditionIsTheTables(s0, s1, i, env, clock, Disabled);
    DegradedIsUnavailable(s0, s1, i, env, clock);
    EveryConditionIsTheTables(s0, s1, i, env, clock, UploadDegraded);
    EveryConditionIsTheTables(s0, s1, i, env, clock, InsightsDownloadDegraded);
  }

  /** Outside tech preview, the remote configuration is known to be valid or not exactly when it is available. */
  lemma {:induction false} ValidityNeedsAvailability(s0: Status, s1: Status, i: Inputs, env: Env, clock: nat -> Time)
    requires Merged(s0, s1, i, env, clock) && !i.techPreview
    ensures Is(s1, RemoteConfigurationAvailable, True) <==> !Is(s1, RemoteConfigurationValid, Unknown)
    ensures Is(s1, Disabled, True) ==> Is(s1, RemoteConfigurationAvailable, False)
  {
    hide Merged, Upgrades, Start, LastOf;
    EveryConditionIsTheTables(s0, s1, i, env, clock, Disabled);
    EveryConditionIsTheTables(s0, s1, i, env, clock, RemoteConfigurationAvailable);
    EveryConditionIsTheTables(s0, s1, i, env, clock, RemoteConfigurationValid);
  }

  /** Without an announced upgrade a transition time moves only with its status. */
  lemma {:induction false} TimesMoveWithStatus(
    s0: Status, s1: Status, i: Inputs, env: Env, clock: nat -> Time, t: ConditionType)
    requires Merged(s0, s1, i, env, clock) && (t == Progressing ==> !Upgrades(env, s0.versions))
    requires ConditionOf(s0, t).Some? && ConditionOf(s1, t).Some?
    ensures var was, now := ConditionOf(s0, t).value, ConditionOf(s1, t).value;
            if now.status == was.status then now.lastTransitionTime == was.lastTransitionTime
            else exists k: nat :: now.lastTransitionTime == clock(k)
  {
    hide Merged, Upgrades, TargetOf, LastOf;
    EveryConditionIsTheTables(s0, s1, i, env, clock, t);
  }
}
