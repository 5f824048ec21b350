/**
  pkg/controller/status/controller.go: merge, checkVersionChanges and the update of the cluster operator.

  Version strings are parsed by a function that is a parameter; the clock is a function from readings to times.
 */
module StatusMerge {
  import opened Options
  import opened Orders
  import opened ControllerStatuses
  import opened StatusSources
  import opened StatusConditions
  import opened StatusTargets
  import opened StatusUpdates

  // ---------- versions ----------

  /** A semantic version: the build metadata does not take part in comparisons. */
  datatype Version = Version(major: nat, minor: nat, patch: nat, pre: seq<string>)

  type Parser = string -> Option<Version>

  datatype OperandVersion = OperandVersion(name: string, version: string)

  predicate AllParse(parse: Parser, versions: seq<OperandVersion>)
  {
    forall i | 0 <= i < |versions| :: parse(versions[i].version).Some?
  }

  predicate OtherVersion(parse: Parser, release: string, v: OperandVersion)
  {
    parse(release) != parse(v.version)
  }

  predicate OtherMajorOrMinor(parse: Parser, release: string, v: OperandVersion)
  {
    var a, b := parse(release), parse(v.version);
    a.Some? && b.Some? && (a.value.major != b.value.major || a.value.minor != b.value.minor)
  }

  method CheckVersionChanges(parse: Parser, newVersion: string, versions: seq<OperandVersion>)
    returns (versionChanged: bool, majorMinorVersionChanged: bool, err: bool)
    ensures err <==> parse(newVersion).None? || exists i :: 0 <= i < |versions| && parse(versions[i].version).None?
    ensures versionChanged
            <==> !err && exists i :: 0 <= i < |versions| && parse(versions[i].version) != parse(newVersion)
    ensures majorMinorVersionChanged
            <==> !err && exists i ::
                   0 <= i < |versions|
                   && var listed, release := parse(versions[i].version).value, parse(newVersion).value;
                      (listed.major, listed.minor) != (release.major, release.minor)
  {
    var newVersionParsed := parse(newVersion);
    if newVersionParsed.None? {
      return false, false, true;
    }
    if |versions| == 0 {
      return false, false, false;
    }
    versionChanged, majorMinorVersionChanged := false, false;
    for i := 0 to |versions|
      invariant AllParse(parse, versions[..i])
      invariant versionChanged <==> exists k :: 0 <= k < i && OtherVersion(parse, newVersion, versions[k])
      invariant majorMinorVersionChanged <==>
                exists k :: 0 <= k < i && OtherMajorOrMinor(parse, newVersion, versions[k])
    {
      var covParsed := parse(versions[i].version);
      if covParsed.None? {
        return false, false, true;
      }
      if newVersionParsed.value.major != covParsed.value.major ||
          newVersionParsed.value.minor != covParsed.value.minor {
        majorMinorVersionChanged := true;
      }
      if newVersionParsed.value != covParsed.value {
        versionChanged := true;
      }
    }
    assert versions[..|versions|] == versions;
    return versionChanged, majorMinorVersionChanged, false;
  }

  // ---------- the cluster operator's status ----------

  datatype ObjectReference = ObjectReference(group: string, resource: string, namespace: string, name: string)

  function RelatedObjects(namespace: string): seq<ObjectReference>
  {
    [ ObjectReference("", "namespaces", "", namespace),
      ObjectReference("apps", "deployments", namespace, "insights-operator"),
      ObjectReference("", "secrets", "openshift-config", "pull-secret"),
      ObjectReference("", "secrets", "openshift-config", "support"),
      ObjectReference("", "serviceaccounts", namespace, "gather"),
      ObjectReference("", "serviceaccounts", namespace, "operator"),
      ObjectReference("", "services", namespace, "metrics"),
      ObjectReference("", "configmaps", namespace, "service-ca-bundle"),
      ObjectReference("operator.openshift.io", "insightsoperators", "", "cluster"),
      ObjectReference("rbac.authorization.k8s.io", "clusterroles", "", "insights-operator"),
      ObjectReference("rbac.authorization.k8s.io", "clusterroles", "", "insights-operator-gather"),
      ObjectReference("rbac.authorization.k8s.io", "clusterroles", "", "insights-runtime-extractor-role") ]
  }

  datatype Status = Status(
    conditions: seq<Condition>, versions: seq<OperandVersion>, relatedObjects: seq<ObjectReference>,
    lastReport: Option<Time>)

  const NO_STATUS := Status([], [], [], None)

  function Existing(clusterOperator: Option<Status>): Status
  {
    if clusterOperator.None? then NO_STATUS else clusterOperator.value
  }

  /** What does not change between merges: the environment, the namespace, and the last report. */
  datatype Env = Env(release: string, parse: Parser, namespace: string, lastReport: Time)

  /** The merge announces an upgrade: the release differs in major or minor version from a version listed so far. */
  ghost predicate Upgrades(env: Env, versions: seq<OperandVersion>)
  {
    && env.release != "" && env.parse(env.release).Some? && AllParse(env.parse, versions)
    && exists i :: 0 <= i < |versions| && OtherMajorOrMinor(env.parse, env.release, versions[i])
  }

  /** The merge announces any change of version to the runtime extractor. */
  ghost predicate ChangesImages(env: Env, versions: seq<OperandVersion>)
  {
    && env.release != "" && env.parse(env.release).Some? && AllParse(env.parse, versions)
    && exists i :: 0 <= i < |versions| && OtherVersion(env.parse, env.release, versions[i])
  }

  const UPGRADING := Set(True, "Openshift Upgrade", "Cluster version is updated")

  ghost predicate MergedCondition(
    was: Option<Condition>, now: Option<Condition>, t: ConditionType, i: Inputs, upgrades: bool, clock: nat -> Time,
    n: nat)
  {
    if t == Progressing && upgrades
    then now.Some? && now.value.kind == t && Becomes(None, now.value, UPGRADING, clock, n)
    else Matches(was, now, t, TargetOf(i, t), clock, n)
  }

  ghost predicate MergedMap(
    was: seq<Condition>, m: ConditionsMap, i: Inputs, upgrades: bool, clock: nat -> Time, n: nat)
  {
    && Keyed(m)
    && forall t: ConditionType :: MergedCondition(Start(was, t, clock(0)), Get(m, t), t, i, upgrades, clock, n)
  }

  /** The merged conditions, type by type, and the rest of the status. */
  ghost predicate Merged(was: Status, now: Status, i: Inputs, env: Env, clock: nat -> Time)
  {
    && (exists m, n ::
          MergedMap(was.conditions, m, i, Upgrades(env, was.versions), clock, n) && Lists(now.conditions, m))
    && now.versions == (if env.release == "" then was.versions else [OperandVersion("operator", env.release)])
    && now.relatedObjects == (if env.namespace == "" then was.relatedObjects else RelatedObjects(env.namespace))
    && now.lastReport == Some(env.lastReport)
  }

  const INITIALIZING_FOR: Time := 3 * 60 * 1_000_000_000

  function StartTime(start: Time, clock: nat -> Time): Time { if start == ZERO_TIME then clock(1) else start }

  /** Not all sources are ready, and the controller started less than three minutes ago. */
  predicate IsInitializing(readings: seq<Reading>, start: Time, clock: nat -> Time)
  {
    !AllReady(readings) && clock(0) - StartTime(start, clock) < INITIALIZING_FOR
  }

  class Controller {
    const isTechPreview: bool
    const ctrlStatus: ControllerStatus
    var start: Time

    constructor (isTechPreview: bool)
      ensures this.isTechPreview == isTechPreview && start == ZERO_TIME && fresh(ctrlStatus)
    {
      this.isTechPreview := isTechPreview;
      ctrlStatus := new ControllerStatus();
      start := ZERO_TIME;
    }

    /** The clock is read once first, once for the start time, and then by the conditions. */
    method Merge(
      clusterOperator: Option<Status>, readings: seq<Reading>, sca: Option<Reading>, transfer: Option<Reading>,
      config: Config, env: Env, clock: nat -> Time) returns (updated: Status, updateImages: bool)
      modifies this, ctrlStatus
      ensures StatusOf(ctrlStatus.statusMap, readings, config)
      ensures Merged(Existing(clusterOperator), updated,
                     Inputs(ctrlStatus.statusMap, config, isTechPreview,
                            IsInitializing(readings, old(start), clock), sca, transfer),
                     env, clock)
      ensures updated.versions
           == if env.release == "" then Existing(clusterOperator).versions
              else [OperandVersion("operator", env.release)]
      ensures updated.relatedObjects
           == if env.namespace == "" then Existing(clusterOperator).relatedObjects
              else RelatedObjects(env.namespace)
      ensures updated.lastReport == Some(env.lastReport)
      ensures updateImages <==> ChangesImages(env, Existing(clusterOperator).versions)
      ensures start == if old(start) == ZERO_TIME && !AllReady(readings) then clock(1) else old(start)
    {
      hide *;
      hide StatusOf;
      var was := Existing(clusterOperator);
      ctrlStatus.Reset();
      var allReady := CurrentControllerStatus(ctrlStatus, readings, config);
      var now := clock(0);
      var isInitializing := false;
      if !allReady {
        if start == ZERO_TIME {
          start := clock(1);
        }
        isInitializing := now - start < INITIALIZING_FOR;
      }
      InitializingExactly(readings, old(start), clock);
      var i := Inputs(ctrlStatus.statusMap, config, isTechPreview, isInitializing, sca, transfer);

      var cs := new Conditions(was.conditions, now, clock, 2);
      ghost var m0, n0 := cs.entryMap, cs.readings;
      UpdateControllerConditions(cs, i);
      ghost var m1, n1 := cs.entryMap, cs.readings;
      UpdateControllerConditionsByStatus(cs, i);
      ghost var m2, n2 := cs.entryMap, cs.readings;
      Then(m0, m1, m2, i, CONTROLLER_KINDS, STATUS_KINDS, clock, n1, n2);

      var versions;
      versions, updateImages := UpdateVersions(cs, env, was.versions);
      ghost var upgrades := Upgrades(env, was.versions);
      EveryTypeMerged(was.conditions, m0, m2, cs.entryMap, i, upgrades, clock, n2, cs.readings);
      var conditions := cs.Entries();
      var relatedObjects := was.relatedObjects;
      if |env.namespace| > 0 {
        relatedObjects := RelatedObjects(env.namespace);
      }
      updated := Status(conditions, versions, relatedObjects, Some(env.lastReport));
      IsMerged(was, updated, i, env, clock, cs.readings, cs.entryMap);
    }
  }

  /** The versions of the merged status, and whether the images are to be updated. */
  method UpdateVersions(cs: Conditions, env: Env, listed: seq<OperandVersion>)
    returns (versions: seq<OperandVersion>, updateImages: bool)
    requires Keyed(cs.entryMap)
    modifies cs
    ensures versions == if env.release == "" then listed else [OperandVersion("operator", env.release)]
    ensures updateImages <==> ChangesImages(env, listed)
    ensures Keyed(cs.entryMap) && cs.readings >= old(cs.readings)
    ensures if Upgrades(env, listed) then Announced(old(cs.entryMap), cs.entryMap, cs.clock, cs.readings)
            else cs.entryMap == old(cs.entryMap)
  {
    hide *;
    versions := listed;
    var setProgressing := false;
    updateImages := false;
    if |env.release| > 0 {
      var err;
      updateImages, setProgressing, err := CheckVersionChanges(env.parse, env.release, listed);
      versions := [OperandVersion("operator", env.release)];
      if setProgressing {
        AnnounceUpgrade(cs);
      }
    }
    VersionsAnswer(env, listed, updateImages, setProgressing);
  }

  method AnnounceUpgrade(cs: Conditions)
    requires Keyed(cs.entryMap)
    modifies cs
    ensures Keyed(cs.entryMap) && cs.readings >= old(cs.readings)
    ensures Announced(old(cs.entryMap), cs.entryMap, cs.clock, cs.readings)
  {
    cs.SetCondition(Progressing, True, "Openshift Upgrade", "Cluster version is updated");
  }

  ghost predicate Announced(m: ConditionsMap, m': ConditionsMap, clock: nat -> Time, n: nat)
  {
    && Progressing in m'
    && Becomes(Get(m, Progressing), m'[Progressing], UPGRADING, clock, n)
    && forall t | t != Progressing :: Get(m', t) == Get(m, t)
  }

  lemma {:induction false} InitializingExactly(readings: seq<Reading>, start: Time, clock: nat -> Time)
    ensures IsInitializing(readings, start, clock) <==>
            !AllReady(readings) && clock(0) - (if start == ZERO_TIME then clock(1) else start) < INITIALIZING_FOR
  {}

  lemma {:induction false} VersionsAnswer(
    env: Env, versions: seq<OperandVersion>, versionChanged: bool, setProgressing: bool)
    requires versionChanged ==> env.release != ""
    requires setProgressing ==> env.release != ""
    requires env.release != "" ==>
               var err := env.parse(env.release).None?
                          || exists i :: 0 <= i < |versions| && env.parse(versions[i].version).None?;
               && (versionChanged <==>
                     !err && exists i ::
                       0 <= i < |versions| && env.parse(versions[i].version) != env.parse(env.release))
               && (setProgressing <==>
                     !err && exists i ::
                       0 <= i < |versions|
                       && var listed, release := env.parse(versions[i].version).value, env.parse(env.release).value;
                          (listed.major, listed.minor) != (release.major, release.minor))
    ensures versionChanged == ChangesImages(env, versions)
    ensures setProgressing == Upgrades(env, versions)
  {}

  lemma {:induction false} IsMerged(
    was: Status, updated: Status, i: Inputs, env: Env, clock: nat -> Time, n: nat, m: ConditionsMap)
    requires MergedMap(was.conditions, m, i, Upgrades(env, was.versions), clock, n) && Lists(updated.conditions, m)
    requires updated.versions == if env.release == "" then was.versions else [OperandVersion("operator", env.release)]
    requires updated.relatedObjects == if env.namespace == "" then was.relatedObjects else RelatedObjects(env.namespace)
    requires updated.lastReport == Some(env.lastReport)
    ensures Merged(was, updated, i, env, clock)
  {
    hide MergedMap, Lists, RelatedObjects, Upgrades;
  }

  lemma {:induction false} EveryTypeMerged(
    was: seq<Condition>, m0: ConditionsMap, m2: ConditionsMap, m3: ConditionsMap, i: Inputs, upgrades: bool,
    clock: nat -> Time, n2: nat, n3: nat)
    requires forall t :: Get(m0, t) == Start(was, t, clock(0))
    requires Applies(m0, m2, i, CONTROLLER_KINDS + STATUS_KINDS, clock, n2) && n2 <= n3 && Keyed(m3)
    requires !upgrades ==> m3 == m2
    requires upgrades ==> Announced(m2, m3, clock, n3)
    ensures MergedMap(was, m3, i, upgrades, clock, n3)
  {
    hide Start, TargetOf, Becomes, Matches;
    forall t: ConditionType
      ensures MergedCondition(Start(was, t, clock(0)), Get(m3, t), t, i, upgrades, clock, n3)
    {
      OnlyOthersKept(i, t);
      assert Matches(Get(m0, t), Get(m2, t), t, TargetOf(i, t), clock, n2);
      OneTypeMerged(Get(m0, t), Get(m2, t), Get(m3, t), t, i, upgrades, clock, n2, n3);
    }
  }

  lemma {:induction false} OnlyOthersKept(i: Inputs, t: ConditionType)
    ensures t in CONTROLLER_KINDS + STATUS_KINDS || TargetOf(i, t) == Keep
  {}

  lemma {:induction false} OneTypeMerged(
    c0: Option<Condition>, c2: Option<Condition>, c3: Option<Condition>, t: ConditionType, i: Inputs, upgrades: bool,
    clock: nat -> Time, n2: nat, n3: nat)
    requires Matches(c0, c2, t, TargetOf(i, t), clock, n2) && n2 <= n3
    requires t == Progressing && upgrades ==>
               c3.Some? && c3.value.kind == t && Becomes(c2, c3.value, UPGRADING, clock, n3)
    requires !(t == Progressing && upgrades) ==> c3 == c2
    ensures MergedCondition(c0, c3, t, i, upgrades, clock, n3)
  {
    assert t == Progressing ==> TargetOf(i, t).Set? && TargetOf(i, t).status == False;
    hide TargetOf;
  }
}
