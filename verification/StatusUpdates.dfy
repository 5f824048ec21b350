/** pkg/controller/status/controller.go: the steps of a merge on the conditions, proved against the table. */
module StatusUpdates {
  import opened Options
  import opened ControllerStatuses
  import opened StatusSources
  import opened StatusConditions
  import opened StatusTargets

  /** setCondition with what the table says. */
  method SetTarget(
    cs: Conditions, i: Inputs, t: ConditionType, status: ConditionStatus, reason: string, message: string)
    requires Keyed(cs.entryMap) && TargetOf(i, t) == Set(status, reason, message)
    modifies cs
    ensures Keyed(cs.entryMap) && cs.readings >= old(cs.readings)
    ensures Applies(old(cs.entryMap), cs.entryMap, i, {t}, cs.clock, cs.readings)
  {
    hide TargetOf, Applies, Becomes;
    ghost var m := cs.entryMap;
    cs.SetCondition(t, status, reason, message);
    SetApplies(m, cs.entryMap, i, t, cs.clock, cs.readings);
  }

  method Remove(cs: Conditions, i: Inputs, t: ConditionType)
    requires Keyed(cs.entryMap) && TargetOf(i, t).Remove?
    modifies cs
    ensures Keyed(cs.entryMap) && cs.readings >= old(cs.readings)
    ensures Applies(old(cs.entryMap), cs.entryMap, i, {t}, cs.clock, cs.readings)
  {
    hide TargetOf, Applies;
    ghost var m := cs.entryMap;
    cs.RemoveCondition(t);
    RemoveApplies(m, cs.entryMap, i, t, cs.clock, cs.readings);
  }

  method HandleAPIDisabledConditions(cs: Conditions, i: Inputs)
    requires Keyed(cs.entryMap)
    modifies cs
    ensures Keyed(cs.entryMap) && cs.readings >= old(cs.readings)
    ensures Applies(old(cs.entryMap), cs.entryMap, i, {GatheringDisabled}, cs.clock, cs.readings)
  {
    hide Applies;
    if i.config.api.Some? && i.config.api.value {
      SetTarget(cs, i, GatheringDisabled, True, DISABLED_BY_CONFIGURATION.reason, DISABLED_BY_CONFIGURATION_MESSAGE);
    } else {
      var ds := StatusFor(i, DisabledStatus);
      if ds.Some? && ds.value.message == REPORTING_DISABLED_MESSAGE {
        SetTarget(cs, i, GatheringDisabled, True, ds.value.reason, DISABLED_WITH_TOKEN);
      } else {
        SetTarget(cs, i, GatheringDisabled, False, AS_EXPECTED, GATHERING_ENABLED);
      }
    }
  }

  const REMOTE_KINDS: set<ConditionType> := {RemoteConfigurationAvailable, RemoteConfigurationValid}

  method HandleRemoteConfigurationConditions(cs: Conditions, i: Inputs)
    requires Keyed(cs.entryMap) && !i.techPreview
    modifies cs
    ensures Keyed(cs.entryMap) && cs.readings >= old(cs.readings)
    ensures Applies(old(cs.entryMap), cs.entryMap, i, REMOTE_KINDS, cs.clock, cs.readings)
  {
    hide Applies;
    ghost var m, n := cs.entryMap, cs.readings;
    var status := StatusFor(i, DisabledStatus);
    var rs := StatusFor(i, RemoteConfigAvailableStatus);
    if status.Some? {
      SetTarget(cs, i, RemoteConfigurationAvailable, False, status.value.reason, status.value.message);
    } else if rs.Some? && rs.value.reason != "Invalid" {
      SetTarget(cs, i, RemoteConfigurationAvailable, False, rs.value.reason, rs.value.message);
    } else {
      SetTarget(cs, i, RemoteConfigurationAvailable, True, SUCCEEDED, "");
    }
    ghost var m', n' := cs.entryMap, cs.readings;
    if status.Some? || (rs.Some? && rs.value.reason != "Invalid") {
      // nothing is known about a configuration that cannot be fetched
      SetTarget(cs, i, RemoteConfigurationValid, Unknown, NOT_VALIDATED_YET, "");
    } else if rs.Some? {
      SetTarget(cs, i, RemoteConfigurationValid, False, rs.value.reason, rs.value.message);
    } else {
      SetTarget(cs, i, RemoteConfigurationValid, True, SUCCEEDED, "");
    }
    Then(m, m', cs.entryMap, i, {RemoteConfigurationAvailable}, {RemoteConfigurationValid}, cs.clock, n', cs.readings);
    assert {RemoteConfigurationAvailable} + {RemoteConfigurationValid} == REMOTE_KINDS;
  }

  method UpdateControllerConditionByReason(
    cs: Conditions, i: Inputs, t: ConditionType, controller: Option<Reading>, reason: string)
    requires Keyed(cs.entryMap) && TargetOf(i, t) == ByReason(controller, reason, i.initializing)
    modifies cs
    ensures Keyed(cs.entryMap) && cs.readings >= old(cs.readings)
    ensures Applies(old(cs.entryMap), cs.entryMap, i, {t}, cs.clock, cs.readings)
  {
    hide Applies, TargetOf;
    if controller.None? || i.initializing || !controller.value.ready {
      KeepApplies(cs.entryMap, i, t, cs.clock, cs.readings);
      return;
    }
    var summary := controller.value.summary;
    if summary.reason == reason {
      SetTarget(cs, i, t, True, summary.reason, summary.message);
    } else {
      SetTarget(cs, i, t, False, summary.reason, summary.message);
    }
  }

  const CONTROLLER_KINDS: set<ConditionType> := {Disabled, Degraded, UploadDegraded, InsightsDownloadDegraded,
    ClusterTransferAvailable, SCAAvailable, RemoteConfigurationAvailable, RemoteConfigurationValid, GatheringDisabled}

  const MAIN_KINDS: set<ConditionType> :=
    {GatheringDisabled, Disabled, Degraded, UploadDegraded, InsightsDownloadDegraded}

  method UpdateControllerConditions(cs: Conditions, i: Inputs)
    requires Keyed(cs.entryMap)
    modifies cs
    ensures Keyed(cs.entryMap) && cs.readings >= old(cs.readings)
    ensures Applies(old(cs.entryMap), cs.entryMap, i, CONTROLLER_KINDS, cs.clock, cs.readings)
  {
    hide Applies, TargetOf, Active, Primed;
    ghost var m0 := cs.entryMap;
    PrimeWhenInitializing(cs, i);
    ghost var m1, n1 := cs.entryMap, cs.readings;
    SetMainConditions(cs, i);
    ghost var m2, n2 := cs.entryMap, cs.readings;
    SetOcmConditions(cs, i);
    ghost var m3, n3 := cs.entryMap, cs.readings;
    if i.techPreview {
      KeepRemote(m3, i, cs.clock, n3);
    } else {
      HandleRemoteConfigurationConditions(cs, i);
    }
    Then(m1, m2, m3, i, MAIN_KINDS, {SCAAvailable, ClusterTransferAvailable}, cs.clock, n2, n3);
    ghost var a := MAIN_KINDS + {SCAAvailable, ClusterTransferAvailable};
    Then(m1, m3, cs.entryMap, i, a, REMOTE_KINDS, cs.clock, n3, cs.readings);
    assert a + REMOTE_KINDS == CONTROLLER_KINDS;
    AbsorbPrimed(m0, m1, cs.entryMap, i, cs.clock, n1, cs.readings);
  }

  method SetMainConditions(cs: Conditions, i: Inputs)
    requires Keyed(cs.entryMap)
    modifies cs
    ensures Keyed(cs.entryMap) && cs.readings >= old(cs.readings)
    ensures Applies(old(cs.entryMap), cs.entryMap, i, MAIN_KINDS, cs.clock, cs.readings)
  {
    hide Applies, TargetOf;
    ghost var m0 := cs.entryMap;
    HandleAPIDisabledConditions(cs, i);
    ghost var m1, n1 := cs.entryMap, cs.readings;
    SetDisabledAndDegraded(cs, i);
    ghost var m2, n2 := cs.entryMap, cs.readings;
    SetAlarms(cs, i);
    ghost var a: set<ConditionType> := {GatheringDisabled} + {Disabled, Degraded};
    Then(m0, m1, m2, i, {GatheringDisabled}, {Disabled, Degraded}, cs.clock, n1, n2);
    Then(m0, m2, cs.entryMap, i, a, {UploadDegraded, InsightsDownloadDegraded}, cs.clock, n2, cs.readings);
    assert a + {UploadDegraded, InsightsDownloadDegraded} == MAIN_KINDS;
  }

  method SetOcmConditions(cs: Conditions, i: Inputs)
    requires Keyed(cs.entryMap)
    modifies cs
    ensures Keyed(cs.entryMap) && cs.readings >= old(cs.readings)
    ensures Applies(old(cs.entryMap), cs.entryMap, i, {SCAAvailable, ClusterTransferAvailable}, cs.clock, cs.readings)
  {
    hide Applies, TargetOf;
    ghost var m0 := cs.entryMap;
    OcmTargets(i);
    UpdateControllerConditionByReason(cs, i, SCAAvailable, i.sca, SCA_AVAILABLE_REASON);
    ghost var m1, n1 := cs.entryMap, cs.readings;
    UpdateControllerConditionByReason(cs, i, ClusterTransferAvailable, i.transfer, TRANSFER_AVAILABLE_REASON);
    Then(m0, m1, cs.entryMap, i, {SCAAvailable}, {ClusterTransferAvailable}, cs.clock, n1, cs.readings);
    assert {SCAAvailable} + {ClusterTransferAvailable} == {SCAAvailable, ClusterTransferAvailable};
  }

  lemma {:induction false} OcmTargets(i: Inputs)
    ensures TargetOf(i, SCAAvailable) == ByReason(i.sca, SCA_AVAILABLE_REASON, i.initializing)
    ensures TargetOf(i, ClusterTransferAvailable) == ByReason(i.transfer, TRANSFER_AVAILABLE_REASON, i.initializing)
  {}

  lemma {:induction false} KeepRemote(m: ConditionsMap, i: Inputs, clock: nat -> Time, n: nat)
    requires i.techPreview
    ensures Applies(m, m, i, REMOTE_KINDS, clock, n)
  {
    assert TargetOf(i, RemoteConfigurationAvailable).Keep? && TargetOf(i, RemoteConfigurationValid).Keep?;
    hide TargetOf;
  }

  /** The conditions left for the main part by the initializing part: at most disabled and degraded are touched. */
  ghost predicate Primed(
    m: ConditionsMap, m': ConditionsMap, i: Inputs, kinds: set<ConditionType>, clock: nat -> Time, n: nat)
  {
    forall t: ConditionType ::
      if t in kinds then Primes(Get(m, t), Get(m', t), t, TargetOf(i, t), clock, n) else Get(m', t) == Get(m, t)
  }

  method PrimeWhenInitializing(cs: Conditions, i: Inputs)
    requires Keyed(cs.entryMap)
    modifies cs
    ensures Keyed(cs.entryMap) && cs.readings >= old(cs.readings)
    ensures Primed(old(cs.entryMap), cs.entryMap, i, {Disabled, Degraded}, cs.clock, cs.readings)
  {
    hide TargetOf;
    if i.initializing {
      var ds := StatusFor(i, DisabledStatus);
      if ds.Some? {
        assert TargetOf(i, Disabled) == Set(True, ds.value.reason, ds.value.message) by { DisabledTarget(i); }
        cs.SetCondition(Disabled, True, ds.value.reason, ds.value.message);
      }
      if !cs.HasCondition(Degraded) {
        cs.SetCondition(Degraded, False, AS_EXPECTED, "");
      }
    }
  }

  lemma {:induction false} DisabledTarget(i: Inputs)
    ensures TargetOf(i, Disabled) == var d := StatusFor(i, DisabledStatus);
                                     if d.Some? then Says(True, d.value) else Set(False, AS_EXPECTED, "")
  {}

  lemma {:induction false} AbsorbPrimed(
    m0: ConditionsMap, m1: ConditionsMap, m2: ConditionsMap, i: Inputs, clock: nat -> Time, n: nat, n': nat)
    requires Primed(m0, m1, i, {Disabled, Degraded}, clock, n) && n <= n'
    requires Applies(m1, m2, i, CONTROLLER_KINDS, clock, n')
    ensures Applies(m0, m2, i, CONTROLLER_KINDS, clock, n')
  {
    assert TargetOf(i, Disabled).Set? && TargetOf(i, Degraded).Set?;
    AbsorbKinds(m0, m1, m2, i, {Disabled, Degraded}, CONTROLLER_KINDS, clock, n, n');
  }

  lemma {:induction false} AbsorbKinds(
    m0: ConditionsMap, m1: ConditionsMap, m2: ConditionsMap, i: Inputs, primed: set<ConditionType>,
    kinds: set<ConditionType>, clock: nat -> Time, n: nat, n': nat)
    requires Primed(m0, m1, i, primed, clock, n) && n <= n' && primed <= kinds
    requires forall t | t in primed :: TargetOf(i, t).Set?
    requires Applies(m1, m2, i, kinds, clock, n')
    ensures Applies(m0, m2, i, kinds, clock, n')
  {
    hide TargetOf, Matches, Primes;
    forall t: ConditionType
      ensures Matches(Get(m0, t), Get(m2, t), t, if t in kinds then TargetOf(i, t) else Keep, clock, n')
    {
      assert Matches(Get(m1, t), Get(m2, t), t, if t in kinds then TargetOf(i, t) else Keep, clock, n');
      if t in primed {
        Absorb(Get(m0, t), Get(m1, t), Get(m2, t), t, TargetOf(i, t), clock, n, n');
      }
    }
  }

  method SetDisabledAndDegraded(cs: Conditions, i: Inputs)
    requires Keyed(cs.entryMap)
    modifies cs
    ensures Keyed(cs.entryMap) && cs.readings >= old(cs.readings)
    ensures Applies(old(cs.entryMap), cs.entryMap, i, {Disabled, Degraded}, cs.clock, cs.readings)
  {
    hide Applies;
    ghost var m := cs.entryMap;
    var ds := StatusFor(i, DisabledStatus);
    if ds.Some? {
      SetTarget(cs, i, Disabled, True, ds.value.reason, ds.value.message);
    } else {
      SetTarget(cs, i, Disabled, False, AS_EXPECTED, "");
    }
    ghost var m', n' := cs.entryMap, cs.readings;
    var es := StatusFor(i, ErrorStatus);
    if es.Some? && ds.None? {
      SetTarget(cs, i, Degraded, True, es.value.reason, es.value.message);
    } else {
      SetTarget(cs, i, Degraded, False, AS_EXPECTED, INSIGHTS_AVAILABLE);
    }
    Then(m, m', cs.entryMap, i, {Disabled}, {Degraded}, cs.clock, n', cs.readings);
    assert {Disabled} + {Degraded} == {Disabled, Degraded};
  }

  method SetAlarms(cs: Conditions, i: Inputs)
    requires Keyed(cs.entryMap)
    modifies cs
    ensures Keyed(cs.entryMap) && cs.readings >= old(cs.readings)
    ensures Applies(old(cs.entryMap), cs.entryMap, i, {UploadDegraded, InsightsDownloadDegraded}, cs.clock, cs.readings)
  {
    hide Applies;
    ghost var m := cs.entryMap;
    var disabled := StatusFor(i, DisabledStatus).Some?;
    var ur := StatusFor(i, UploadStatus);
    if ur.Some? && !disabled {
      SetTarget(cs, i, UploadDegraded, True, ur.value.reason, ur.value.message);
    } else {
      Remove(cs, i, UploadDegraded);
    }
    ghost var m', n' := cs.entryMap, cs.readings;
    var dr := StatusFor(i, DownloadStatus);
    if dr.Some? && !disabled {
      SetTarget(cs, i, InsightsDownloadDegraded, True, dr.value.reason, dr.value.message);
    } else {
      Remove(cs, i, InsightsDownloadDegraded);
    }
    Then(m, m', cs.entryMap, i, {UploadDegraded}, {InsightsDownloadDegraded}, cs.clock, n', cs.readings);
    assert {UploadDegraded} + {InsightsDownloadDegraded} == {UploadDegraded, InsightsDownloadDegraded};
  }

  const STATUS_KINDS: set<ConditionType> := {Progressing, Available}

  method UpdateControllerConditionsByStatus(cs: Conditions, i: Inputs)
    requires Keyed(cs.entryMap)
    modifies cs
    ensures Keyed(cs.entryMap) && cs.readings >= old(cs.readings)
    ensures Applies(old(cs.entryMap), cs.entryMap, i, STATUS_KINDS, cs.clock, cs.readings)
  {
    hide Applies, Primes, Matches;
    ghost var m0 := cs.entryMap;
    if i.initializing {
      if !cs.HasCondition(Progressing) {
        cs.SetCondition(Progressing, True, "Initializing", "Initializing the operator");
      }
    }
    ghost var m1, n1 := cs.entryMap, cs.readings;
    ProgressingPrimed(m0, m1, i, cs.clock, n1);
    var es, ds := StatusFor(i, ErrorStatus), StatusFor(i, DisabledStatus);
    var isHealthy := es.None?;
    ghost var m2, n2 := m1, n1;
    if es.Some? && ds.None? {
      SetTarget(cs, i, Progressing, False, "Degraded", "An error has occurred");
      m2, n2 := cs.entryMap, cs.readings;
      SetTarget(cs, i, Available, False, es.value.reason, es.value.message);
    }
    // disabling clears an error
    if ds.Some? && !isHealthy {
      SetTarget(cs, i, Progressing, False, AS_EXPECTED, MONITORING);
      m2, n2 := cs.entryMap, cs.readings;
      SetTarget(cs, i, Available, True, AS_EXPECTED, INSIGHTS_AVAILABLE);
    }
    if isHealthy {
      SetTarget(cs, i, Progressing, False, AS_EXPECTED, MONITORING);
      m2, n2 := cs.entryMap, cs.readings;
      SetTarget(cs, i, Available, True, AS_EXPECTED, INSIGHTS_AVAILABLE);
    }
    Then(m1, m2, cs.entryMap, i, {Progressing}, {Available}, cs.clock, n2, cs.readings);
    assert {Progressing} + {Available} == STATUS_KINDS;
    AbsorbProgressing(m0, m1, cs.entryMap, i, cs.clock, n1, cs.readings);
  }

  lemma {:induction false} ProgressingPrimed(m: ConditionsMap, m': ConditionsMap, i: Inputs, clock: nat -> Time, n: nat)
    requires m' == m || (Progressing !in m && Progressing in m' && Fresh(clock, n, m'[Progressing].lastTransitionTime)
                         && forall t | t != Progressing :: Get(m', t) == Get(m, t))
    ensures Primed(m, m', i, {Progressing}, clock, n)
  {
    hide TargetOf;
  }

  lemma {:induction false} AbsorbProgressing(
    m0: ConditionsMap, m1: ConditionsMap, m2: ConditionsMap, i: Inputs, clock: nat -> Time, n: nat, n': nat)
    requires Primed(m0, m1, i, {Progressing}, clock, n) && n <= n'
    requires Applies(m1, m2, i, STATUS_KINDS, clock, n')
    ensures Applies(m0, m2, i, STATUS_KINDS, clock, n')
  {
    assert TargetOf(i, Progressing).Set?;
    AbsorbKinds(m0, m1, m2, i, {Progressing}, STATUS_KINDS, clock, n, n');
  }
}
