/**
  pkg/controller/status/controller.go: updateControllerConditions and updateControllerConditionsByStatus,
  against one table that says of each condition type what a merge makes of it.
 */
module StatusTargets {
  import opened Options
  import opened ControllerStatuses
  import opened StatusSources
  import opened StatusConditions

  /** What one merge reads: the status map, the configuration, and the summaries of the two OCM sources, if present. */
  datatype Inputs = Inputs(
    status: StatusMap, config: Config, techPreview: bool, initializing: bool, sca: Option<Reading>,
    transfer: Option<Reading>)

  const AS_EXPECTED := "AsExpected"
  const SUCCEEDED := "Succeeded"
  const INSIGHTS_AVAILABLE := "Insights works as expected"
  const MONITORING := "Monitoring the cluster"
  const DISABLED_BY_CONFIGURATION_MESSAGE := "Gathering is disabled in insightsdatagather.config.openshift.io"
  const GATHERING_ENABLED := "Gathering is enabled"
  const DISABLED_WITH_TOKEN := "Gathering is disabled by removing the cloud.openshift.com field from the pull secret"
  const NOT_VALIDATED_YET := "NoValidationYet"
  const SCA_AVAILABLE_REASON := "Updated"
  const TRANSFER_AVAILABLE_REASON := "PullSecretUpdated"

  // ---------- the table ----------

  function StatusFor(i: Inputs, id: StatusID): Option<StatusMessage> { Get(i.status, id) }

  /** A status that counts only while the operator is not disabled. */
  function Active(i: Inputs, id: StatusID): Option<StatusMessage>
  {
    if StatusFor(i, DisabledStatus).Some? then None else StatusFor(i, id)
  }

  function Says(status: ConditionStatus, s: StatusMessage): Target { Set(status, s.reason, s.message) }

  /** A condition that exists only while a failure is reported. */
  function Alarm(s: Option<StatusMessage>): Target { if s.Some? then Says(True, s.value) else Remove }

  function ByReason(source: Option<Reading>, availableReason: string, initializing: bool): Target
  {
    if source.None? || initializing || !source.value.ready then Keep
    else Says(if source.value.summary.reason == availableReason then True else False, Said(source.value))
  }

  /** The two conditions of the remote configuration: available, and valid. */
  function RemoteTargets(i: Inputs): (Target, Target)
  {
    var rs := StatusFor(i, RemoteConfigAvailableStatus);
    var unknown := Set(Unknown, NOT_VALIDATED_YET, "");
    if i.techPreview then (Keep, Keep)
    else if StatusFor(i, DisabledStatus).Some? then (Says(False, i.status[DisabledStatus]), unknown)
    else if rs.None? then (Set(True, SUCCEEDED, ""), Set(True, SUCCEEDED, ""))
    else if rs.value.reason == "Invalid" then (Set(True, SUCCEEDED, ""), Says(False, rs.value))
    else (Says(False, rs.value), unknown)
  }

  function TargetOf(i: Inputs, t: ConditionType): Target
  {
    var error := Active(i, ErrorStatus);
    var disabled := StatusFor(i, DisabledStatus);
    match t
    case Available => if error.Some? then Says(False, error.value) else Set(True, AS_EXPECTED, INSIGHTS_AVAILABLE)
    case Progressing =>
      if error.Some? then Set(False, "Degraded", "An error has occurred") else Set(False, AS_EXPECTED, MONITORING)
    case Degraded => if error.Some? then Says(True, error.value) else Set(False, AS_EXPECTED, INSIGHTS_AVAILABLE)
    case Disabled => if disabled.Some? then Says(True, disabled.value) else Set(False, AS_EXPECTED, "")
    case UploadDegraded => Alarm(Active(i, UploadStatus))
    case InsightsDownloadDegraded => Alarm(Active(i, DownloadStatus))
    case SCAAvailable => ByReason(i.sca, SCA_AVAILABLE_REASON, i.initializing)
    case ClusterTransferAvailable => ByReason(i.transfer, TRANSFER_AVAILABLE_REASON, i.initializing)
    case RemoteConfigurationAvailable => RemoteTargets(i).0
    case RemoteConfigurationValid => RemoteTargets(i).1
    case GatheringDisabled =>
      if GatherDisabled(i.config) then Set(True, DISABLED_BY_CONFIGURATION.reason, DISABLED_BY_CONFIGURATION_MESSAGE)
      else if disabled.Some? && disabled.value.message == REPORTING_DISABLED_MESSAGE
      then Set(True, disabled.value.reason, DISABLED_WITH_TOKEN)
      else Set(False, AS_EXPECTED, GATHERING_ENABLED)
    case Other(_) => Keep
  }

  /** The conditions of the given types are as the table says, all others are untouched. */
  ghost predicate Applies(
    m: ConditionsMap, m': ConditionsMap, i: Inputs, kinds: set<ConditionType>, clock: nat -> Time, n: nat)
  {
    forall t: ConditionType :: Matches(Get(m, t), Get(m', t), t, if t in kinds then TargetOf(i, t) else Keep, clock, n)
  }

  // ---------- one step after another ----------

  /** A condition that an earlier step of the same merge may have left. */
  ghost predicate Primes(
    was: Option<Condition>, mid: Option<Condition>, t: ConditionType, target: Target, clock: nat -> Time, n: nat)
  {
    || mid == was
    || Matches(was, mid, t, target, clock, n)
    || (was.None? && mid.Some? && Fresh(clock, n, mid.value.lastTransitionTime))
  }

  lemma {:induction false} Absorb(
    was: Option<Condition>, mid: Option<Condition>, now: Option<Condition>, t: ConditionType, target: Target,
    clock: nat -> Time, n: nat, n': nat)
    requires Primes(was, mid, t, target, clock, n) && n <= n' && !target.Keep?
    requires Matches(mid, now, t, target, clock, n')
    ensures Matches(was, now, t, target, clock, n')
  {}

  lemma {:induction false} Then(
    m0: ConditionsMap, m1: ConditionsMap, m2: ConditionsMap, i: Inputs, a: set<ConditionType>, b: set<ConditionType>,
    clock: nat -> Time, n: nat, n': nat)
    requires Applies(m0, m1, i, a, clock, n) && Applies(m1, m2, i, b, clock, n') && n <= n'
    ensures Applies(m0, m2, i, a + b, clock, n')
  {
    hide TargetOf;
    forall t: ConditionType
      ensures Matches(Get(m0, t), Get(m2, t), t, if t in a + b then TargetOf(i, t) else Keep, clock, n')
    {
      assert Matches(Get(m0, t), Get(m1, t), t, if t in a then TargetOf(i, t) else Keep, clock, n);
      assert Matches(Get(m1, t), Get(m2, t), t, if t in b then TargetOf(i, t) else Keep, clock, n');
    }
  }

  /** A set to what the table says. */
  lemma {:induction false} SetApplies(
    m: ConditionsMap, m': ConditionsMap, i: Inputs, t: ConditionType, clock: nat -> Time, n: nat)
    requires Keyed(m') && t in m' && TargetOf(i, t).Set?
    requires Becomes(Get(m, t), m'[t], TargetOf(i, t), clock, n)
    requires forall u | u != t :: Get(m', u) == Get(m, u)
    ensures Applies(m, m', i, {t}, clock, n)
  {
    hide TargetOf;
  }

  lemma {:induction false} RemoveApplies(
    m: ConditionsMap, m': ConditionsMap, i: Inputs, t: ConditionType, clock: nat -> Time, n: nat)
    requires TargetOf(i, t).Remove?
    requires forall u :: Get(m', u) == if u == t then None else Get(m, u)
    ensures Applies(m, m', i, {t}, clock, n)
  {
    hide TargetOf;
  }

  lemma {:induction false} KeepApplies(
    m: ConditionsMap, i: Inputs, t: ConditionType, clock: nat -> Time, n: nat)
    requires TargetOf(i, t).Keep?
    ensures Applies(m, m, i, {t}, clock, n)
  {
    hide TargetOf;
  }
}
