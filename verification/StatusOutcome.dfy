/**
  The conditions that a merge leaves, in terms of what the sources answered and of the configuration:
  pkg/controller/status/controller.go from currentControllerStatus to updateControllerConditionsByStatus.
 */
module StatusOutcome {
  import opened Options
  import opened Orders
  import opened ControllerStatuses
  import opened StatusSources
  import opened StatusConditions
  import opened StatusTargets
  import opened StatusMerge
  import opened StatusFixpoint

  // ---------- in terms of the sources ----------

  /** A ready source of the operation fails and says why. */
  predicate Fails(r: Reading, operation: string)
  {
    r.ready && !r.summary.healthy && r.summary.message != "" && r.summary.operation.name == operation
  }

  predicate SomeFails(readings: seq<Reading>, operation: string)
  {
    exists k :: 0 <= k < |readings| && Fails(readings[k], operation)
  }

  /** Reading k is the last failure of the operation. */
  predicate LastFails(readings: seq<Reading>, operation: string, k: nat)
  {
    k < |readings| && Fails(readings[k], operation) && forall j | k < j < |readings| :: !Fails(readings[j], operation)
  }

  /** Five failed uploads, or a server error of one of the two controllers that talk to OCM. */
  predicate Degrades(r: Reading)
  {
    || (Fails(r, "Uploading") && r.summary.count >= 5)
    || (Fails(r, "PullingSCACerts") && r.summary.operation.httpStatusCode >= 500)
    || (Fails(r, "PullingClusterTransfer") && r.summary.operation.httpStatusCode >= 500)
  }

  predicate Off(config: Config) { !config.reportingEnabled || config.api == Some(true) }

  predicate Shows(s: Status, t: ConditionType, status: ConditionStatus, reason: string, message: string)
  {
    match ConditionOf(s, t)
    case None => false
    case Some(c) => c.kind == t && c.status == status && c.reason == reason && c.message == message
  }

  predicate Absent(s: Status, t: ConditionType) { ConditionOf(s, t) == None }

  /** The condition as it was, or unknown since now if there was none. */
  predicate Kept(s0: Status, s1: Status, t: ConditionType, now: Time)
  {
    ConditionOf(s1, t)
    == if ConditionOf(s0, t).Some? then ConditionOf(s0, t) else Some(Condition(t, Unknown, "", "", now))
  }

  // ---------- from the readings to the status map ----------

  lemma {:induction false} FailingByName(r: Reading)
    ensures Topic(r) == Some(UploadStatus) <==> Fails(r, "Uploading")
    ensures Topic(r) == Some(DownloadStatus) <==> Fails(r, "DownloadingReport")
    ensures Topic(r) == Some(RemoteConfigAvailableStatus) <==> Fails(r, "RemoteConfigurationStatus")
    ensures Degrading(r) <==> Degrades(r)
  {
    assert "Uploading"[0] != "DownloadingReport"[0];
    assert |"PullingSCACerts"| == 15 && |"PullingClusterTransfer"| == 22;
    assert |"RemoteConfigurationStatus"| == 25 && |"DownloadingReport"| == 17 && |"Uploading"| == 9;
  }

  lemma {:induction false} LastSaidIsLastFailure(readings: seq<Reading>, id: StatusID, operation: string)
    requires forall r :: Topic(r) == Some(id) <==> Fails(r, operation)
    ensures LastSaid(readings, id) == None <==> !SomeFails(readings, operation)
    ensures forall k: nat | LastFails(readings, operation, k) ::
              LastSaid(readings, id) == Some(StatusMessage(readings[k].summary.reason, readings[k].summary.message))
  {
    hide Topic, Fails;
    if readings != [] {
      var n := |readings| - 1;
      LastSaidIsLastFailure(readings[..n], id, operation);
      if Fails(readings[n], operation) {
        assert SomeFails(readings, operation);
      } else {
        assert SomeFails(readings, operation) <==> SomeFails(readings[..n], operation);
        forall k: nat | LastFails(readings, operation, k) ensures LastFails(readings[..n], operation, k) {
          assert k != n;
        }
      }
    }
  }

  /** What the status map says of a topic. */
  lemma {:induction false} TopicOf(m: StatusMap, readings: seq<Reading>, config: Config, id: StatusID,
                                   operation: string)
    requires StatusOf(m, readings, config)
    requires (id, operation) in {(UploadStatus, "Uploading"), (DownloadStatus, "DownloadingReport"),
                                 (RemoteConfigAvailableStatus, "RemoteConfigurationStatus")}
    ensures Get(m, id) == None <==> !SomeFails(readings, operation)
    ensures forall k: nat | LastFails(readings, operation, k) ::
              Get(m, id) == Some(StatusMessage(readings[k].summary.reason, readings[k].summary.message))
  {
    hide Topic, Fails, ErrorOf, DegradingSaid, LastSaid, LastFails, SomeFails;
    forall r ensures Topic(r) == Some(id) <==> Fails(r, operation) {
      FailingByName(r);
    }
    LastSaidIsLastFailure(readings, id, operation);
    assert id in {UploadStatus, DownloadStatus, RemoteConfigAvailableStatus};
  }

  lemma {:induction false} DisabledSays(m: StatusMap, readings: seq<Reading>, config: Config)
    requires StatusOf(m, readings, config)
    ensures Get(m, DisabledStatus)
         == if !Off(config) then None
            else Some(StatusMessage(if config.api == Some(true) then "DisabledByConfiguration" else "NoToken",
                                    "Health reporting is disabled"))
  {
    hide LastSaid, ErrorOf, DegradingSaid;
  }

  /** Without an announced upgrade every condition shows what the table says. */
  lemma {:induction false} TableShows(
    s0: Status, s1: Status, i: Inputs, env: Env, clock: nat -> Time, t: ConditionType)
    requires Merged(s0, s1, i, env, clock) && (t == Progressing ==> !Upgrades(env, s0.versions))
    ensures match TargetOf(i, t)
            case Keep => ConditionOf(s1, t) == Start(s0.conditions, t, clock(0))
            case Remove => Absent(s1, t)
            case Set(status, reason, message) => Shows(s1, t, status, reason, message)
  {
    hide Merged, Upgrades, Start, LastOf, TargetOf;
    EveryConditionIsTheTables(s0, s1, i, env, clock, t);
  }

  // ---------- the alarms ----------

  /**
    UploadDegraded is there, and true, exactly when the operator is not off and a source of uploads fails; it says
    what the last such source says.
   */
  lemma {:induction false} UploadAlarmExactly(
    s0: Status, s1: Status, i: Inputs, env: Env, clock: nat -> Time, readings: seq<Reading>)
    requires Merged(s0, s1, i, env, clock) && StatusOf(i.status, readings, i.config)
    ensures Absent(s1, UploadDegraded) <==> Off(i.config) || !SomeFails(readings, "Uploading")
    ensures forall k: nat | LastFails(readings, "Uploading", k) && !Off(i.config) ::
              Shows(s1, UploadDegraded, True, readings[k].summary.reason, readings[k].summary.message)
  {
    hide Merged, StatusOf, LastFails, SomeFails, Upgrades, Start, Absent;
    TopicOf(i.status, readings, i.config, UploadStatus, "Uploading");
    DisabledSays(i.status, readings, i.config);
    TableShows(s0, s1, i, env, clock, UploadDegraded);
    ShownIsThere(s1, UploadDegraded);
  }

  /** The same for downloads of the report and InsightsDownloadDegraded. */
  lemma {:induction false} DownloadAlarmExactly(
    s0: Status, s1: Status, i: Inputs, env: Env, clock: nat -> Time, readings: seq<Reading>)
    requires Merged(s0, s1, i, env, clock) && StatusOf(i.status, readings, i.config)
    ensures Absent(s1, InsightsDownloadDegraded) <==> Off(i.config) || !SomeFails(readings, "DownloadingReport")
    ensures forall k: nat | LastFails(readings, "DownloadingReport", k) && !Off(i.config) ::
              Shows(s1, InsightsDownloadDegraded, True, readings[k].summary.reason, readings[k].summary.message)
  {
    hide Merged, StatusOf, LastFails, SomeFails, Upgrades, Start, Absent;
    TopicOf(i.status, readings, i.config, DownloadStatus, "DownloadingReport");
    DisabledSays(i.status, readings, i.config);
    TableShows(s0, s1, i, env, clock, InsightsDownloadDegraded);
    ShownIsThere(s1, InsightsDownloadDegraded);
  }

  lemma {:induction false} ShownIsThere(s: Status, t: ConditionType)
    ensures forall status, reason, message :: Shows(s, t, status, reason, message) ==> !Absent(s, t)
  {}

  // ---------- the remote configuration ----------

  /**
    Outside tech preview: nothing is known of the configuration when the operator is off or it cannot be fetched; it
    is there but invalid when the last failure says so; and it is there and valid when nothing fails.
   */
  lemma {:induction false} RemoteConfigurationExactly(
    s0: Status, s1: Status, i: Inputs, env: Env, clock: nat -> Time, readings: seq<Reading>)
    requires Merged(s0, s1, i, env, clock) && StatusOf(i.status, readings, i.config) && !i.techPreview
    ensures Off(i.config) ==>
              && Shows(s1, RemoteConfigurationAvailable, False,
                       if i.config.api == Some(true) then "DisabledByConfiguration" else "NoToken",
                       "Health reporting is disabled")
              && Shows(s1, RemoteConfigurationValid, Unknown, "NoValidationYet", "")
    ensures !Off(i.config) && !SomeFails(readings, "RemoteConfigurationStatus") ==>
              && Shows(s1, RemoteConfigurationAvailable, True, "Succeeded", "")
              && Shows(s1, RemoteConfigurationValid, True, "Succeeded", "")
    ensures forall k: nat | LastFails(readings, "RemoteConfigurationStatus", k) && !Off(i.config) ::
              var last := readings[k].summary;
              if last.reason == "Invalid" then
                && Shows(s1, RemoteConfigurationAvailable, True, "Succeeded", "")
                && Shows(s1, RemoteConfigurationValid, False, "Invalid", last.message)
              else
                && Shows(s1, RemoteConfigurationAvailable, False, last.reason, last.message)
                && Shows(s1, RemoteConfigurationValid, Unknown, "NoValidationYet", "")
  {
    hide Merged, StatusOf, LastFails, SomeFails, Upgrades, Start, Shows;
    TopicOf(i.status, readings, i.config, RemoteConfigAvailableStatus, "RemoteConfigurationStatus");
    DisabledSays(i.status, readings, i.config);
    TableShows(s0, s1, i, env, clock, RemoteConfigurationAvailable);
    TableShows(s0, s1, i, env, clock, RemoteConfigurationValid);
  }

  /** In tech preview both conditions stay as they were. */
  lemma {:induction false} TechPreviewKeepsRemote(s0: Status, s1: Status, i: Inputs, env: Env, clock: nat -> Time)
    requires Merged(s0, s1, i, env, clock) && i.techPreview
    ensures Kept(s0, s1, RemoteConfigurationAvailable, clock(0))
    ensures Kept(s0, s1, RemoteConfigurationValid, clock(0))
  {
    hide Merged, Upgrades;
    TableShows(s0, s1, i, env, clock, RemoteConfigurationAvailable);
    TableShows(s0, s1, i, env, clock, RemoteConfigurationValid);
  }

  /** A condition of a type that is none of the operator's stays exactly as it was. */
  lemma {:induction false} OthersAreKept(
    s0: Status, s1: Status, i: Inputs, env: Env, clock: nat -> Time, t: ConditionType)
    requires Merged(s0, s1, i, env, clock) && t.Other?
    ensures ConditionOf(s1, t) == ConditionOf(s0, t)
  {
    hide Merged, Upgrades, LastOf, Start, Shows;
    TableShows(s0, s1, i, env, clock, t);
    hide TargetOf;
    NoDefault(s0.conditions, t, clock(0));
  }

  lemma {:induction false} NoDefault(existing: seq<Condition>, t: ConditionType, now: Time)
    requires t.Other?
    ensures Start(existing, t, now) == LastOf(existing, t)
  {
    hide LastOf;
  }

  // ---------- the conditions of the OCM controllers ----------

  /** Some source is not ready, and the controller started, at the latest now, less than three minutes ago. */
  predicate StillInitializing(readings: seq<Reading>, start: Time, clock: nat -> Time)
  {
    && (exists k :: 0 <= k < |readings| && !readings[k].ready)
    && clock(0) - (if start == ZERO_TIME then clock(1) else start) < 180_000_000_000
  }

  /**
    Once initialized, SCAAvailable and ClusterTransferAvailable repeat what their ready source says, true exactly when
    it gives the reason of a success; without such a source they stay as they were.
   */
  lemma {:induction false} OcmConditionsExactly(
    s0: Status, s1: Status, i: Inputs, env: Env, clock: nat -> Time, readings: seq<Reading>, start: Time)
    requires Merged(s0, s1, i, env, clock) && i.initializing == IsInitializing(readings, start, clock)
    ensures match i.sca
            case Some(Reading(said, true)) =>
              if StillInitializing(readings, start, clock) then Kept(s0, s1, SCAAvailable, clock(0))
              else Shows(s1, SCAAvailable, if said.reason == "Updated" then True else False, said.reason, said.message)
            case _ => Kept(s0, s1, SCAAvailable, clock(0))
    ensures match i.transfer
            case Some(Reading(said, true)) =>
              if StillInitializing(readings, start, clock) then Kept(s0, s1, ClusterTransferAvailable, clock(0))
              else Shows(s1, ClusterTransferAvailable, if said.reason == "PullSecretUpdated" then True else False,
                         said.reason, said.message)
            case _ => Kept(s0, s1, ClusterTransferAvailable, clock(0))
  {
    hide Merged, Upgrades, Shows;
    TableShows(s0, s1, i, env, clock, SCAAvailable);
    TableShows(s0, s1, i, env, clock, ClusterTransferAvailable);
    assert i.initializing == StillInitializing(readings, start, clock);
  }

  // ---------- errors ----------

  /** The words of the error that the sources report, if they report one. */
  ghost predicate ErrorWords(readings: seq<Reading>, reason: string, message: string)
  {
    && (forall k | 0 <= k < |readings| && Degrades(readings[k]) && OnlyDegrading(readings, k) ::
          var said := readings[k].summary;
          reason == (if said.reason == "" then "UnknownError" else said.reason) && message == said.message)
    && (forall k | 0 <= k < |readings| && Degrades(readings[k]) && !OnlyDegrading(readings, k) ::
          reason == "MultipleFailures" && PartOf(readings[k].summary.message, message))
  }

  predicate OnlyDegrading(readings: seq<Reading>, k: nat)
  {
    forall j | 0 <= j < |readings| && j != k :: !Degrades(readings[j])
  }

  ghost predicate PartOf(part: string, whole: string)
  {
    exists at: nat :: at + |part| <= |whole| && whole[at..][..|part|] == part
  }

  /**
    Without a degrading failure, or when the operator is off, the operator is available and not degraded.  Otherwise
    it is degraded and unavailable, in the words of the only degrading source, or in words that hold all of theirs.
   */
  lemma {:induction false} ErrorExactly(
    s0: Status, s1: Status, i: Inputs, env: Env, clock: nat -> Time, readings: seq<Reading>)
    requires Merged(s0, s1, i, env, clock) && StatusOf(i.status, readings, i.config)
    ensures Off(i.config) || (forall k | 0 <= k < |readings| :: !Degrades(readings[k])) ==>
              && Shows(s1, Degraded, False, "AsExpected", "Insights works as expected")
              && Shows(s1, Available, True, "AsExpected", "Insights works as expected")
    ensures !Off(i.config) && (exists k :: 0 <= k < |readings| && Degrades(readings[k])) ==>
              exists reason, message :: ErrorWords(readings, reason, message)
                && Shows(s1, Degraded, True, reason, message) && Shows(s1, Available, False, reason, message)
  {
    hide Merged, StatusOf, ErrorWords, Degrades, Upgrades, Start, Shows;
    ErrorSays(i.status, readings, i.config);
    DisabledSays(i.status, readings, i.config);
    TableShows(s0, s1, i, env, clock, Degraded);
    TableShows(s0, s1, i, env, clock, Available);
  }

  lemma {:induction false} ErrorSays(m: StatusMap, readings: seq<Reading>, config: Config)
    requires StatusOf(m, readings, config)
    ensures Get(m, ErrorStatus) == None <==> forall k | 0 <= k < |readings| :: !Degrades(readings[k])
    ensures ErrorStatus in m ==> ErrorWords(readings, m[ErrorStatus].reason, m[ErrorStatus].message)
  {
    hide LastSaid, DegradingSaid, Degrades, DisabledOf, Messages, Multiple, Sorted, StringLess, PartOf, OnlyDegrading;
    var said := DegradingSaid(readings);
    forall k: nat | k < |readings| && Degrades(readings[k]) ensures SaidAmong(readings, k) {
      DegradingAt(readings, k);
    }
    NoneDegrades(readings);
    if |said| > 1 {
      var ordered :| Sorted(StringLess, ordered) && multiset(ordered) == multiset(Messages(said))
                     && Get(m, ErrorStatus) == Some(Multiple(ordered));
      forall k: nat | k < |readings| && Degrades(readings[k])
        ensures m[ErrorStatus].reason == "MultipleFailures"
        ensures PartOf(readings[k].summary.message, m[ErrorStatus].message)
      {
        MessageOf(said, Said(readings[k]));
        assert readings[k].summary.message in multiset(ordered);
        ListedIsPart(ordered, readings[k].summary.message);
      }
    }
  }

  /** What the degrading reading k says is among what is said, and it is all of it exactly if no other degrades. */
  ghost predicate SaidAmong(readings: seq<Reading>, k: nat)
    requires k < |readings|
  {
    && Said(readings[k]) in DegradingSaid(readings)
    && (OnlyDegrading(readings, k) <==> DegradingSaid(readings) == [Said(readings[k])])
    && (OnlyDegrading(readings, k) <==> |DegradingSaid(readings)| == 1)
  }

  lemma {:induction false} NoneDegrades(readings: seq<Reading>)
    ensures DegradingSaid(readings) == [] <==> forall k | 0 <= k < |readings| :: !Degrades(readings[k])
  {
    hide Degrades, Degrading, Said;
    if readings != [] {
      var n := |readings| - 1;
      NoneDegrades(readings[..n]);
      FailingByName(readings[n]);
    }
  }

  lemma {:induction false} DegradingAt(readings: seq<Reading>, k: nat)
    requires k < |readings| && Degrades(readings[k])
    ensures SaidAmong(readings, k)
  {
    hide Degrades, Degrading, Said;
    var n := |readings| - 1;
    var before, last := readings[..n], readings[n];
    FailingByName(last);
    NoneDegrades(before);
    if k < n {
      DegradingAt(before, k);
      assert OnlyDegrading(readings, k) <==> OnlyDegrading(before, k) && !Degrades(last);
    } else {
      assert OnlyDegrading(readings, k) <==> forall j | 0 <= j < |before| :: !Degrades(before[j]);
    }
  }

  lemma {:induction false} MessageOf(said: seq<StatusMessage>, s: StatusMessage)
    requires s in said
    ensures s.message in Messages(said)
  {
    MessagesShape(said);
    var k :| 0 <= k < |said| && said[k] == s;
    assert Messages(said)[k] == s.message;
  }

  lemma {:induction false} ListedIsPart(ordered: seq<string>, line: string)
    requires line in ordered
    ensures Multiple(ordered).reason == "MultipleFailures" && PartOf(line, Multiple(ordered).message)
  {
    hide Multiple;
    var at := MultipleListsAll(ordered);
    var k :| 0 <= k < |ordered| && ordered[k] == line;
    assert LineAt(Multiple(ordered).message, "There are multiple errors blocking progress:\n* ", ordered, at, k);
  }

  // ---------- progress, and being disabled ----------

  /** The release is parsed, all listed versions are, and one of them has another major or minor number. */
  ghost predicate ReleaseDiffers(env: Env, versions: seq<OperandVersion>)
  {
    && env.release != "" && env.parse(env.release).Some?
    && (forall k | 0 <= k < |versions| :: env.parse(versions[k].version).Some?)
    && exists k :: 0 <= k < |versions|
         && var listed, release := env.parse(versions[k].version).value, env.parse(env.release).value;
            listed.major != release.major || listed.minor != release.minor
  }

  /** Progressing is true exactly for another release; otherwise it says whether the operator is degraded. */
  lemma {:induction false} ProgressingExactly(s0: Status, s1: Status, i: Inputs, env: Env, clock: nat -> Time)
    requires Merged(s0, s1, i, env, clock)
    ensures ReleaseDiffers(env, s0.versions) ==>
              Shows(s1, Progressing, True, "Openshift Upgrade", "Cluster version is updated")
    ensures !ReleaseDiffers(env, s0.versions) ==>
              if Is(s1, Degraded, True) then Shows(s1, Progressing, False, "Degraded", "An error has occurred")
              else Shows(s1, Progressing, False, "AsExpected", "Monitoring the cluster")
  {
    hide Merged, Start, LastOf;
    DegradedIsUnavailable(s0, s1, i, env, clock);
    assert ReleaseDiffers(env, s0.versions) == Upgrades(env, s0.versions);
    EveryConditionIsTheTables(s0, s1, i, env, clock, Progressing);
  }

  /** Disabled and GatheringDisabled: by the configuration, which goes first, or by the missing token. */
  lemma {:induction false} DisabledExactly(
    s0: Status, s1: Status, i: Inputs, env: Env, clock: nat -> Time, readings: seq<Reading>)
    requires Merged(s0, s1, i, env, clock) && StatusOf(i.status, readings, i.config)
    ensures i.config.api == Some(true) ==>
              && Shows(s1, Disabled, True, "DisabledByConfiguration", "Health reporting is disabled")
              && Shows(s1, GatheringDisabled, True, "DisabledByConfiguration",
                       "Gathering is disabled in insightsdatagather.config.openshift.io")
    ensures i.config.api != Some(true) && !i.config.reportingEnabled ==>
              && Shows(s1, Disabled, True, "NoToken", "Health reporting is disabled")
              && Shows(s1, GatheringDisabled, True, "NoToken",
                       "Gathering is disabled by removing the cloud.openshift.com field from the pull secret")
    ensures !Off(i.config) ==>
              && Shows(s1, Disabled, False, "AsExpected", "")
              && Shows(s1, GatheringDisabled, False, "AsExpected", "Gathering is enabled")
  {
    hide Merged, StatusOf, Upgrades, Start, Shows;
    DisabledSays(i.status, readings, i.config);
    TableShows(s0, s1, i, env, clock, Disabled);
    TableShows(s0, s1, i, env, clock, GatheringDisabled);
  }
}
