/**
  pkg/controller/status: the status map of status.go and currentControllerStatus of controller.go.

  The sources are a Go map, so they are visited in any order: the order is a parameter here.
 */
module StatusSources {
  import opened Options
  import opened Orders
  import opened ControllerStatuses

  // ---------- status.go ----------

  datatype StatusID = DisabledStatus | UploadStatus | DownloadStatus | ErrorStatus | RemoteConfigAvailableStatus

  datatype StatusMessage = StatusMessage(reason: string, message: string)

  type StatusMap = map<StatusID, StatusMessage>

  function Get<K, V>(m: map<K, V>, k: K): Option<V> { if k in m then Some(m[k]) else None }

  class ControllerStatus {
    var statusMap: StatusMap

    constructor ()
      ensures statusMap == map[]
    {
      statusMap := map[];
    }

    method SetStatus(id: StatusID, reason: string, message: string)
      modifies this
      ensures statusMap == old(statusMap)[id := StatusMessage(reason, message)]
    {
      var entries := statusMap;
      var existing := GetStatus(id);
      if existing.None? || existing.value.reason != reason || existing.value.message != message {
        entries := entries[id := StatusMessage(reason, message)];
      }
      statusMap := entries;
    }

    function GetStatus(id: StatusID): Option<StatusMessage>
      reads this
    {
      Get(statusMap, id)
    }

    method Reset()
      modifies this
      ensures statusMap == map[]
    {
      statusMap := map[];
    }
  }

  // ---------- sources ----------

  const UPLOAD_FAILURES_COUNT_THRESHOLD := 5

  datatype OperationName = Uploading | DownloadingReport | PullingSCACerts | PullingClusterTransfer
    | RemoteConfigurationStatus | OtherOperation

  function NameOf(op: Operation): OperationName
  {
    if op.name == "Uploading" then Uploading
    else if op.name == "DownloadingReport" then DownloadingReport
    else if op.name == "PullingSCACerts" then PullingSCACerts
    else if op.name == "PullingClusterTransfer" then PullingClusterTransfer
    else if op.name == "RemoteConfigurationStatus" then RemoteConfigurationStatus
    else OtherOperation
  }

  /** What CurrentStatus of a source answers. */
  datatype Reading = Reading(summary: Summary, ready: bool)

  predicate Failing(r: Reading) { r.ready && !r.summary.healthy && r.summary.message != "" }

  /** The failure makes the operator degraded. */
  predicate Degrading(r: Reading)
  {
    && Failing(r)
    && match NameOf(r.summary.operation)
       case Uploading => r.summary.count >= UPLOAD_FAILURES_COUNT_THRESHOLD
       case PullingSCACerts => r.summary.operation.httpStatusCode >= 500
       case PullingClusterTransfer => r.summary.operation.httpStatusCode >= 500
       case _ => false
  }

  /** A source of uploads that says why, if it fails, degrades the operator exactly after five failed uploads. */
  lemma {:induction false} UploadsDegradeAfterFive(updates: seq<Update>)
    requires forall k | 0 <= k < |updates| :: updates[k].summary.count <= 0
    requires var s := Run(updates); NameOf(s.operation) == Uploading && (!s.healthy ==> s.message != "")
    ensures var n := |updates| - UPLOAD_FAILURES_COUNT_THRESHOLD;
            Degrading(Reading(Run(updates), true))
            <==> n >= 0 && forall k | n <= k < |updates| :: !updates[k].summary.healthy
  {
    CountReaches(updates, UPLOAD_FAILURES_COUNT_THRESHOLD);
  }

  function Said(r: Reading): StatusMessage { StatusMessage(r.summary.reason, r.summary.message) }

  /** The status a failure reports under; None when it reports under none. */
  function Topic(r: Reading): Option<StatusID>
  {
    if !Failing(r) then None
    else match NameOf(r.summary.operation)
      case Uploading => Some(UploadStatus)
      case DownloadingReport => Some(DownloadStatus)
      case RemoteConfigurationStatus => Some(RemoteConfigAvailableStatus)
      case _ => None
  }

  /** What the last failure in the order says under a topic. */
  function LastSaid(readings: seq<Reading>, id: StatusID): Option<StatusMessage>
  {
    if readings == [] then None
    else
      var last := readings[|readings| - 1];
      if Topic(last) == Some(id) then Some(Said(last)) else LastSaid(readings[..|readings| - 1], id)
  }

  function DegradingSaid(readings: seq<Reading>): seq<StatusMessage>
  {
    if readings == [] then []
    else
      var last := readings[|readings| - 1];
      DegradingSaid(readings[..|readings| - 1]) + if Degrading(last) then [Said(last)] else []
  }

  function Messages(said: seq<StatusMessage>): seq<string>
  {
    if said == [] then [] else Messages(said[..|said| - 1]) + [said[|said| - 1].message]
  }

  function Join(lines: seq<string>, sep: string): string
  {
    if lines == [] then "" else if |lines| == 1 then lines[0] else lines[0] + sep + Join(lines[1..], sep)
  }

  function Multiple(ordered: seq<string>): StatusMessage
  {
    StatusMessage("MultipleFailures", "There are multiple errors blocking progress:\n* " + Join(ordered, "\n* "))
  }

  /** Line k is whole in the message: the first after the head, others after a separator, the last at the end. */
  ghost predicate LineAt(message: string, head: string, lines: seq<string>, at: seq<nat>, k: nat)
    requires k < |lines| == |at|
  {
    && at[k] + |lines[k]| <= |message| && message[at[k]..][..|lines[k]|] == lines[k]
    && (if k == 0 then message[..at[0]] == head
        else at[k] == at[k - 1] + |lines[k - 1]| + 3 && message[at[k] - 3..][..3] == "\n* ")
    && (k == |lines| - 1 ==> at[k] + |lines[k]| == |message|)
  }

  /** Every message of several failures is a part of the reported one, in their order and with nothing in between. */
  lemma {:induction false} MultipleListsAll(ordered: seq<string>) returns (at: seq<nat>)
    requires ordered != []
    ensures Multiple(ordered).reason == "MultipleFailures"
    ensures |at| == |ordered|
    ensures forall k | 0 <= k < |ordered| ::
              LineAt(Multiple(ordered).message, "There are multiple errors blocking progress:\n* ", ordered, at, k)
  {
    hide LineAt;
    at := JoinLists("There are multiple errors blocking progress:\n* ", ordered);
  }

  lemma {:induction false} JoinLists(head: string, lines: seq<string>) returns (at: seq<nat>)
    requires lines != []
    ensures |at| == |lines| && at[0] == |head|
    ensures forall k | 0 <= k < |lines| :: LineAt(head + Join(lines, "\n* "), head, lines, at, k)
    decreases |lines|
  {
    at := [|head|];
    var message := head + Join(lines, "\n* ");
    if |lines| > 1 {
      var longer := head + lines[0] + "\n* ";
      assert message == longer + Join(lines[1..], "\n* ");
      var rest := JoinLists(longer, lines[1..]);
      at := at + rest;
      forall k | 0 <= k < |lines| ensures LineAt(message, head, lines, at, k) {
        if k > 0 {
          LaterLine(message, head, longer, lines, at, k);
        }
      }
    }
  }

  lemma {:induction false} LaterLine(
    message: string, head: string, longer: string, lines: seq<string>, at: seq<nat>, k: nat)
    requires 0 < k < |lines| == |at| && at[0] == |head| && at[1] == |longer|
    requires longer == head + lines[0] + "\n* "
    requires LineAt(message, longer, lines[1..], at[1..], k - 1)
    ensures LineAt(message, head, lines, at, k)
  {
    if k == 1 {
      assert message[..at[1]] == longer;
      assert message[at[1] - 3..][..3] == longer[at[1] - 3..];
    }
  }

  /** The reported error: none, the only failure (under a default reason if it has none), or all messages in order. */
  ghost predicate ErrorOf(said: seq<StatusMessage>, error: Option<StatusMessage>)
  {
    if said == [] then error == None
    else if |said| == 1 then
      error == Some(StatusMessage(if said[0].reason == "" then "UnknownError" else said[0].reason, said[0].message))
    else
      exists ordered :: Sorted(StringLess, ordered) && multiset(ordered) == multiset(Messages(said))
        && error == Some(Multiple(ordered))
  }

  /** handleControllerStatusError. */
  method HandleControllerStatusError(errs: seq<string>, errorReason: string) returns (reason: string, message: string)
    ensures errs == [] ==> reason == "" && message == ""
    ensures |errs| == 1 ==> message == errs[0] && reason == if errorReason == "" then "UnknownError" else errorReason
    ensures |errs| > 1 ==> exists ordered :: Sorted(StringLess, ordered) && multiset(ordered) == multiset(errs)
                             && StatusMessage(reason, message) == Multiple(ordered)
  {
    reason, message := "", "";
    if |errs| > 1 {
      StringOrder();
      TotalIsWeak(StringLess);
      var ordered := Sort(errs, StringLess);
      reason := "MultipleFailures";
      message := "There are multiple errors blocking progress:\n* " + Join(ordered, "\n* ");
      assert StatusMessage(reason, message) == Multiple(ordered);
    } else if |errs| == 1 {
      message := errs[0];
      reason := if errorReason == "" then "UnknownError" else errorReason;
    }
  }

  // ---------- the configuration ----------

  /** The token configuration, and GatherDisabled of the API configurator, which may be nil. */
  datatype Config = Config(reportingEnabled: bool, api: Option<bool>)

  predicate GatherDisabled(config: Config) { config.api == Some(true) }

  const REPORTING_DISABLED_MESSAGE := "Health reporting is disabled"
  const NO_TOKEN := StatusMessage("NoToken", REPORTING_DISABLED_MESSAGE)
  const DISABLED_BY_CONFIGURATION := StatusMessage("DisabledByConfiguration", REPORTING_DISABLED_MESSAGE)

  function DisabledOf(config: Config): Option<StatusMessage>
  {
    if GatherDisabled(config) then Some(DISABLED_BY_CONFIGURATION)
    else if !config.reportingEnabled then Some(NO_TOKEN) else None
  }

  /** What the status map says for sources visited in the given order. */
  ghost predicate StatusOf(m: StatusMap, readings: seq<Reading>, config: Config)
  {
    && (forall id | id in {UploadStatus, DownloadStatus, RemoteConfigAvailableStatus} ::
          Get(m, id) == LastSaid(readings, id))
    && ErrorOf(DegradingSaid(readings), Get(m, ErrorStatus))
    && Get(m, DisabledStatus) == DisabledOf(config)
  }

  predicate AllReady(readings: seq<Reading>) { forall i | 0 <= i < |readings| :: readings[i].ready }

  /** currentControllerStatus on a reset status. */
  method CurrentControllerStatus(ctrlStatus: ControllerStatus, readings: seq<Reading>, config: Config)
    returns (allReady: bool)
    requires ctrlStatus.statusMap == map[]
    modifies ctrlStatus
    ensures allReady == AllReady(readings)
    ensures StatusOf(ctrlStatus.statusMap, readings, config)
  {
    hide *;
    var errorReason := "";
    var errs: seq<string> := [];
    allReady := true;
    EmptyLoop();
    for i := 0 to |readings|
      invariant allReady == AllReady(readings[..i])
      invariant Topics(ctrlStatus.statusMap, readings[..i])
      invariant Errors(errs, errorReason, DegradingSaid(readings[..i]))
    {
      var r := readings[i];
      var summary, ready := r.summary, r.ready;
      assert readings[..i + 1][..i] == readings[..i];
      assert readings[..i + 1][i] == r;
      OneReading(ctrlStatus.statusMap, readings[..i + 1], errs, errorReason);
      if !ready {
        allReady := false;
        continue;
      }
      if summary.healthy {
        continue;
      }
      if |summary.message| == 0 {
        continue;
      }

      var degradingFailure := false;
      match NameOf(summary.operation) {
        case Uploading =>
          if summary.count >= UPLOAD_FAILURES_COUNT_THRESHOLD {
            degradingFailure := true;
          }
          ctrlStatus.SetStatus(UploadStatus, summary.reason, summary.message);
        case DownloadingReport =>
          ctrlStatus.SetStatus(DownloadStatus, summary.reason, summary.message);
        case PullingSCACerts =>
          if summary.operation.httpStatusCode >= 500 {
            degradingFailure := true;
          }
        case PullingClusterTransfer =>
          if summary.operation.httpStatusCode >= 500 {
            degradingFailure := true;
          }
        case RemoteConfigurationStatus =>
          ctrlStatus.SetStatus(RemoteConfigAvailableStatus, summary.reason, summary.message);
        case OtherOperation =>
      }
      if degradingFailure {
        errorReason := summary.reason;
        errs := errs + [summary.message];
      }
    }
    assert readings[..|readings|] == readings;
    var reason, message := HandleControllerStatusError(errs, errorReason);
    ghost var m := ctrlStatus.statusMap;
    if reason != "" || message != "" {
      ctrlStatus.SetStatus(ErrorStatus, reason, message);
    }
    ErrorReported(errs, errorReason, DegradingSaid(readings), reason, message);
    AddError(m, ctrlStatus.statusMap, readings, reason, message);
    CheckDisabledGathering(ctrlStatus, readings, config);
  }

  method CheckDisabledGathering(ctrlStatus: ControllerStatus, ghost readings: seq<Reading>, config: Config)
    requires WithoutDisabled(ctrlStatus.statusMap, readings)
    modifies ctrlStatus
    ensures StatusOf(ctrlStatus.statusMap, readings, config)
  {
    hide LastSaid, ErrorOf, DegradingSaid;
    if !config.reportingEnabled {
      ctrlStatus.SetStatus(DisabledStatus, NO_TOKEN.reason, NO_TOKEN.message);
    }
    if config.api.Some? {
      if config.api.value {
        ctrlStatus.SetStatus(DisabledStatus, DISABLED_BY_CONFIGURATION.reason, REPORTING_DISABLED_MESSAGE);
      }
    }
  }

  // ---------- the loop's bookkeeping ----------

  ghost predicate Topics(m: StatusMap, readings: seq<Reading>)
  {
    && (forall id | id in {UploadStatus, DownloadStatus, RemoteConfigAvailableStatus} ::
          Get(m, id) == LastSaid(readings, id))
    && DisabledStatus !in m && ErrorStatus !in m
  }

  ghost predicate WithoutDisabled(m: StatusMap, readings: seq<Reading>)
  {
    && (forall id | id in {UploadStatus, DownloadStatus, RemoteConfigAvailableStatus} ::
          Get(m, id) == LastSaid(readings, id))
    && DisabledStatus !in m && ErrorOf(DegradingSaid(readings), Get(m, ErrorStatus))
  }

  ghost predicate Errors(errs: seq<string>, errorReason: string, said: seq<StatusMessage>)
  {
    && errs == Messages(said)
    && (said != [] ==> errorReason == said[|said| - 1].reason)
    && forall i | 0 <= i < |said| :: said[i].message != ""
  }

  lemma {:induction false} EmptyLoop()
    ensures AllReady([]) && Topics(map[], []) && Errors([], "", DegradingSaid([]))
  {}

  /** What one reading adds, case by case. */
  lemma {:induction false} OneReading(m: StatusMap, readings: seq<Reading>, errs: seq<string>, errorReason: string)
    requires readings != []
    requires var before := readings[..|readings| - 1];
             Topics(m, before) && Errors(errs, errorReason, DegradingSaid(before))
    ensures var r := readings[|readings| - 1];
            var name := NameOf(r.summary.operation);
            && AllReady(readings) == (AllReady(readings[..|readings| - 1]) && r.ready)
            && (Failing(r) <==> r.ready && !r.summary.healthy && |r.summary.message| != 0)
            && (Topic(r).None? ==> Topics(m, readings))
            && (Topic(r).Some? ==> Topics(m[Topic(r).value := Said(r)], readings))
            && Topic(r) == (if !Failing(r) then None else match name
                 case Uploading => Some(UploadStatus)
                 case DownloadingReport => Some(DownloadStatus)
                 case RemoteConfigurationStatus => Some(RemoteConfigAvailableStatus)
                 case _ => None)
            && Said(r) == StatusMessage(r.summary.reason, r.summary.message)
            && (!Degrading(r) ==> Errors(errs, errorReason, DegradingSaid(readings)))
            && (Degrading(r) ==> Errors(errs + [r.summary.message], r.summary.reason, DegradingSaid(readings)))
            && (Degrading(r) <==> (Failing(r) && match name
                 case Uploading => r.summary.count >= UPLOAD_FAILURES_COUNT_THRESHOLD
                 case PullingSCACerts => r.summary.operation.httpStatusCode >= 500
                 case PullingClusterTransfer => r.summary.operation.httpStatusCode >= 500
                 case _ => false))
  {
    hide NameOf, Errors, Topics;
    var r := readings[|readings| - 1];
    OneTopic(m, readings);
    OneError(errs, errorReason, readings);
  }

  lemma {:induction false} OneTopic(m: StatusMap, readings: seq<Reading>)
    requires readings != [] && Topics(m, readings[..|readings| - 1])
    ensures var r := readings[|readings| - 1];
            && (Topic(r).None? ==> Topics(m, readings))
            && (Topic(r).Some? ==> Topics(m[Topic(r).value := Said(r)], readings))
  {
    hide NameOf;
    var r := readings[|readings| - 1];
    var m' := if Topic(r).Some? then m[Topic(r).value := Said(r)] else m;
    forall id | id in {UploadStatus, DownloadStatus, RemoteConfigAvailableStatus}
      ensures Get(m', id) == LastSaid(readings, id)
    {
      assert Get(m, id) == LastSaid(readings[..|readings| - 1], id);
    }
  }

  lemma {:induction false} OneError(errs: seq<string>, errorReason: string, readings: seq<Reading>)
    requires readings != [] && Errors(errs, errorReason, DegradingSaid(readings[..|readings| - 1]))
    ensures var r := readings[|readings| - 1];
            && (!Degrading(r) ==> Errors(errs, errorReason, DegradingSaid(readings)))
            && (Degrading(r) ==> Errors(errs + [r.summary.message], r.summary.reason, DegradingSaid(readings)))
  {
    hide Degrading, Messages;
    var r, said := readings[|readings| - 1], DegradingSaid(readings[..|readings| - 1]);
    if Degrading(r) {
      OneMoreMessage(said, Said(r));
      DegradingSays(r);
    } else {
      assert DegradingSaid(readings) == said;
    }
  }

  lemma {:induction false} OneMoreMessage(said: seq<StatusMessage>, s: StatusMessage)
    ensures Messages(said + [s]) == Messages(said) + [s.message]
  {
    assert (said + [s])[..|said|] == said;
  }

  lemma {:induction false} DegradingSays(r: Reading)
    requires Degrading(r)
    ensures r.summary.message != ""
  {}

  lemma {:induction false} MessagesShape(said: seq<StatusMessage>)
    ensures |Messages(said)| == |said|
    ensures forall i | 0 <= i < |said| :: Messages(said)[i] == said[i].message
  {
    if said != [] {
      MessagesShape(said[..|said| - 1]);
    }
  }

  lemma {:induction false} ErrorReported(
    errs: seq<string>, errorReason: string, said: seq<StatusMessage>, reason: string, message: string)
    requires Errors(errs, errorReason, said)
    requires errs == [] ==> reason == "" && message == ""
    requires |errs| == 1 ==> message == errs[0] && reason == if errorReason == "" then "UnknownError" else errorReason
    requires |errs| > 1 ==> exists ordered :: Sorted(StringLess, ordered) && multiset(ordered) == multiset(errs)
                              && StatusMessage(reason, message) == Multiple(ordered)
    ensures ErrorOf(said, if reason != "" || message != "" then Some(StatusMessage(reason, message)) else None)
  {
    hide Sorted, Join;
    MessagesShape(said);
  }

  lemma {:induction false} AddError(
    m: StatusMap, m': StatusMap, readings: seq<Reading>, reason: string, message: string)
    requires Topics(m, readings)
    requires m' == if reason != "" || message != "" then m[ErrorStatus := StatusMessage(reason, message)] else m
    requires ErrorOf(DegradingSaid(readings),
                     if reason != "" || message != "" then Some(StatusMessage(reason, message)) else None)
    ensures WithoutDisabled(m', readings)
  {
    hide ErrorOf, LastSaid, DegradingSaid;
  }
}
