/** pkg/gatherers/conditional/filter_and_gather_container_logs.go: groupRawLogRequestsByNamespace. */
module LogRequests {

  datatype RawLogRequest = RawLogRequest(namespace: string, podNameRegex: string, previous: bool, messages: seq<string>)

  datatype PodNameRegexPrevious = PodNameRegexPrevious(podNameRegex: string, previous: bool)

  datatype LogRequest = LogRequest(namespace: string, podNameRegexToMessages: map<PodNameRegexPrevious, set<string>>)

  function KeyOf(r: RawLogRequest): PodNameRegexPrevious { PodNameRegexPrevious(r.podNameRegex, r.previous) }

  ghost predicate AsksNamespace(raw: seq<RawLogRequest>, ns: string)
  {
    exists i | 0 <= i < |raw| :: raw[i].namespace == ns
  }

  ghost predicate AsksPods(raw: seq<RawLogRequest>, ns: string, key: PodNameRegexPrevious)
  {
    exists i | 0 <= i < |raw| ::
      raw[i].namespace == ns && raw[i].podNameRegex == key.podNameRegex && raw[i].previous == key.previous
  }

  ghost predicate AsksMessage(raw: seq<RawLogRequest>, ns: string, key: PodNameRegexPrevious, message: string)
  {
    exists i | 0 <= i < |raw| ::
      raw[i].namespace == ns && raw[i].podNameRegex == key.podNameRegex && raw[i].previous == key.previous
      && message in raw[i].messages
  }

  /**
    The grouped requests ask for exactly what the raw requests ask for, each namespace, pod pattern and message
    once.
   */
  ghost predicate Groups(grouped: map<string, LogRequest>, raw: seq<RawLogRequest>)
  {
    && (forall ns :: ns in grouped <==> AsksNamespace(raw, ns))
    && (forall ns | ns in grouped :: grouped[ns].namespace == ns)
    && (forall ns, key | ns in grouped :: key in grouped[ns].podNameRegexToMessages <==> AsksPods(raw, ns, key))
    && (forall ns, key, message | ns in grouped && key in grouped[ns].podNameRegexToMessages ::
          message in grouped[ns].podNameRegexToMessages[key] <==> AsksMessage(raw, ns, key, message))
  }

  function MessageSet(r: RawLogRequest): set<string> { set m | m in r.messages }

  function Known(grouped: map<string, LogRequest>, ns: string): map<PodNameRegexPrevious, set<string>>
  {
    if ns in grouped then grouped[ns].podNameRegexToMessages else map[]
  }

  function KnownMessages(grouped: map<string, LogRequest>, ns: string, key: PodNameRegexPrevious): set<string>
  {
    if key in Known(grouped, ns) then Known(grouped, ns)[key] else {}
  }

  method GroupRawLogRequestsByNamespace(raw: seq<RawLogRequest>) returns (grouped: map<string, LogRequest>)
    ensures Groups(grouped, raw)
  {
    hide Groups, MessageSet;
    grouped := map[];
    NothingAsked();
    for i := 0 to |raw|
      invariant Groups(grouped, raw[..i])
    {
      var r := raw[i];
      var key := KeyOf(r);
      ghost var before := grouped;
      assert raw[..i + 1] == raw[..i] + [r];
      if r.namespace !in grouped {
        grouped := grouped[r.namespace := LogRequest(r.namespace, map[key := MessageSet(r)])];
        assert {} + MessageSet(r) == MessageSet(r);
        assert map[][key := MessageSet(r)] == map[key := MessageSet(r)];
      } else {
        NamesItself(grouped, raw[..i], r.namespace);
        var existing := grouped[r.namespace];
        if key in existing.podNameRegexToMessages {
          var setOfMessages := existing.podNameRegexToMessages[key] + MessageSet(r);
          existing := existing.(podNameRegexToMessages := existing.podNameRegexToMessages[key := setOfMessages]);
        } else {
          existing := existing.(podNameRegexToMessages := existing.podNameRegexToMessages[key := MessageSet(r)]);
          assert {} + MessageSet(r) == MessageSet(r);
        }
        grouped := grouped[r.namespace := existing];
      }
      OneMoreRequest(before, grouped, raw[..i], r);
    }
    assert raw[..|raw|] == raw;
  }

  lemma {:induction false} NothingAsked()
    ensures Groups(map[], [])
  {}

  lemma {:induction false} NamesItself(grouped: map<string, LogRequest>, raw: seq<RawLogRequest>, ns: string)
    requires Groups(grouped, raw) && ns in grouped
    ensures grouped[ns].namespace == ns
  {}

  /** Merging one request's messages into its entry keeps the grouping exact. */
  lemma {:induction false} OneMoreRequest(
      before: map<string, LogRequest>, after: map<string, LogRequest>, raw: seq<RawLogRequest>, r: RawLogRequest)
    requires Groups(before, raw)
    requires var messages := KnownMessages(before, r.namespace, KeyOf(r)) + MessageSet(r);
             after == before[r.namespace := LogRequest(r.namespace, Known(before, r.namespace)[KeyOf(r) := messages])]
    ensures Groups(after, raw + [r])
  {
    hide AsksNamespace, AsksPods, AsksMessage, MessageSet;
    var more := raw + [r];
    forall ns ensures ns in after <==> AsksNamespace(more, ns) {
      Extends(raw, r, ns, KeyOf(r), "");
    }
    forall ns, key | ns in after
      ensures key in after[ns].podNameRegexToMessages <==> AsksPods(more, ns, key)
    {
      Extends(raw, r, ns, key, "");
      Unasked(raw, ns, key, "");
    }
    forall ns, key, message | ns in after && key in after[ns].podNameRegexToMessages
      ensures message in after[ns].podNameRegexToMessages[key] <==> AsksMessage(more, ns, key, message)
    {
      Extends(raw, r, ns, key, message);
      Unasked(raw, ns, key, message);
      InMessageSet(r, message);
    }
  }

  lemma {:induction false} InMessageSet(r: RawLogRequest, message: string)
    ensures message in MessageSet(r) <==> message in r.messages
  {}

  lemma {:induction false} Unasked(raw: seq<RawLogRequest>, ns: string, key: PodNameRegexPrevious, message: string)
    ensures AsksMessage(raw, ns, key, message) ==> AsksPods(raw, ns, key)
    ensures AsksPods(raw, ns, key) ==> AsksNamespace(raw, ns)
  {}

  lemma {:induction false} Extends(
    raw: seq<RawLogRequest>, r: RawLogRequest, ns: string, key: PodNameRegexPrevious, message: string)
    ensures AsksNamespace(raw + [r], ns) <==> AsksNamespace(raw, ns) || r.namespace == ns
    ensures AsksPods(raw + [r], ns, key) <==> AsksPods(raw, ns, key) || (r.namespace == ns && KeyOf(r) == key)
    ensures AsksMessage(raw + [r], ns, key, message)
       <==> AsksMessage(raw, ns, key, message) || (r.namespace == ns && KeyOf(r) == key && message in r.messages)
  {
    var more := raw + [r];
    assert more[|raw|] == r;
    assert forall i | 0 <= i < |raw| :: more[i] == raw[i];
  }
}
