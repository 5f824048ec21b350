/** When the status map does not depend on the order in which the map of sources is visited. */
module StatusOrder {
  import opened Options
  import opened Orders
  import opened ControllerStatuses
  import opened StatusSources

  /** Failing sources that report under the same topic give the same reason and message. */
  predicate Agree(readings: seq<Reading>)
  {
    forall i, j | 0 <= i < |readings| && 0 <= j < |readings| ::
      Topic(readings[i]).Some? && Topic(readings[i]) == Topic(readings[j]) ==> Said(readings[i]) == Said(readings[j])
  }

  ghost predicate SameInEveryOrder(readings: seq<Reading>, config: Config)
  {
    forall p, m, m' | multiset(p) == multiset(readings) && StatusOf(m, readings, config) && StatusOf(m', p, config) ::
      m == m'
  }

  /** Every order of visiting the sources gives the same status map exactly when the failing sources agree. */
  lemma {:induction false} OrderIndependentExactly(readings: seq<Reading>, config: Config)
    ensures SameInEveryOrder(readings, config) <==> Agree(readings)
  {
    hide *;
    if Agree(readings) {
      AgreeingIsIndependent(readings, config);
    } else {
      DisagreeingDepends(readings, config);
    }
  }

  /** In particular with at most one failing source per topic. */
  lemma {:induction false} OneFailureEach(readings: seq<Reading>, config: Config)
    requires forall i, j | 0 <= i < j < |readings| ::
               Topic(readings[i]).Some? ==> Topic(readings[i]) != Topic(readings[j])
    ensures SameInEveryOrder(readings, config)
  {
    hide SameInEveryOrder, Said;
    OrderIndependentExactly(readings, config);
  }

  // ---------- agreement is enough ----------

  lemma {:induction false} AgreeingIsIndependent(readings: seq<Reading>, config: Config)
    requires Agree(readings)
    ensures SameInEveryOrder(readings, config)
  {
    hide StatusOf, Agree;
    forall p, m, m' | multiset(p) == multiset(readings) && StatusOf(m, readings, config) && StatusOf(m', p, config)
      ensures m == m'
    {
      TopicsAgree(readings, p);
      SameErrors(readings, p);
      SameMap(m, m', readings, p, config);
    }
  }

  lemma {:induction false} SameMap(m: StatusMap, m': StatusMap, readings: seq<Reading>, p: seq<Reading>, config: Config)
    requires StatusOf(m, readings, config) && StatusOf(m', p, config)
    requires forall id :: LastSaid(readings, id) == LastSaid(p, id)
    requires multiset(DegradingSaid(readings)) == multiset(DegradingSaid(p))
    ensures m == m'
  {
    hide LastSaid, DegradingSaid, DisabledOf, ErrorOf;
    SameError(DegradingSaid(readings), DegradingSaid(p), Get(m, ErrorStatus), Get(m', ErrorStatus));
    forall id: StatusID ensures Get(m, id) == Get(m', id) {
      var topics := {UploadStatus, DownloadStatus, RemoteConfigAvailableStatus};
      assert id in topics || id == ErrorStatus || id == DisabledStatus;
    }
    SameByGet(m, m');
  }

  lemma {:induction false} SameByGet<K, V>(m: map<K, V>, m': map<K, V>)
    requires forall k :: Get(m, k) == Get(m', k)
    ensures m == m'
  {
    forall k ensures k in m <==> k in m'
      ensures k in m && k in m' ==> m[k] == m'[k]
    {
      assert Get(m, k) == Get(m', k);
    }
  }

  /** The error depends on the failures only as a multiset: one is unique, several are sorted. */
  lemma {:induction false} SameError(
    a: seq<StatusMessage>, b: seq<StatusMessage>, e: Option<StatusMessage>, f: Option<StatusMessage>)
    requires multiset(a) == multiset(b) && ErrorOf(a, e) && ErrorOf(b, f)
    ensures e == f
  {
    hide Messages, Multiple, Sorted, StrictTotalOrder, StringLess;
    assert |a| == |multiset(a)| == |b|;
    if |a| == 1 {
      assert b[0] in multiset(a);
      assert b[0] in a;
    } else if |a| > 1 {
      MessagesPermute(a, b);
      var s :| Sorted(StringLess, s) && multiset(s) == multiset(Messages(a)) && e == Some(Multiple(s));
      var t :| Sorted(StringLess, t) && multiset(t) == multiset(Messages(b)) && f == Some(Multiple(t));
      StringOrder();
      SortedUnique(StringLess, s, t);
    }
  }

  lemma {:induction false} MessagesConcat(a: seq<StatusMessage>, b: seq<StatusMessage>)
    ensures Messages(a + b) == Messages(a) + Messages(b)
  {
    if b == [] {
      assert a + b == a;
    } else {
      assert (a + b)[..|a + b| - 1] == a + b[..|b| - 1];
      MessagesConcat(a, b[..|b| - 1]);
    }
  }

  lemma {:induction false} MessagesPermute(a: seq<StatusMessage>, b: seq<StatusMessage>)
    requires multiset(a) == multiset(b)
    ensures multiset(Messages(a)) == multiset(Messages(b))
  {
    hide Messages;
    if a == [] {
      assert b == [];
    } else {
      var before, after := Around(a, b);
      var x := [a[|a| - 1]];
      MessagesPermute(a[..|a| - 1], before + after);
      MessagesConcat(a[..|a| - 1], x);
      assert a == a[..|a| - 1] + x;
      MessagesConcat(before + x, after);
      MessagesConcat(before, x);
      MessagesConcat(before, after);
    }
  }

  lemma {:induction false} DegradingConcat(a: seq<Reading>, b: seq<Reading>)
    ensures DegradingSaid(a + b) == DegradingSaid(a) + DegradingSaid(b)
  {
    hide Degrading, Said;
    if b == [] {
      assert a + b == a;
    } else {
      assert (a + b)[..|a + b| - 1] == a + b[..|b| - 1];
      DegradingConcat(a, b[..|b| - 1]);
    }
  }

  lemma {:induction false} SameErrors(a: seq<Reading>, b: seq<Reading>)
    requires multiset(a) == multiset(b)
    ensures multiset(DegradingSaid(a)) == multiset(DegradingSaid(b))
  {
    hide DegradingSaid;
    if a == [] {
      assert b == [];
    } else {
      var before, after := Around(a, b);
      var x := [a[|a| - 1]];
      SameErrors(a[..|a| - 1], before + after);
      DegradingConcat(a[..|a| - 1], x);
      assert a == a[..|a| - 1] + x;
      DegradingConcat(before + x, after);
      DegradingConcat(before, x);
      DegradingConcat(before, after);
    }
  }

  lemma {:induction false} LastSaidBySomeone(readings: seq<Reading>, id: StatusID)
    ensures LastSaid(readings, id) == None ==> forall r :: r in readings ==> Topic(r) != Some(id)
    ensures LastSaid(readings, id).Some? ==>
              exists r :: r in readings && Topic(r) == Some(id) && LastSaid(readings, id) == Some(Said(r))
  {
    hide Topic, Said;
    if readings != [] {
      var n := |readings| - 1;
      LastSaidBySomeone(readings[..n], id);
      assert readings == readings[..n] + [readings[n]];
    }
  }

  lemma {:induction false} TopicsAgree(a: seq<Reading>, b: seq<Reading>)
    requires multiset(a) == multiset(b) && Agree(a)
    ensures forall id :: LastSaid(a, id) == LastSaid(b, id)
  {
    hide LastSaid, Topic, Said;
    assert forall r :: r in a <==> r in multiset(a);
    assert forall r :: r in b <==> r in multiset(b);
    forall id ensures LastSaid(a, id) == LastSaid(b, id) {
      LastSaidBySomeone(a, id);
      LastSaidBySomeone(b, id);
    }
  }

  // ---------- disagreement is seen ----------

  lemma {:induction false} DisagreeingDepends(readings: seq<Reading>, config: Config)
    requires !Agree(readings)
    ensures !SameInEveryOrder(readings, config)
  {
    hide StatusOf, Topic, Said, SameInEveryOrder;
    var i, j :| 0 <= i < |readings| && 0 <= j < |readings| && Topic(readings[i]).Some?
                && Topic(readings[i]) == Topic(readings[j]) && Said(readings[i]) != Said(readings[j]);
    var p := MovedLast(readings, i);
    var q := MovedLast(readings, j);
    var id := Topic(readings[i]).value;
    var m := StatusExists(readings, config);
    var mp := StatusExists(p, config);
    var mq := StatusExists(q, config);
    SaysLast(mp, p, config, id);
    SaysLast(mq, q, config, id);
    if SameInEveryOrder(readings, config) {
      UseSame(readings, config, p, m, mp);
      UseSame(readings, config, q, m, mq);
      assert false;
    }
  }

  lemma {:induction false} UseSame(readings: seq<Reading>, config: Config, p: seq<Reading>, m: StatusMap, m': StatusMap)
    requires SameInEveryOrder(readings, config)
    requires multiset(p) == multiset(readings) && StatusOf(m, readings, config) && StatusOf(m', p, config)
    ensures m == m'
  {}

  lemma {:induction false} MovedLast(readings: seq<Reading>, i: nat) returns (p: seq<Reading>)
    requires i < |readings|
    ensures p != [] && p[|p| - 1] == readings[i] && multiset(p) == multiset(readings)
  {
    assert readings == readings[..i] + [readings[i]] + readings[i + 1..];
    p := readings[..i] + readings[i + 1..] + [readings[i]];
  }

  lemma {:induction false} SaysLast(m: StatusMap, p: seq<Reading>, config: Config, id: StatusID)
    requires p != [] && Topic(p[|p| - 1]) == Some(id) && StatusOf(m, p, config)
    ensures Get(m, id) == Some(Said(p[|p| - 1]))
  {
    hide ErrorOf, DegradingSaid, NameOf;
    assert LastSaid(p, id) == Some(Said(p[|p| - 1]));
    assert id in {UploadStatus, DownloadStatus, RemoteConfigAvailableStatus};
  }

  lemma {:induction false} StatusExists(readings: seq<Reading>, config: Config) returns (m: StatusMap)
    ensures StatusOf(m, readings, config)
  {
    hide LastSaid, DegradingSaid, DisabledOf;
    var error := ErrorExists(DegradingSaid(readings));
    hide ErrorOf;
    var table := map[
      UploadStatus := LastSaid(readings, UploadStatus),
      DownloadStatus := LastSaid(readings, DownloadStatus),
      RemoteConfigAvailableStatus := LastSaid(readings, RemoteConfigAvailableStatus),
      ErrorStatus := error,
      DisabledStatus := DisabledOf(config)];
    m := map id | id in table && table[id].Some? :: table[id].value;
  }

  lemma {:induction false} ErrorExists(said: seq<StatusMessage>) returns (error: Option<StatusMessage>)
    ensures ErrorOf(said, error)
  {
    if |said| <= 1 {
      error := if said == [] then None
        else Some(StatusMessage(if said[0].reason == "" then "UnknownError" else said[0].reason, said[0].message));
    } else {
      var ordered := SortedExists(Messages(said));
      error := Some(Multiple(ordered));
    }
  }

  lemma {:induction false} SortedExists(s: seq<string>) returns (r: seq<string>)
    ensures Sorted(StringLess, r) && multiset(r) == multiset(s)
  {
    hide StringLess, StrictTotalOrder, StrictWeakOrder, Sorted;
    if s == [] {
      r := [];
      NothingToSort();
    } else {
      var t := SortedExists(s[1..]);
      r := Inserted(t, s[0]);
      assert s == [s[0]] + s[1..];
    }
  }

  lemma {:induction false} NothingToSort()
    ensures Sorted(StringLess, [])
  {}

  lemma {:induction false} Inserted(t: seq<string>, x: string) returns (r: seq<string>)
    requires Sorted(StringLess, t)
    ensures Sorted(StringLess, r) && multiset(r) == multiset([x]) + multiset(t)
  {
    hide StringLess, StrictTotalOrder, StrictWeakOrder;
    StringOrder();
    TotalIsWeak(StringLess);
    var k := |t|;
    while k > 0 && StringLess(x, t[k - 1])
      invariant 0 <= k <= |t|
      invariant forall j | k <= j < |t| :: StringLess(x, t[j])
    {
      k := k - 1;
    }
    SortedInsert(StringLess, t, k, x);
    InsertedElements(t, k, x);
    r := t[..k] + [x] + t[k..];
  }

  lemma {:induction false} InsertedElements<T>(t: seq<T>, k: nat, x: T)
    requires k <= |t|
    ensures multiset(t[..k] + [x] + t[k..]) == multiset([x]) + multiset(t)
  {
    assert t == t[..k] + t[k..];
  }
}
