/**
  pkg/controllerstatus/controllerstatus.go: a status source and its run-length counter.

  Times are integers, the zero time is ZERO_TIME, and the clock's answer is a parameter of UpdateStatus.
 */
module ControllerStatuses {

  type Time = int

  const ZERO_TIME: Time := 0

  datatype Operation = Operation(name: string, httpStatusCode: int)

  datatype Summary = Summary(
    operation: Operation, healthy: bool, reason: string, message: string, lastTransitionTime: Time, count: int)

  const NO_SUMMARY := Summary(Operation("", 0), false, "", "", ZERO_TIME, 0)

  /** The stored summary after one update. */
  function Updated(s: Summary, update: Summary, now: Time): Summary
  {
    if update.count > 0 then update
    else if s.healthy != update.healthy then update.(count := 1)
    else
      var stamped := if update.lastTransitionTime == ZERO_TIME then now else s.lastTransitionTime;
      if s.message != update.message || s.reason != update.reason
      then update.(count := s.count + 1)
      else s.(count := s.count + 1, lastTransitionTime := stamped)
  }

  class Simple {
    const name: string
    var summary: Summary

    constructor (name: string)
      ensures this.name == name && summary == NO_SUMMARY
    {
      this.name, summary := name, NO_SUMMARY;
    }

    method UpdateStatus(update: Summary, now: Time)
      modifies this
      ensures summary == Updated(old(summary), update, now)
    {
      if update.lastTransitionTime == ZERO_TIME {
        summary := summary.(lastTransitionTime := now);
      }
      if update.count > 0 {
        summary := update;
        return;
      }
      if summary.healthy != update.healthy {
        summary := update;
        summary := summary.(count := 1);
        summary := summary.(lastTransitionTime := update.lastTransitionTime);
        return;
      }
      summary := summary.(count := summary.count + 1);
      if summary.message != update.message || summary.reason != update.reason {
        summary := summary.(reason := update.reason);
        summary := summary.(message := update.message);
        summary := summary.(operation := update.operation);
        summary := summary.(lastTransitionTime := update.lastTransitionTime);
      }
    }

    function CurrentStatus(): (Summary, bool)
      reads this
    {
      if summary.count == 0 then (NO_SUMMARY, false) else (summary, true)
    }
  }

  // ---------- runs ----------

  datatype Update = Update(summary: Summary, now: Time)

  function Run(updates: seq<Update>): Summary
  {
    if updates == [] then NO_SUMMARY
    else
      var last := updates[|updates| - 1];
      Updated(Run(updates[..|updates| - 1]), last.summary, last.now)
  }

  /** The update's health differs from the one before (at first: from unhealthy), or it carries a count. */
  predicate StartsCounting(updates: seq<Update>, k: nat)
    requires k < |updates|
  {
    var u := updates[k].summary;
    u.count > 0 || u.healthy != (k > 0 && updates[k - 1].summary.healthy)
  }

  /** The stored health and wording are always those of the last update. */
  lemma {:induction false} LatestWording(updates: seq<Update>)
    requires updates != []
    ensures var s, u := Run(updates), updates[|updates| - 1].summary;
            s.healthy == u.healthy && s.reason == u.reason && s.message == u.message
  {
    if |updates| > 1 {
      LatestWording(updates[..|updates| - 1]);
    }
  }

  /** Where counting last started, if it did: the counter is that update's, or one, plus the updates since. */
  lemma {:induction false} CountIsRunLength(updates: seq<Update>, k: nat)
    requires k < |updates| ==> StartsCounting(updates, k)
    requires forall j | k < j < |updates| :: !StartsCounting(updates, j)
    requires k >= |updates| ==> forall j | 0 <= j < |updates| :: !StartsCounting(updates, j)
    ensures k < |updates| ==>
              var c := updates[k].summary.count;
              Run(updates).count == (if c > 0 then c else 1) + |updates| - 1 - k
    ensures k >= |updates| ==> Run(updates).count == |updates|
  {
    if updates != [] {
      var before := updates[..|updates| - 1];
      if before != [] {
        LatestWording(before);
      }
      assert StartsCounting(updates, |updates| - 1) <==> k == |updates| - 1;
      assert forall j | 0 <= j < |before| :: StartsCounting(before, j) == StartsCounting(updates, j);
      if k != |updates| - 1 {
        CountIsRunLength(before, k);
      }
    }
  }

  /**
    With no counts carried by the updates, the counter of a source that now fails has reached n exactly when
    the last n updates were failures.
   */
  lemma {:induction false} CountReaches(updates: seq<Update>, n: nat)
    requires forall k | 0 <= k < |updates| :: updates[k].summary.count <= 0
    requires n > 0
    ensures !Run(updates).healthy && Run(updates).count >= n
            <==> n <= |updates| && forall k | |updates| - n <= k < |updates| :: !updates[k].summary.healthy
  {
    if updates != [] {
      var before := updates[..|updates| - 1];
      LatestWording(updates);
      if before != [] {
        LatestWording(before);
      }
      CountNotNegative(before);
      assert forall k | 0 <= k < |before| :: before[k] == updates[k];
      if n > 1 {
        CountReaches(before, n - 1);
      }
      assert updates[|updates| - 1] in updates;
    }
  }

  lemma {:induction false} CountNotNegative(updates: seq<Update>)
    ensures Run(updates).count >= 0
  {
    if updates != [] {
      CountNotNegative(updates[..|updates| - 1]);
    }
  }

  /** A source is ready exactly when it has been updated. */
  lemma {:induction false} ReadyOnceUpdated(updates: seq<Update>)
    ensures Run(updates).count > 0 <==> updates != []
  {
    if updates != [] {
      CountNotNegative(updates[..|updates| - 1]);
    }
  }

  /** What a source answers after its updates: nothing before the first one, then the health and words of the last. */
  lemma {:induction false} AnswersAfterUpdates(source: Simple, updates: seq<Update>)
    requires source.summary == Run(updates)
    ensures source.CurrentStatus().1 <==> updates != []
    ensures updates == [] ==> source.CurrentStatus().0 == Summary(Operation("", 0), false, "", "", ZERO_TIME, 0)
    ensures updates != [] ==>
              var answered, last := source.CurrentStatus().0, updates[|updates| - 1].summary;
              && answered.healthy == last.healthy && answered.reason == last.reason && answered.message == last.message
              && answered.count == Run(updates).count > 0 && answered.operation == Run(updates).operation
  {
    ReadyOnceUpdated(updates);
    if updates != [] {
      LatestWording(updates);
    }
  }

  /** The update is stored whole: it carries a count, or changes health, reason or message. */
  predicate Stored(updates: seq<Update>, k: nat)
    requires k < |updates|
  {
    var u := updates[k].summary;
    var p := if k == 0 then NO_SUMMARY else updates[k - 1].summary;
    u.count > 0 || u.healthy != p.healthy || u.reason != p.reason || u.message != p.message
  }

  /**
    The operation, with its HTTP status code, is that of the last update that was stored: a new status code
    under the same health, reason and message is not taken over.
   */
  lemma {:induction false} OperationIsLastStored(updates: seq<Update>, k: nat)
    requires k < |updates| ==> Stored(updates, k)
    requires forall j | k < j < |updates| :: !Stored(updates, j)
    requires k >= |updates| ==> forall j | 0 <= j < |updates| :: !Stored(updates, j)
    ensures Run(updates).operation == if k < |updates| then updates[k].summary.operation else NO_SUMMARY.operation
  {
    if updates != [] {
      var before := updates[..|updates| - 1];
      if before != [] {
        LatestWording(before);
      }
      assert Stored(updates, |updates| - 1) <==> k == |updates| - 1;
      assert forall j | 0 <= j < |before| :: Stored(before, j) == Stored(updates, j);
      if k != |updates| - 1 {
        OperationIsLastStored(before, k);
      }
    }
  }

  /** A server error after a client error in the same words keeps the client error's status code. */
  lemma {:induction false} StaleStatusCode(name: string, reason: string, message: string, t: Time)
    requires reason != ""
    ensures var first := Summary(Operation(name, 404), false, reason, message, t, 0);
            var second := first.(operation := Operation(name, 500));
            Run([Update(first, t), Update(second, t)]).operation == Operation(name, 404)
  {
    var first := Summary(Operation(name, 404), false, reason, message, t, 0);
    var second := first.(operation := Operation(name, 500));
    var updates := [Update(first, t), Update(second, t)];
    OperationIsLastStored(updates, 0);
  }

  /** The clock's answer survives only when nothing changed; a changed summary keeps the zero time it came with. */
  lemma {:induction false} ClockIsLostOnChange(updates: seq<Update>, u: Update)
    requires u.summary.lastTransitionTime == ZERO_TIME && u.now != ZERO_TIME
    ensures Run(updates + [u]).lastTransitionTime == u.now <==> !Stored(updates + [u], |updates|)
    ensures Run(updates + [u]).lastTransitionTime == ZERO_TIME <==> Stored(updates + [u], |updates|)
  {
    assert (updates + [u])[..|updates|] == updates;
    if updates != [] {
      LatestWording(updates);
    }
  }
}
