/** pkg/recorder/recorder.go: the archive budget over any run of Record and Flush. */
module RecordingRuns {
  import opened Options
  import opened Orders
  import opened Recording

  datatype Op = RecordOp(request: Request) | FlushOp

  /** The store, and the requests stored since it was last emptied, in order. */
  datatype History = History(store: Store, stored: seq<Request>)

  function After(ops: seq<Op>, maxArchiveSize: int): (h: History)
    ensures forall i | 0 <= i < |h.stored| :: Kept(h.stored[i]).Some?
  {
    if ops == [] then History(EMPTY, [])
    else
      var h := After(ops[..|ops| - 1], maxArchiveSize);
      match ops[|ops| - 1]
      case RecordOp(rq) =>
        if Rejection(h.store, rq, maxArchiveSize).Some? then h
        else History(Recorded(h.store, rq, maxArchiveSize), h.stored + [rq])
      case FlushOp => if HasData(h.store) then History(EMPTY, []) else h
  }

  // ---------- what the stored requests say ----------

  predicate AllKept(stored: seq<Request>) { forall i | 0 <= i < |stored| :: Kept(stored[i]).Some? }

  function Grown(rq: Request): int
    requires Kept(rq).Some?
  {
    Len(Kept(rq).value.data) - RecordSize(rq)
  }

  /** By how much the anonymizer lengthened the stored data, all in all. */
  function Drift(stored: seq<Request>): int
    requires AllKept(stored)
  {
    if stored == [] then 0 else Drift(stored[..|stored| - 1]) + Grown(stored[|stored| - 1])
  }

  /** The same, without what it shortened. */
  function Growth(stored: seq<Request>): nat
    requires AllKept(stored)
  {
    if stored == [] then 0
    else Growth(stored[..|stored| - 1]) + if Grown(stored[|stored| - 1]) > 0 then Grown(stored[|stored| - 1]) else 0
  }

  /** The last stored request under each name. */
  function Latest(stored: seq<Request>): map<string, Request>
    requires AllKept(stored)
  {
    if stored == [] then map[]
    else
      var last := stored[|stored| - 1];
      Latest(stored[..|stored| - 1])[Kept(last).value.name := last]
  }

  /** The names whose record respects the limit. */
  function Limited(stored: seq<Request>): set<string>
    requires AllKept(stored)
  {
    set k | k in Latest(stored) && !Latest(stored)[k].alwaysStored
  }

  predicate HasFingerprint(rq: Request, fp: string) { rq.item.Item? && rq.item.marshalled.fingerprint == fp }

  ghost predicate HoldsRecords(m: Records, stored: seq<Request>)
    requires AllKept(stored)
  {
    && m.Keys == Latest(stored).Keys
    && (forall k | k in m :: Kept(Latest(stored)[k]) == Some(m[k]))
    && Keyed(m)
  }

  ghost predicate HoldsFingerprints(fingerprints: map<string, string>, stored: seq<Request>)
  {
    forall fp :: fp in fingerprints <==> exists i :: 0 <= i < |stored| && HasFingerprint(stored[i], fp)
  }

  ghost predicate HoldsLatest(s: Store, stored: seq<Request>)
    requires AllKept(stored)
  {
    HoldsRecords(s.records, stored) && HoldsFingerprints(s.recordedFingerprints, stored)
  }

  // ---------- the size ----------

  /** The recorder holds the latest record of each name, and its size is the stored bytes less the drift. */
  lemma {:induction false} SizeIsStoredLessDrift(ops: seq<Op>, maxArchiveSize: int)
    ensures var h := After(ops, maxArchiveSize);
            && HoldsLatest(h.store, h.stored)
            && h.store.size == StoredBytes(h.store.records) - Drift(h.stored)
  {
    hide HoldsLatest, StoredBytes, Stored, Kept, RecordSize, Rejection;
    NothingStored();
    if ops != [] {
      var before := ops[..|ops| - 1];
      SizeIsStoredLessDrift(before, maxArchiveSize);
      var h := After(before, maxArchiveSize);
      match ops[|ops| - 1]
      case RecordOp(rq) =>
        if Rejection(h.store, rq, maxArchiveSize).None? {
          KeptWhenAccepted(h.store, rq, maxArchiveSize);
          OneStored(h.store, h.stored, rq);
        }
      case FlushOp =>
    }
  }

  /** When anonymizing keeps lengths, the size is exactly the stored bytes. */
  lemma {:induction false} SizeIsExact(ops: seq<Op>, maxArchiveSize: int)
    requires forall i | 0 <= i < |ops| && ops[i].RecordOp? && Kept(ops[i].request).Some? :: Grown(ops[i].request) == 0
    ensures var s := After(ops, maxArchiveSize).store; s.size == StoredBytes(s.records)
  {
    hide StoredBytes, Kept, Grown;
    SizeIsStoredLessDrift(ops, maxArchiveSize);
    NoDrift(ops, maxArchiveSize);
  }

  // ---------- what is accepted ----------

  /** What the anonymizer makes of the marshalled item. */
  predicate Gives(rq: Request, r: MemoryRecord)
  {
    match rq.item
    case Item(Marshalled(data, fingerprint)) =>
      rq.anonymize(MemoryRecord(rq.recordName, fingerprint, rq.at, data)) == Some(r)
    case _ => false
  }

  /**
    After any run a call of Record changes nothing unless the item is marshalled and anonymized and is always stored
    or fits into the limit by its marshalled length; then exactly the anonymized record is put under its own name,
    in place of an earlier one, and the fingerprint under the safe file name.
   */
  lemma {:induction false} AcceptedExactly(ops: seq<Op>, maxArchiveSize: int, rq: Request)
    ensures var h, h' := After(ops, maxArchiveSize), After(ops + [RecordOp(rq)], maxArchiveSize);
            && ((forall r :: !Gives(rq, r)) ==> h' == h)
            && (forall r | Gives(rq, r) ::
                  var item := rq.item.marshalled;
                  if !rq.alwaysStored && h.store.size + Len(item.data) > maxArchiveSize then h' == h
                  else
                    && h'.stored == h.stored + [rq]
                    && h'.store.records == h.store.records[r.name := r]
                    && h'.store.recordedFingerprints
                       == h.store.recordedFingerprints[item.fingerprint := rq.recordName]
                    && h'.store.size + LenAt(h.store.records, r.name) == h.store.size + Len(item.data))
  {
    assert (ops + [RecordOp(rq)])[..|ops|] == ops;
    assert forall r :: Gives(rq, r) <==> Kept(rq) == Some(r);
    hide Gives, Kept, After;
    AfterOneMore(ops, maxArchiveSize, rq);
    if Kept(rq).Some? {
      assert Gives(rq, Kept(rq).value);
    }
  }

  lemma {:induction false} AfterOneMore(ops: seq<Op>, maxArchiveSize: int, rq: Request)
    ensures var h := After(ops, maxArchiveSize);
            After(ops + [RecordOp(rq)], maxArchiveSize)
            == if Rejection(h.store, rq, maxArchiveSize).Some? then h
               else History(Recorded(h.store, rq, maxArchiveSize), h.stored + [rq])
  {
    hide Rejection, Recorded;
    assert (ops + [RecordOp(rq)])[..|ops|] == ops;
  }

  /** An always stored record stays until a flush or another record of its name, whatever the limit. */
  lemma {:induction false} AlwaysStoredStays(ops: seq<Op>, i: nat, maxArchiveSize: int, r: MemoryRecord)
    requires i < |ops| && ops[i].RecordOp? && ops[i].request.alwaysStored && Gives(ops[i].request, r)
    requires forall j | i < j < |ops| :: ops[j].RecordOp?
    requires forall j, x | i < j < |ops| && Gives(ops[j].request, x) :: x.name != r.name
    ensures var records := After(ops, maxArchiveSize).store.records;
            r.name in records && records[r.name] == r
  {
    var n := |ops| - 1;
    var before, rq := ops[..n], ops[n].request;
    assert ops == before + [RecordOp(rq)];
    AcceptedExactly(before, maxArchiveSize, rq);
    hide Gives, After;
    if i < n {
      AlwaysStoredStays(before, i, maxArchiveSize, r);
    }
  }

  /**
    A stored record is warned of for exactly two reasons: its name has been stored since the store was last emptied,
    with the fingerprint of the latest one of that name, or its fingerprint has.
   */
  lemma {:induction false} WarnedExactly(ops: seq<Op>, maxArchiveSize: int, rq: Request)
    requires Kept(rq).Some?
    ensures var h, r := After(ops, maxArchiveSize), Kept(rq).value;
            var warnings := Warnings(h.store, rq);
            && (r.name in Latest(h.stored) <==> exists e :: e in warnings && e.Overwritten?)
            && (forall was | r.name in Latest(h.stored) && Kept(Latest(h.stored)[r.name]) == Some(was) ::
                  Overwritten(r.name, was.fingerprint, r.fingerprint) in warnings)
            && ((exists k :: 0 <= k < |h.stored| && HasFingerprint(h.stored[k], rq.item.marshalled.fingerprint))
                <==> exists e :: e in warnings && e.SameFingerprint?)
  {
    hide After, Latest, StoredBytes, Drift, Kept;
    SizeIsStoredLessDrift(ops, maxArchiveSize);
    Warned(After(ops, maxArchiveSize).store, rq);
  }

  lemma {:induction false} Warned(s: Store, rq: Request)
    requires Kept(rq).Some?
    ensures var warnings, r := Warnings(s, rq), Kept(rq).value;
            && ((exists e :: e in warnings && e.Overwritten?) <==> r.name in s.records)
            && (r.name in s.records ==> Overwritten(r.name, s.records[r.name].fingerprint, r.fingerprint) in warnings)
            && ((exists e :: e in warnings && e.SameFingerprint?)
                <==> rq.item.marshalled.fingerprint in s.recordedFingerprints)
  {
    var warnings, r := Warnings(s, rq), Kept(rq).value;
    var fp := rq.item.marshalled.fingerprint;
    if r.name in s.records {
      assert warnings[0].Overwritten?;
    }
    if fp in s.recordedFingerprints {
      assert warnings[|warnings| - 1].SameFingerprint?;
    }
  }

  // ---------- flushes ----------

  /**
    Each flush of a run hands over, newest first, exactly the latest record with data of each name stored since the
    last flush that found any, and then nothing is left, unless there was nothing to hand over.
   */
  lemma {:induction false} FlushOfRun(ops: seq<Op>, maxArchiveSize: int, handed: seq<MemoryRecord>)
    requires Collects(handed, After(ops, maxArchiveSize).store.records)
    ensures var h := After(ops, maxArchiveSize);
            && (forall r :: r in handed <==>
                  r.name in Latest(h.stored) && Kept(Latest(h.stored)[r.name]) == Some(r) && !r.data.Nil?)
            && After(ops + [FlushOp], maxArchiveSize) == (if handed == [] then h else History(EMPTY, []))
  {
    hide StoredBytes, Kept, Latest, Drift, HoldsFingerprints;
    var h := After(ops, maxArchiveSize);
    SizeIsStoredLessDrift(ops, maxArchiveSize);
    NothingToSave(h.store, handed);
    assert (ops + [FlushOp])[..|ops|] == ops;
  }

  // ---------- the budget ----------

  /**
    The bytes of records that are not always stored never exceed the limit by more than what anonymizing added
    to the stored data.
   */
  lemma {:induction false} BudgetHolds(ops: seq<Op>, maxArchiveSize: nat)
    ensures var h := After(ops, maxArchiveSize);
            BytesOf(h.store.records, Limited(h.stored)) <= maxArchiveSize + Growth(h.stored)
  {
    hide Stored, Kept, RecordSize, StoredBytes, HoldsLatest, Limited, BytesOf, Rejection;
    NothingStored();
    if ops != [] {
      var before := ops[..|ops| - 1];
      BudgetHolds(before, maxArchiveSize);
      var h := After(before, maxArchiveSize);
      match ops[|ops| - 1]
      case RecordOp(rq) =>
        if Rejection(h.store, rq, maxArchiveSize).None? {
          KeptWhenAccepted(h.store, rq, maxArchiveSize);
          SizeIsStoredLessDrift(before, maxArchiveSize);
          WithinBudget(h.store, h.stored, rq, maxArchiveSize);
        }
      case FlushOp =>
    }
  }

  /** When anonymizing lengthens no record, the budget is respected. */
  lemma {:induction false} BudgetIsRespected(ops: seq<Op>, maxArchiveSize: nat)
    requires forall i | 0 <= i < |ops| && ops[i].RecordOp? && Kept(ops[i].request).Some? :: Grown(ops[i].request) <= 0
    ensures LimitedBytes(ops, maxArchiveSize) <= maxArchiveSize
  {
    hide BytesOf, Kept, Grown, Limited;
    BudgetHolds(ops, maxArchiveSize);
    NoGrowth(ops, maxArchiveSize);
  }

  type Anonymizer = MemoryRecord -> Option<MemoryRecord>

  ghost predicate UsesOnly(ops: seq<Op>, f: Anonymizer)
  {
    forall i | 0 <= i < |ops| && ops[i].RecordOp? :: ops[i].request.anonymize == f
  }

  /** The bytes of records that are not always stored, after a run. */
  ghost function LimitedBytes(ops: seq<Op>, maxArchiveSize: int): nat
  {
    BytesOf(After(ops, maxArchiveSize).store.records, Limited(After(ops, maxArchiveSize).stored))
  }

  ghost predicate KeepsBudget(f: Anonymizer)
  {
    forall ops: seq<Op>, max: nat | UsesOnly(ops, f) :: LimitedBytes(ops, max) <= max
  }

  ghost predicate SizeIsStored(ops: seq<Op>, maxArchiveSize: int)
  {
    var s := After(ops, maxArchiveSize).store;
    s.size == StoredBytes(s.records)
  }

  ghost predicate KeepsSize(
    f: Anonymizer) { forall ops: seq<Op>, max: nat | UsesOnly(ops, f) :: SizeIsStored(ops, max) }

  /**
    Under an anonymizer the budget is respected in every run and for every limit exactly when it lengthens no
    record.
   */
  lemma {:induction false} BudgetExactly(f: Anonymizer)
    ensures KeepsBudget(f) <==> forall r: MemoryRecord :: f(r).Some? ==> Len(f(r).value.data) <= Len(r.data)
  {
    hide LimitedBytes;
    if forall r: MemoryRecord :: f(r).Some? ==> Len(f(r).value.data) <= Len(r.data) {
      forall ops: seq<Op>, max: nat | UsesOnly(ops, f) ensures LimitedBytes(ops, max) <= max {
        BudgetIsRespected(ops, max);
      }
    } else {
      var r: MemoryRecord :| f(r).Some? && Len(f(r).value.data) > Len(r.data);
      OneRecord(r, f);
      assert UsesOnly([RecordOp(RequestFor(r, f))], f);
      assert LimitedBytes([RecordOp(RequestFor(r, f))], Len(r.data)) > Len(r.data);
    }
  }

  /** And the size is the stored bytes in every run exactly when it keeps the length of every record. */
  lemma {:induction false} SizeExactly(f: Anonymizer)
    ensures KeepsSize(f) <==> forall r: MemoryRecord :: f(r).Some? ==> Len(f(r).value.data) == Len(r.data)
  {
    hide StoredBytes, After;
    if forall r: MemoryRecord :: f(r).Some? ==> Len(f(r).value.data) == Len(r.data) {
      forall ops: seq<Op>, max: nat | UsesOnly(ops, f) ensures SizeIsStored(ops, max) {
        SizeIsExact(ops, max);
      }
    } else {
      var r: MemoryRecord :| f(r).Some? && Len(f(r).value.data) != Len(r.data);
      OneRecord(r, f);
      assert UsesOnly([RecordOp(RequestFor(r, f))], f);
      assert !SizeIsStored([RecordOp(RequestFor(r, f))], Len(r.data));
    }
  }

  /** The request that marshals to a given record. */
  function RequestFor(r: MemoryRecord, f: Anonymizer): Request
  {
    Request(Item(Marshalled(r.data, r.fingerprint)), r.name, r.at, false, f)
  }

  /** A single record at its limit: what is stored is what the anonymizer makes of it. */
  lemma {:induction false} OneRecord(r: MemoryRecord, f: Anonymizer)
    requires f(r).Some?
    ensures var ops := [RecordOp(RequestFor(r, f))];
            var s := After(ops, Len(r.data)).store;
            && LimitedBytes(ops, Len(r.data)) == StoredBytes(s.records) == Len(f(r).value.data)
            && s.size == Len(r.data)
  {
    hide BytesOf, After, Limited;
    OneStoredRequest(r, f);
    OneLimited(RequestFor(r, f));
    assert Stored(EMPTY, RequestFor(r, f)).records.Keys == {f(r).value.name};
    OneName(Stored(EMPTY, RequestFor(r, f)).records, f(r).value.name);
  }

  lemma {:induction false} OneStoredRequest(r: MemoryRecord, f: Anonymizer)
    requires f(r).Some?
    ensures var rq := RequestFor(r, f);
            && Kept(rq) == f(r) && After([RecordOp(rq)], Len(r.data)) == History(Stored(EMPTY, rq), [rq])
            && Stored(EMPTY, rq).records == map[f(r).value.name := f(r).value]
            && Stored(EMPTY, rq).size == Len(r.data)
  {
    var rq := RequestFor(r, f);
    assert Marshal(rq) == r;
    assert [RecordOp(rq)][..0] == [];
    assert After([], Len(r.data)) == History(EMPTY, []);
  }

  lemma {:induction false} OneLimited(rq: Request)
    requires Kept(rq).Some? && !rq.alwaysStored
    ensures AllKept([rq]) && Limited([rq]) == {Kept(rq).value.name}
  {
    hide Kept;
    assert [rq][..0] == [];
    assert Latest([rq]) == map[Kept(rq).value.name := rq];
  }

  // ---------- lemmas ----------

  lemma {:induction false} OneName(m: Records, k: string)
    ensures BytesOf(m, {k}) == LenAt(m, k)
  {
    BytesWithout(m, {k}, k);
    assert {k} - {k} == {};
  }

  lemma {:induction false} NothingStored()
    ensures HoldsLatest(EMPTY, []) && StoredBytes(EMPTY.records) == 0 && BytesOf(EMPTY.records, Limited([])) == 0
    ensures Drift([]) == 0 && Growth([]) == 0
  {}

  lemma {:induction false} KeptWhenAccepted(s: Store, rq: Request, maxArchiveSize: int)
    requires Rejection(s, rq, maxArchiveSize).None?
    ensures Kept(rq).Some? && Recorded(s, rq, maxArchiveSize) == Stored(s, rq)
    ensures !rq.alwaysStored ==> s.size + RecordSize(rq) <= maxArchiveSize
  {
    hide Kept, Stored;
  }

  lemma {:induction false} StoredMore(stored: seq<Request>, rq: Request)
    requires AllKept(stored) && Kept(rq).Some?
    ensures AllKept(stored + [rq])
    ensures Drift(stored + [rq]) == Drift(stored) + Grown(rq)
    ensures Growth(stored + [rq]) == Growth(stored) + if Grown(rq) > 0 then Grown(rq) else 0
    ensures Latest(stored + [rq]) == Latest(stored)[Kept(rq).value.name := rq]
  {
    hide Kept, Grown;
    assert (stored + [rq])[..|stored|] == stored;
  }

  lemma {:induction false} OneStored(s: Store, stored: seq<Request>, rq: Request)
    requires AllKept(stored) && Kept(rq).Some? && HoldsLatest(s, stored)
    requires s.size == StoredBytes(s.records) - Drift(stored)
    ensures AllKept(stored + [rq])
    ensures HoldsLatest(Stored(s, rq), stored + [rq])
    ensures Stored(s, rq).size == StoredBytes(Stored(s, rq).records) - Drift(stored + [rq])
  {
    StoredMore(stored, rq);
    StoredAfterPut(s.records, Kept(rq).value);
    hide Kept, Drift, Latest, StoredBytes;
    HoldsMore(s, stored, rq);
  }

  lemma {:induction false} HoldsMore(s: Store, stored: seq<Request>, rq: Request)
    requires AllKept(stored) && Kept(rq).Some? && HoldsLatest(s, stored) && AllKept(stored + [rq])
    requires Latest(stored + [rq]) == Latest(stored)[Kept(rq).value.name := rq]
    ensures HoldsLatest(Stored(s, rq), stored + [rq])
  {
    hide Kept, Latest, HoldsRecords, HasFingerprint;
    RecordsMore(s.records, stored, rq);
    forall fp ensures fp in Stored(s, rq).recordedFingerprints <==>
                      exists i :: 0 <= i < |stored + [rq]| && HasFingerprint((stored + [rq])[i], fp) {
      FingerprintsMore(s, stored, rq, fp);
    }
  }

  lemma {:induction false} RecordsMore(m: Records, stored: seq<Request>, rq: Request)
    requires AllKept(stored) && Kept(rq).Some? && HoldsRecords(m, stored) && AllKept(stored + [rq])
    requires Latest(stored + [rq]) == Latest(stored)[Kept(rq).value.name := rq]
    ensures HoldsRecords(m[Kept(rq).value.name := Kept(rq).value], stored + [rq])
  {
    hide Kept, Latest;
  }

  lemma {:induction false} FingerprintsMore(s: Store, stored: seq<Request>, rq: Request, fp: string)
    requires Kept(rq).Some?
    requires fp in s.recordedFingerprints <==> exists i :: 0 <= i < |stored| && HasFingerprint(stored[i], fp)
    ensures fp in Stored(s, rq).recordedFingerprints
            <==> exists i :: 0 <= i < |stored + [rq]| && HasFingerprint((stored + [rq])[i], fp)
  {
    var all := stored + [rq];
    assert all[|stored|] == rq;
    if fp in s.recordedFingerprints {
      var i :| 0 <= i < |stored| && HasFingerprint(stored[i], fp);
      assert HasFingerprint(all[i], fp);
    }
  }

  lemma {:induction false} WithinBudget(s: Store, stored: seq<Request>, rq: Request, maxArchiveSize: nat)
    requires AllKept(stored) && Kept(rq).Some? && HoldsLatest(s, stored)
    requires s.size == StoredBytes(s.records) - Drift(stored)
    requires !rq.alwaysStored ==> s.size + RecordSize(rq) <= maxArchiveSize
    requires BytesOf(s.records, Limited(stored)) <= maxArchiveSize + Growth(stored)
    ensures AllKept(stored + [rq])
    ensures BytesOf(Stored(s, rq).records, Limited(stored + [rq])) <= maxArchiveSize + Growth(stored + [rq])
  {
    hide BytesOf, Kept, Latest, Growth, Drift;
    StoredMore(stored, rq);
    var k := Kept(rq).value.name;
    var m, m' := s.records, Stored(s, rq).records;
    var names := Limited(stored + [rq]);
    if rq.alwaysStored {
      assert names == Limited(stored) - {k};
      SameBytes(m, m', names);
      FewerBytes(m, names, Limited(stored));
    } else {
      StoredAfterPut(m, Kept(rq).value);
      hide HoldsLatest;
      DriftWithinGrowth(stored);
      LimitedAreStored(s, stored, rq);
      FewerBytes(m', names, m'.Keys);
    }
  }

  lemma {:induction false} LimitedAreStored(s: Store, stored: seq<Request>, rq: Request)
    requires AllKept(stored) && Kept(rq).Some? && HoldsLatest(s, stored)
    ensures AllKept(stored + [rq]) && Limited(stored + [rq]) <= Stored(s, rq).records.Keys
  {
    StoredMore(stored, rq);
    hide Kept, Latest;
  }

  lemma {:induction false} DriftWithinGrowth(stored: seq<Request>)
    requires AllKept(stored)
    ensures Drift(stored) <= Growth(stored)
  {
    hide Kept, Grown;
    if stored != [] {
      DriftWithinGrowth(stored[..|stored| - 1]);
    }
  }

  lemma {:induction false} NoGrowth(ops: seq<Op>, maxArchiveSize: int)
    requires forall i | 0 <= i < |ops| && ops[i].RecordOp? && Kept(ops[i].request).Some? :: Grown(ops[i].request) <= 0
    ensures Growth(After(ops, maxArchiveSize).stored) == 0
  {
    hide Kept, Grown, Stored, HasData, Rejection;
    NothingStored();
    if ops != [] {
      var before := ops[..|ops| - 1];
      NoGrowth(before, maxArchiveSize);
      var h := After(before, maxArchiveSize);
      match ops[|ops| - 1]
      case RecordOp(rq) =>
        if Rejection(h.store, rq, maxArchiveSize).None? {
          KeptWhenAccepted(h.store, rq, maxArchiveSize);
          StoredMore(h.stored, rq);
        }
      case FlushOp =>
    }
  }

  lemma {:induction false} NoDrift(ops: seq<Op>, maxArchiveSize: int)
    requires forall i | 0 <= i < |ops| && ops[i].RecordOp? && Kept(ops[i].request).Some? :: Grown(ops[i].request) == 0
    ensures var h := After(ops, maxArchiveSize); Drift(h.stored) == 0
  {
    hide Kept, Grown, Stored, HasData, Rejection;
    NothingStored();
    if ops != [] {
      var before := ops[..|ops| - 1];
      NoDrift(before, maxArchiveSize);
      var h := After(before, maxArchiveSize);
      match ops[|ops| - 1]
      case RecordOp(rq) =>
        if Rejection(h.store, rq, maxArchiveSize).None? {
          KeptWhenAccepted(h.store, rq, maxArchiveSize);
          StoredMore(h.stored, rq);
        }
      case FlushOp =>
    }
  }
}
