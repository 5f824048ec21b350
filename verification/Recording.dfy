/**
  pkg/recorder/recorder.go: the records kept in memory, their size, and the archive budget.

  Marshalling, safe file names, the anonymizer and the driver are given by their results.
 */
module Recording {
  import opened Options
  import opened Orders
  import opened Sums

  type Time = int

  /** A byte slice: nil or bytes. */
  datatype Data = Nil | Bytes(bytes: seq<nat>)

  function Len(data: Data): nat { if data.Nil? then 0 else |data.bytes| }

  datatype MemoryRecord = MemoryRecord(name: string, fingerprint: string, at: Time, data: Data)

  datatype Marshalled = Marshalled(data: Data, fingerprint: string)

  /**
    A call of Record: what marshalling makes of the item (NoItem when there is none), the safe file name, the
    time, and what the anonymizer makes of the record (None for an error; the record itself when there is no
    anonymizer).
   */
  datatype Item = NoItem | BadItem | Item(marshalled: Marshalled)

  datatype Request = Request(
    item: Item, recordName: string, at: Time, alwaysStored: bool, anonymize: MemoryRecord -> Option<MemoryRecord>)

  datatype RecordError = EmptyRecord | MarshalFailed | AnonymizeFailed | ExceedsLimit
    | Overwritten(name: string, wasFingerprint: string, fingerprint: string)
    | SameFingerprint(fingerprint: string, existing: Option<string>, name: string)

  type Records = map<string, MemoryRecord>

  datatype Store = Store(size: int, records: Records, recordedFingerprints: map<string, string>)

  const EMPTY := Store(0, map[], map[])

  // ---------- bytes ----------

  function LenAt(m: Records, k: string): nat { if k in m then Len(m[k].data) else 0 }

  function Under(m: Records, names: set<string>): Records { map k | k in m && k in names :: m[k] }

  function DataLen(r: MemoryRecord): nat { Len(r.data) }

  /** The bytes stored under the given names. */
  ghost function BytesOf(m: Records, names: set<string>): nat { Sum(Under(m, names), DataLen) }

  ghost function StoredBytes(m: Records): nat { BytesOf(m, m.Keys) }

  lemma {:induction false} BytesWithout(m: Records, names: set<string>, k: string)
    requires k in names
    ensures BytesOf(m, names) == LenAt(m, k) + BytesOf(m, names - {k})
  {
    hide Sum;
    if k in m {
      SumWithout(Under(m, names), DataLen, k);
      assert Under(m, names) - {k} == Under(m, names - {k});
    } else {
      assert Under(m, names) == Under(m, names - {k});
    }
  }

  lemma {:induction false} SameBytes(m: Records, m': Records, names: set<string>)
    requires forall k | k in names :: if k in m then k in m' && m'[k] == m[k] else k !in m'
    ensures BytesOf(m, names) == BytesOf(m', names)
  {
    hide Sum;
    assert Under(m, names) == Under(m', names);
  }

  lemma {:induction false} FewerBytes(m: Records, names: set<string>, more: set<string>)
    requires names <= more
    ensures BytesOf(m, names) <= BytesOf(m, more)
  {
    hide Sum;
    SumOfFewer(Under(m, names), Under(m, more), DataLen);
  }

  lemma {:induction false} StoredAfterPut(m: Records, r: MemoryRecord)
    ensures StoredBytes(m[r.name := r]) == StoredBytes(m) - LenAt(m, r.name) + Len(r.data)
  {
    hide BytesOf;
    var k, m' := r.name, m[r.name := r];
    BytesWithout(m', m'.Keys, k);
    SameBytes(m, m', m'.Keys - {k});
    if k in m {
      BytesWithout(m, m.Keys, k);
      assert m.Keys - {k} == m'.Keys - {k};
    } else {
      assert m.Keys == m'.Keys - {k};
    }
  }

  // ---------- one call of Record ----------

  function Marshal(rq: Request): MemoryRecord
    requires rq.item.Item?
  {
    MemoryRecord(rq.recordName, rq.item.marshalled.fingerprint, rq.at, rq.item.marshalled.data)
  }

  /** What is stored when the call succeeds. */
  function Kept(rq: Request): Option<MemoryRecord>
  {
    if rq.item.Item? then rq.anonymize(Marshal(rq)) else None
  }

  function RecordSize(rq: Request): nat { if rq.item.Item? then Len(rq.item.marshalled.data) else 0 }

  function Rejection(s: Store, rq: Request, maxArchiveSize: int): Option<RecordError>
  {
    if rq.item.NoItem? then Some(EmptyRecord)
    else if rq.item.BadItem? then Some(MarshalFailed)
    else if Kept(rq).None? then Some(AnonymizeFailed)
    else if s.size + RecordSize(rq) > maxArchiveSize && !rq.alwaysStored then Some(ExceedsLimit) else None
  }

  function Stored(s: Store, rq: Request): Store
    requires Kept(rq).Some?
  {
    var r := Kept(rq).value;
    Store(s.size - LenAt(s.records, r.name) + RecordSize(rq), s.records[r.name := r],
          s.recordedFingerprints[rq.item.marshalled.fingerprint := rq.recordName])
  }

  function Recorded(s: Store, rq: Request, maxArchiveSize: int): Store
  {
    if Rejection(s, rq, maxArchiveSize).Some? then s else Stored(s, rq)
  }

  /** The warnings of a call that stores its record: an overwritten name, then a repeated fingerprint. */
  function Warnings(s: Store, rq: Request): seq<RecordError>
    requires Kept(rq).Some?
  {
    var r := Kept(rq).value;
    var fp := rq.item.marshalled.fingerprint;
    var records := s.records[r.name := r];
    (if r.name in s.records then [Overwritten(r.name, s.records[r.name].fingerprint, r.fingerprint)] else [])
    + if fp !in s.recordedFingerprints then []
      else
        var path := s.recordedFingerprints[fp];
        [SameFingerprint(fp, if path in records then Some(records[path].name) else None, r.name)]
  }

  // ---------- Flush ----------

  predicate Newer(a: MemoryRecord, b: MemoryRecord) { a.at > b.at }

  predicate HasData(s: Store) { exists k :: k in s.records && !s.records[k].data.Nil? }

  function Flushed(s: Store): Store { if HasData(s) then EMPTY else s }

  predicate NamesDistinct(records: seq<MemoryRecord>)
  {
    forall i, j | 0 <= i < j < |records| :: records[i].name != records[j].name
  }

  /** What the driver is given: each record that has data, once. */
  ghost predicate Collects(records: seq<MemoryRecord>, m: Records)
  {
    && NamesDistinct(records)
    && forall r :: r in records <==> r.name in m && m[r.name] == r && !r.data.Nil?
  }

  predicate Keyed(m: Records) { forall k | k in m :: m[k].name == k }

  class Recorder {
    const maxArchiveSize: int
    var size: int
    var records: Records
    var recordedFingerprints: map<string, string>

    ghost function View(): Store
      reads this
    {
      Store(size, records, recordedFingerprints)
    }

    constructor (maxArchiveSize: int)
      ensures this.maxArchiveSize == maxArchiveSize && View() == EMPTY
    {
      this.maxArchiveSize := maxArchiveSize;
      size, records, recordedFingerprints := 0, map[], map[];
    }

    method Record(rec: Request) returns (errs: seq<RecordError>)
      modifies this
      ensures View() == Recorded(old(View()), rec, maxArchiveSize)
      ensures errs == if Rejection(old(View()), rec, maxArchiveSize).Some?
                      then [Rejection(old(View()), rec, maxArchiveSize).value] else Warnings(old(View()), rec)
      ensures ExceedsLimit in errs
              <==> rec.item.Item? && !rec.alwaysStored
                   && var data, fingerprint := rec.item.marshalled.data, rec.item.marshalled.fingerprint;
                      && rec.anonymize(MemoryRecord(rec.recordName, fingerprint, rec.at, data)).Some?
                      && old(size) + Len(data) > maxArchiveSize
    {
      errs := [];
      if rec.item.NoItem? {
        return [EmptyRecord];
      }
      if rec.item.BadItem? {
        return [MarshalFailed];
      }
      var data, fingerprint := rec.item.marshalled.data, rec.item.marshalled.fingerprint;
      var recordSize := Len(data);
      var anonymized := rec.anonymize(MemoryRecord(rec.recordName, fingerprint, rec.at, data));
      if anonymized.None? {
        return [AnonymizeFailed];
      }
      var memoryRecord := anonymized.value;
      // only records that need not be stored are held to the limit
      if size + recordSize > maxArchiveSize && !rec.alwaysStored {
        return [ExceedsLimit];
      }
      if memoryRecord.name in records {
        var existingRecord := records[memoryRecord.name];
        errs := [Overwritten(memoryRecord.name, existingRecord.fingerprint, memoryRecord.fingerprint)];
        size := size - Len(existingRecord.data);
      }
      size := size + recordSize;
      records := records[memoryRecord.name := memoryRecord];
      if fingerprint in recordedFingerprints {
        var existingPath := recordedFingerprints[fingerprint];
        var existing := if existingPath in records then Some(records[existingPath].name) else None;
        errs := errs + [SameFingerprint(fingerprint, existing, memoryRecord.name)];
      }
      recordedFingerprints := recordedFingerprints[fingerprint := rec.recordName];
    }

    /** The driver gets what is handed over, if anything; whether it saves or fails, the recorder is then empty. */
    method Flush(saveFails: bool) returns (handed: seq<MemoryRecord>, err: bool)
      requires Keyed(records)
      modifies this
      ensures View() == Flushed(old(View()))
      ensures Collects(handed, old(records))
      ensures forall i, j | 0 <= i < j < |handed| :: handed[i].at >= handed[j].at
      ensures err <==> handed != [] && saveFails
    {
      hide Sorted, StrictWeakOrder, Collects;
      var copies := Copy();
      NothingToSave(View(), copies);
      if |copies| == 0 {
        return copies, false;
      }
      NewerOrder();
      handed := Sort(copies, Newer);
      NewestFirst(handed);
      StillCollects(copies, handed, records);
      Clear();
      SameSize(copies, handed);
      return handed, saveFails;
    }

    /** The records are visited in any order. */
    method Copy() returns (copies: seq<MemoryRecord>)
      requires Keyed(records)
      ensures Collects(copies, records)
    {
      copies := [];
      var todo := records.Keys;
      while todo != {}
        invariant todo <= records.Keys && NamesDistinct(copies)
        invariant forall r :: r in copies <==>
                    r.name in records && r.name !in todo && records[r.name] == r && !r.data.Nil?
        decreases |todo|
      {
        var k :| k in todo;
        todo := todo - {k};
        if !records[k].data.Nil? {
          copies := copies + [records[k]];
        }
      }
    }

    method Clear()
      modifies this
      ensures View() == EMPTY
    {
      records := map[];
      recordedFingerprints := map[];
      size := 0;
    }
  }

  lemma {:induction false} NothingToSave(s: Store, copies: seq<MemoryRecord>)
    requires Collects(copies, s.records) && Keyed(s.records)
    ensures copies != [] <==> HasData(s)
  {
    if HasData(s) {
      var k :| k in s.records && !s.records[k].data.Nil?;
      assert s.records[k] in copies;
    }
    if copies != [] {
      assert copies[0] in copies;
    }
  }

  lemma {:induction false} NewestFirst(handed: seq<MemoryRecord>)
    requires Sorted(Newer, handed)
    ensures forall i, j | 0 <= i < j < |handed| :: handed[i].at >= handed[j].at
  {}

  lemma {:induction false} NewerOrder()
    ensures StrictWeakOrder(Newer)
  {}

  lemma {:induction false} StillCollects(copies: seq<MemoryRecord>, handed: seq<MemoryRecord>, m: Records)
    requires Collects(copies, m) && multiset(handed) == multiset(copies)
    ensures Collects(handed, m)
  {
    assert forall r :: r in handed <==> r in multiset(handed);
    assert forall r :: r in copies <==> r in multiset(copies);
    forall i, j | 0 <= i < j < |handed| ensures handed[i].name != handed[j].name {
      if handed[i].name == handed[j].name {
        assert handed[i] in handed && handed[j] in handed;
        assert handed[i] == handed[j];
        CountsTwice(handed, i, j);
        CountsOnce(copies, handed[i]);
        assert false;
      }
    }
  }

  lemma {:induction false} CountsOnce(s: seq<MemoryRecord>, r: MemoryRecord)
    requires NamesDistinct(s)
    ensures multiset(s)[r] <= 1
  {
    if s != [] {
      var init, last := s[..|s| - 1], s[|s| - 1];
      CountsOnce(init, r);
      assert s == init + [last];
      assert multiset(s)[r] == multiset(init)[r] + if last == r then 1 else 0;
      if last == r {
        assert r !in init;
      }
    }
  }
}
