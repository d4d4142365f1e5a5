/**
 * RrdsExampleCommon: add, update, read, browse and delete stock parts in the
 * RRDS file XMPLRRDS, addressed by relative record number, and empty the file.
 */
module RrdsExampleCommon {
  import opened Cics
  import opened Bean
  import opened JcicsFile
  import opened VsamCommon

  const FILE_NAME: string := "XMPLRRDS"

  /** Integer.MAX_VALUE: emptyFile's loop stops before this RRN. */
  const INTEGER_MAX_VALUE: nat := 0x7FFF_FFFF

  /** The RRNs lo, lo + 1, ..., hi - 1. */
  ghost function RrnsBetween(lo: nat, hi: nat): (rrns: set<nat>)
    ensures forall rrn :: rrn in rrns <==> lo <= rrn < hi
    decreases hi - lo
  {
    if lo >= hi then {} else {lo} + RrnsBetween(lo + 1, hi)
  }

  /** Deleting RRN `rrn` after RRNs 1 to rrn - 1 leaves the records past `rrn`. */
  lemma DeletedThrough<R>(records: map<nat, R>, rrn: nat)
    requires rrn >= 1
    ensures records - RrnsBetween(1, rrn) - {rrn} == records - RrnsBetween(1, rrn + 1)
  {
    assert RrnsBetween(1, rrn + 1) == RrnsBetween(1, rrn) + {rrn};
  }

  /**
   * The RRN at which emptyFile's loop stops: the first from `rrn` on whose READ
   * UPDATE fails or finds no record, or whose DELETE fails, or Integer.MAX_VALUE.
   */
  function FirstStop<R>(records: map<nat, R>, faults: Faults, rrn: nat): (stop: nat)
    requires 1 <= rrn <= INTEGER_MAX_VALUE
    ensures rrn <= stop <= INTEGER_MAX_VALUE
    ensures stop < INTEGER_MAX_VALUE ==> stop in faults.read || stop !in records || stop in faults.delete
    ensures forall k :: rrn <= k < stop ==> k !in faults.read && k in records && k !in faults.delete
    decreases INTEGER_MAX_VALUE - rrn
  {
    if rrn == INTEGER_MAX_VALUE || rrn in faults.read || rrn !in records || rrn in faults.delete then rrn
    else FirstStop(records, faults, rrn + 1)
  }

  /** The loop stops at `rrn` when it got past RRNs 1 to rrn - 1 and cannot get past `rrn`. */
  lemma FirstStopAt<R>(records: map<nat, R>, faults: Faults, rrn: nat)
    requires 1 <= rrn <= INTEGER_MAX_VALUE
    requires forall k :: 1 <= k < rrn ==> k !in faults.read && k in records && k !in faults.delete
    requires rrn == INTEGER_MAX_VALUE || rrn in faults.read || rrn !in records || rrn in faults.delete
    ensures FirstStop(records, faults, 1) == rrn
  {
  }

  /**
   * How emptyFile ends when a READ UPDATE or a DELETE raises `c`: NOTFND from
   * either is the normal end of the loop.
   */
  function EmptyFileStop(c: Condition): Result<(), Failure> {
    if c == RecordNotFound then Ok(()) else Err(Rethrow(EmptyFileRequest, c))
  }

  class RrdsExampleCommon {
    const rrds: RrdsFile<StockPart>

    constructor(file: RrdsFile<StockPart>)
      requires file.name == FILE_NAME
      ensures rrds == file
    {
      rrds := file;
    }

    /** addRecord: writes `sp` at RRN `rrn`. */
    method AddRecord(rrn: nat, sp: StockPart) returns (r: Result<(), Failure>)
      requires rrds.Valid()
      modifies rrds
      ensures rrds.Valid() && rrds.locked == old(rrds.locked)
      ensures rrds.Refused(AddAccess).Some? ==>
                r == Err(Rethrow(AddRequest, rrds.Refused(AddAccess).value)) && rrds.records == old(rrds.records)
      ensures rrds.Refused(AddAccess).None? && rrn in old(rrds.records) ==>
                r == Err(Rethrow(AddRequest, DuplicateRecord)) && rrds.records == old(rrds.records)
      ensures rrds.Refused(AddAccess).None? && rrn !in old(rrds.records) ==>
                r == Ok(()) && rrds.records == old(rrds.records)[rrn := sp]
    {
      var c := rrds.Write(rrn, sp);
      r := Conclude(AddRequest, c, ());
    }

    /** updateRecord: locks the record at `rrn`, replaces its description and rewrites it. */
    method UpdateRecord(rrn: nat, description: string) returns (r: Result<StockPart, Failure>)
      requires rrds.Valid()
      modifies rrds
      ensures rrds.Valid()
      ensures old(rrds.Lookup(UpdateAccess, rrn)).Err? ==>
                && r == Err(Rethrow(UpdateRequest, old(rrds.Lookup(UpdateAccess, rrn)).error))
                && rrds.records == old(rrds.records) && rrds.locked == old(rrds.locked)
      ensures old(rrds.Lookup(UpdateAccess, rrn)).Ok? && rrds.RewriteFault(rrn).Some? ==>
                && r == Err(Rethrow(UpdateRequest, rrds.RewriteFault(rrn).value))
                && rrds.records == old(rrds.records) && rrds.locked == Some(rrn)
      ensures old(rrds.Lookup(UpdateAccess, rrn)).Ok? && rrds.RewriteFault(rrn).None? ==>
                && r == Ok(old(rrds.records)[rrn].(description := description))
                && rrds.records == old(rrds.records)[rrn := r.value]
                && rrds.locked == None
    {
      var read := rrds.ReadForUpdate(rrn);
      if read.Err? {
        r := Err(Rethrow(UpdateRequest, read.error));
        return;
      }
      var sp := read.value.(description := description);
      var c := rrds.Rewrite(sp);
      r := Conclude(UpdateRequest, c, sp);
    }

    /** readRecord: the record at `rrn`. */
    method ReadRecord(rrn: nat) returns (r: Result<StockPart, Failure>)
      ensures rrds.Refused(ReadAccess).Some? ==> r == Err(Rethrow(ReadRequest, rrds.Refused(ReadAccess).value))
      ensures rrds.Refused(ReadAccess).None? && rrn in rrds.faults.read ==>
                r == Err(Rethrow(ReadRequest, rrds.faults.read[rrn]))
      ensures rrds.Refused(ReadAccess).None? && rrn !in rrds.faults.read && rrn in rrds.records ==>
                r == Ok(rrds.records[rrn])
      ensures rrds.Refused(ReadAccess).None? && rrn !in rrds.faults.read && rrn !in rrds.records ==>
                r == Err(RuntimeFailure(RecordNotFound, NotFoundReported))
    {
      var read := rrds.Read(rrn);
      r := Lift(ReadRequest, read);
    }

    /** browse: up to `count` records from RRN `start` on, in RRN order. */
    method Browse(start: nat, count: int) returns (r: Result<seq<StockPart>, Failure>)
      ensures r == BrowseOutcome(rrds.Refused(BrowseAccess), rrds.ScanFrom(start), count)
    {
      if count < 0 {
        return Err(IllegalArgument(count));
      }
      var started := rrds.StartBrowse(start);
      if started.Err? {
        return BrowseStop(started.error, []);
      }
      r := BrowseLoop(started.value, count);
    }

    /** deleteRecord: locks the record at `rrn`, deletes it and returns it as it stood. */
    method DeleteRecord(rrn: nat) returns (r: Result<StockPart, Failure>)
      requires rrds.Valid()
      modifies rrds
      ensures rrds.Valid()
      ensures old(rrds.Lookup(UpdateAccess, rrn)).Err? ==>
                && r == Err(Rethrow(LockForDeleteRequest, old(rrds.Lookup(UpdateAccess, rrn)).error))
                && rrds.records == old(rrds.records) && rrds.locked == old(rrds.locked)
      ensures old(rrds.Lookup(UpdateAccess, rrn)).Ok? && rrds.DeleteFault(rrn).Some? ==>
                && r == Err(Rethrow(DeleteRequest, rrds.DeleteFault(rrn).value))
                && rrds.records == old(rrds.records) && rrds.locked == Some(rrn)
      ensures old(rrds.Lookup(UpdateAccess, rrn)).Ok? && rrds.DeleteFault(rrn).None? ==>
                && r == Ok(old(rrds.records)[rrn])
                && rrds.records == old(rrds.records) - {rrn} && rrds.locked == None
    {
      var read := rrds.ReadForUpdate(rrn);
      if read.Err? {
        r := Err(Rethrow(LockForDeleteRequest, read.error));
        return;
      }
      var sp := read.value;
      var c := rrds.Delete();
      r := Conclude(DeleteRequest, c, sp);
    }

    /**
     * emptyFile: locks and deletes the records at RRN 1, 2, ... in turn, and
     * stops at the first RRN that holds no record (NOTFND from the READ UPDATE
     * or the DELETE); any other condition on the way escapes with the records
     * before it deleted.
     */
    method EmptyFile() returns (r: Result<(), Failure>)
      requires rrds.Valid()
      modifies rrds
      ensures rrds.Valid()
      ensures old(rrds.Lookup(UpdateAccess, 1)).Err? ==>
                && r == EmptyFileStop(old(rrds.Lookup(UpdateAccess, 1)).error)
                && rrds.records == old(rrds.records) && rrds.locked == old(rrds.locked)
      ensures old(rrds.Lookup(UpdateAccess, 1)).Ok? && rrds.Refused(DeleteAccess).Some? ==>
                && r == EmptyFileStop(rrds.Refused(DeleteAccess).value)
                && rrds.records == old(rrds.records) && rrds.locked == Some(1)
      ensures rrds.Refused(UpdateAccess).None? && rrds.Refused(DeleteAccess).None? ==>
                var stop := FirstStop(old(rrds.records), rrds.faults, 1);
                && rrds.records == old(rrds.records) - RrnsBetween(1, stop)
                && (stop == INTEGER_MAX_VALUE ==> r == Ok(()) && rrds.locked == None)
                && (stop < INTEGER_MAX_VALUE && stop in rrds.faults.read ==>
                      && r == EmptyFileStop(rrds.faults.read[stop])
                      && rrds.locked == (if stop == 1 then old(rrds.locked) else None))
                && (stop < INTEGER_MAX_VALUE && stop !in rrds.faults.read && stop !in old(rrds.records) ==>
                      r == Ok(()) && rrds.locked == (if stop == 1 then old(rrds.locked) else None))
                && (stop < INTEGER_MAX_VALUE && stop !in rrds.faults.read && stop in old(rrds.records) ==>
                      r == EmptyFileStop(rrds.faults.delete[stop]) && rrds.locked == Some(stop))
    {
      var rrn: nat := 1;
      assert old(rrds.records) - RrnsBetween(1, 1) == old(rrds.records);
      while rrn < INTEGER_MAX_VALUE
        invariant 1 <= rrn <= INTEGER_MAX_VALUE
        invariant rrds.Valid()
        invariant forall k :: 1 <= k < rrn ==>
                    k !in rrds.faults.read && k in old(rrds.records) && k !in rrds.faults.delete
        invariant rrds.records == old(rrds.records) - RrnsBetween(1, rrn)
        invariant rrds.locked == (if rrn == 1 then old(rrds.locked) else None)
        invariant rrn > 1 ==> rrds.Refused(UpdateAccess).None? && rrds.Refused(DeleteAccess).None?
        decreases INTEGER_MAX_VALUE - rrn
      {
        var read := rrds.ReadForUpdate(rrn);
        if read.Err? {
          if rrds.Refused(UpdateAccess).None? {
            assert rrn !in RrnsBetween(1, rrn);
            FirstStopAt(old(rrds.records), rrds.faults, rrn);
          }
          r := EmptyFileStop(read.error);
          return;
        }
        var c := rrds.Delete();
        if c.Some? {
          if rrds.Refused(DeleteAccess).None? {
            FirstStopAt(old(rrds.records), rrds.faults, rrn);
          }
          r := EmptyFileStop(c.value);
          return;
        }
        DeletedThrough(old(rrds.records), rrn);
        rrn := rrn + 1;
      }
      FirstStopAt(old(rrds.records), rrds.faults, rrn);
      r := Ok(());
    }
  }

  /** emptyFile leaves a file with records at RRNs 1 to n empty, when none of their requests fails. */
  lemma EmptyFileEmptiesNumberedFile<R>(records: map<nat, R>, faults: Faults, n: nat)
    requires n < INTEGER_MAX_VALUE
    requires records.Keys == RrnsBetween(1, n + 1)
    requires forall k :: 1 <= k <= n ==> k !in faults.read && k !in faults.delete
    ensures records - RrnsBetween(1, FirstStop(records, faults, 1)) == map[]
  {
    var stop := FirstStop(records, faults, 1);
    assert n + 1 !in records;
    assert stop <= n + 1;
  }

  /** emptyFile stops at the first unused RRN: a record after a gap survives it. */
  lemma EmptyFileStopsAtFirstGap<R>(records: map<nat, R>, faults: Faults, rrn: nat)
    requires 1 <= rrn < INTEGER_MAX_VALUE
    requires rrn !in records
    ensures forall k :: k >= rrn && k in records ==> k in records - RrnsBetween(1, FirstStop(records, faults, 1))
  {
    assert FirstStop(records, faults, 1) <= rrn;
  }
}
