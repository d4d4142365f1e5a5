/**
 * EsdsExampleCommon: add, update, read and browse stock parts in the ESDS file
 * XMPLESDS, addressed by relative byte address (RBA). Records in an ESDS cannot
 * be deleted, so there is no delete operation.
 */
module EsdsExampleCommon {
  import opened Cics
  import opened Bean
  import opened SortedSets
  import opened JcicsFile
  import opened VsamCommon

  const FILE_NAME: string := "XMPLESDS"

  class EsdsExampleCommon {
    const esds: EsdsFile<StockPart>

    constructor(file: EsdsFile<StockPart>)
      requires file.name == FILE_NAME
      ensures esds == file
    {
      esds := file;
    }

    /** addRecord: appends `sp` to the file and returns its RBA. */
    method AddRecord(sp: StockPart) returns (r: Result<nat, Failure>)
      requires esds.Valid()
      modifies esds
      ensures esds.Valid() && esds.locked == old(esds.locked)
      ensures esds.Refused(AddAccess).Some? ==>
                && r == Err(Rethrow(AddRequest, esds.Refused(AddAccess).value))
                && esds.records == old(esds.records) && esds.end == old(esds.end)
      ensures esds.Refused(AddAccess).None? ==>
                && r == Ok(old(esds.end))
                && old(esds.end) !in old(esds.records)
                && esds.records == old(esds.records)[r.value := sp]
                && esds.end == old(esds.end) + esds.recordLength
    {
      var write := esds.Write(sp);
      r := Lift(AddRequest, write);
    }

    /** updateRecord: locks the record at `rba`, replaces its description and rewrites it in place. */
    method UpdateRecord(rba: nat, description: string) returns (r: Result<StockPart, Failure>)
      requires esds.Valid()
      modifies esds
      ensures esds.Valid() && esds.end == old(esds.end)
      ensures old(esds.Lookup(UpdateAccess, rba)).Err? ==>
                && r == Err(Rethrow(UpdateRequest, old(esds.Lookup(UpdateAccess, rba)).error))
                && esds.records == old(esds.records) && esds.locked == old(esds.locked)
      ensures old(esds.Lookup(UpdateAccess, rba)).Ok? && esds.RewriteFault(rba).Some? ==>
                && r == Err(Rethrow(UpdateRequest, esds.RewriteFault(rba).value))
                && esds.records == old(esds.records) && esds.locked == Some(rba)
      ensures old(esds.Lookup(UpdateAccess, rba)).Ok? && esds.RewriteFault(rba).None? ==>
                && r == Ok(old(esds.records)[rba].(description := description))
                && esds.records == old(esds.records)[rba := r.value]
                && esds.locked == None
    {
      var read := esds.ReadForUpdate(rba);
      if read.Err? {
        r := Err(Rethrow(UpdateRequest, read.error));
        return;
      }
      var sp := read.value.(description := description);
      var c := esds.Rewrite(sp);
      r := Conclude(UpdateRequest, c, sp);
    }

    /** readRecord: the record at `rba`. */
    method ReadRecord(rba: nat) returns (r: Result<StockPart, Failure>)
      ensures esds.Refused(ReadAccess).Some? ==> r == Err(Rethrow(ReadRequest, esds.Refused(ReadAccess).value))
      ensures esds.Refused(ReadAccess).None? && rba in esds.faults.read ==>
                r == Err(Rethrow(ReadRequest, esds.faults.read[rba]))
      ensures esds.Refused(ReadAccess).None? && rba !in esds.faults.read && rba in esds.records ==>
                r == Ok(esds.records[rba])
      ensures esds.Refused(ReadAccess).None? && rba !in esds.faults.read && rba !in esds.records ==>
                r == Err(RuntimeFailure(RecordNotFound, NotFoundReported))
    {
      var read := esds.Read(rba);
      r := Lift(ReadRequest, read);
    }

    /** browse: up to `count` records from RBA `rbaStart` on, in the order they were added. */
    method Browse(rbaStart: nat, count: int) returns (r: Result<seq<StockPart>, Failure>)
      ensures r == BrowseOutcome(esds.Refused(BrowseAccess), esds.ScanFrom(rbaStart), count)
    {
      if count < 0 {
        return Err(IllegalArgument(count));
      }
      var started := esds.StartBrowse(rbaStart);
      if started.Err? {
        return BrowseStop(started.error, []);
      }
      r := BrowseLoop(started.value, count);
    }
  }

  /** A record added at the end of the file comes last in the RBA order of every browse that reaches it. */
  lemma AddressesAfterAdd<R>(records: map<nat, R>, end: nat, record: R, start: nat)
    requires forall rba :: rba in records ==> rba < end
    requires start <= end
    ensures AddressesFrom(records[end := record], start) == AddressesFrom(records, start) + [end]
  {
    var before := AddressesFrom(records, start);
    var after := before + [end];
    forall i, j | 0 <= i < j < |after|
      ensures after[i] < after[j]
    {
      if j == |before| {
        assert before[i] in before;
      }
    }
    StrictlyIncreasingUnique(AddressesFrom(records[end := record], start), after);
  }

  /** A browse after an add returns what it returned before, followed by the added record. */
  lemma BrowseAfterAdd<R>(records: map<nat, R>, end: nat, record: R, start: nat)
    requires forall rba :: rba in records ==> rba < end
    requires start <= end
    ensures InAddressOrder(records[end := record], start) == InAddressOrder(records, start) + [record]
  {
    AddressesAfterAdd(records, end, record, start);
    var before := AddressesFrom(records, start);
    assert end !in before;
  }

  /** Every record of the file lies below RBA `end`. */
  ghost predicate Below<R>(records: map<nat, R>, end: nat) {
    forall rba :: rba in records ==> rba < end
  }

  /** The records after one add at RBA `end`. */
  ghost function Added<R>(records: map<nat, R>, end: nat, record: R): map<nat, R> {
    records[end := record]
  }

  /** The records of an ESDS whose end is at `end`, after `added` is appended record by record. */
  ghost function AfterAdds<R>(records: map<nat, R>, end: nat, recordLength: nat, added: seq<R>): map<nat, R>
    decreases |added|
  {
    if added == [] then records
    else AfterAdds(Added(records, end, added[0]), end + recordLength, recordLength, added[1..])
  }

  /**
   * The induction behind BrowseAfterAdds, for any browse order in which an add
   * at the end of the file comes last.
   */
  lemma {:induction false} AddsComeInOrder<R>(browse: (map<nat, R>, nat) -> seq<R>, records: map<nat, R>, end: nat,
                                              recordLength: nat, added: seq<R>, start: nat)
    requires recordLength > 0
    requires Below(records, end)
    requires start <= end
    requires forall m: map<nat, R>, e: nat, r: R, s: nat ::
               Below(m, e) && s <= e ==> browse(Added(m, e, r), s) == browse(m, s) + [r]
    ensures browse(AfterAdds(records, end, recordLength, added), start) == browse(records, start) + added
    decreases |added|
  {
    if added != [] {
      var next := Added(records, end, added[0]);
      assert Below(next, end + recordLength);
      AddsComeInOrder(browse, next, end + recordLength, recordLength, added[1..], start);
      assert [added[0]] + added[1..] == added;
    }
  }

  /**
   * ESDS records are kept in the order they were added: a browse from an RBA at
   * or below the end, after a run of adds, returns what it returned before
   * followed by the added records in order.
   */
  lemma BrowseAfterAdds<R>(records: map<nat, R>, end: nat, recordLength: nat, added: seq<R>, start: nat)
    requires recordLength > 0
    requires forall rba :: rba in records ==> rba < end
    requires start <= end
    ensures InAddressOrder(AfterAdds(records, end, recordLength, added), start) == InAddressOrder(records, start) + added
  {
    forall m: map<nat, R>, e: nat, r: R, s: nat | Below(m, e) && s <= e
      ensures InAddressOrder(Added(m, e, r), s) == InAddressOrder(m, s) + [r]
    {
      BrowseAfterAdd(m, e, r, s);
    }
    AddsComeInOrder(InAddressOrder, records, end, recordLength, added, start);
  }

  /** A browse from the RBA of the first of a run of adds returns exactly the added records, in order. */
  lemma BrowseFromFirstAdd<R>(records: map<nat, R>, end: nat, recordLength: nat, added: seq<R>)
    requires recordLength > 0
    requires forall rba :: rba in records ==> rba < end
    ensures InAddressOrder(AfterAdds(records, end, recordLength, added), end) == added
  {
    BrowseAfterAdds(records, end, recordLength, added, end);
    assert AddressesFrom(records, end) == [];
  }
}
