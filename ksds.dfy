/**
 * KsdsExampleCommon: add, update, read, browse and delete stock parts in the
 * KSDS file XMPLKSDS, whose key is the eight-byte PART-ID field of each record.
 */
module KsdsExampleCommon {
  import opened Cics
  import opened Bean
  import opened BigEndian
  import opened JcicsFile
  import opened VsamCommon
  import opened StockPartHelper

  const FILE_NAME: string := "XMPLKSDS"

  /** Every record is filed under the key StockPartHelper derives from its PART-ID. */
  ghost predicate KeyedByPart(records: map<nat, StockPart>) {
    forall v :: v in records ==> v == FromBytes(GetKey(records[v]))
  }

  /** The key value under which the part with PART-ID `partId` is filed. */
  function KeyValue(partId: PartId): nat {
    FromBytes(GetKeyOf(partId))
  }

  class KsdsExampleCommon {
    const ksds: KsdsFile<StockPart>

    constructor(file: KsdsFile<StockPart>)
      requires file.name == FILE_NAME
      ensures ksds == file
    {
      ksds := file;
    }

    /** The file is well formed and its keys are as long as a PART-ID field. */
    ghost predicate Valid()
      reads this, ksds
    {
      ksds.Valid() && ksds.keyLength == KEY_LENGTH
    }

    /** addRecord: writes `sp` under its own key. */
    method AddRecord(sp: StockPart) returns (r: Result<(), Failure>)
      requires Valid()
      modifies ksds
      ensures Valid() && ksds.locked == old(ksds.locked)
      ensures KeyedByPart(old(ksds.records)) ==> KeyedByPart(ksds.records)
      ensures ksds.Refused(AddAccess).Some? ==>
                r == Err(Rethrow(AddRequest, ksds.Refused(AddAccess).value)) && ksds.records == old(ksds.records)
      ensures ksds.Refused(AddAccess).None? && FromBytes(GetKey(sp)) in old(ksds.records) ==>
                r == Err(Rethrow(AddRequest, DuplicateRecord)) && ksds.records == old(ksds.records)
      ensures ksds.Refused(AddAccess).None? && FromBytes(GetKey(sp)) !in old(ksds.records) ==>
                r == Ok(()) && ksds.records == old(ksds.records)[FromBytes(GetKey(sp)) := sp]
    {
      var key := GetKey(sp);
      var c := ksds.Write(key, sp);
      r := Conclude(AddRequest, c, ());
    }

    /** updateRecord: locks the part with PART-ID `key`, replaces its description and rewrites it. */
    method UpdateRecord(key: PartId, description: string) returns (r: Result<StockPart, Failure>)
      requires Valid()
      modifies ksds
      ensures Valid()
      ensures KeyedByPart(old(ksds.records)) ==> KeyedByPart(ksds.records)
      ensures old(ksds.Lookup(UpdateAccess, GetKeyOf(key))).Err? ==>
                && r == Err(Rethrow(UpdateRequest, old(ksds.Lookup(UpdateAccess, GetKeyOf(key))).error))
                && ksds.records == old(ksds.records) && ksds.locked == old(ksds.locked)
      ensures old(ksds.Lookup(UpdateAccess, GetKeyOf(key))).Ok? && ksds.RewriteFault(KeyValue(key)).Some? ==>
                && r == Err(Rethrow(UpdateRequest, ksds.RewriteFault(KeyValue(key)).value))
                && ksds.records == old(ksds.records) && ksds.locked == Some(KeyValue(key))
      ensures old(ksds.Lookup(UpdateAccess, GetKeyOf(key))).Ok? && ksds.RewriteFault(KeyValue(key)).None? ==>
                && r == Ok(old(ksds.records)[KeyValue(key)].(description := description))
                && ksds.records == old(ksds.records)[KeyValue(key) := r.value]
                && ksds.locked == None
    {
      var keyBytes := GetKeyOf(key);
      var read := ksds.ReadForUpdate(keyBytes);
      if read.Err? {
        r := Err(Rethrow(UpdateRequest, read.error));
        return;
      }
      var sp := read.value.(description := description);
      var c := ksds.Rewrite(sp);
      r := Conclude(UpdateRequest, c, sp);
      if KeyedByPart(old(ksds.records)) {
        KeyIdentifiesPart(sp, read.value);
      }
    }

    /** readRecord: the part with PART-ID `key`. */
    method ReadRecord(key: PartId) returns (r: Result<StockPart, Failure>)
      ensures ksds.Refused(ReadAccess).Some? ==> r == Err(Rethrow(ReadRequest, ksds.Refused(ReadAccess).value))
      ensures ksds.Refused(ReadAccess).None? && KeyValue(key) in ksds.faults.read ==>
                r == Err(Rethrow(ReadRequest, ksds.faults.read[KeyValue(key)]))
      ensures ksds.Refused(ReadAccess).None? && KeyValue(key) !in ksds.faults.read &&
              KeyValue(key) in ksds.records ==>
                r == Ok(ksds.records[KeyValue(key)])
      ensures ksds.Refused(ReadAccess).None? && KeyValue(key) !in ksds.faults.read &&
              KeyValue(key) !in ksds.records ==>
                r == Err(RuntimeFailure(RecordNotFound, NotFoundReported))
      ensures KeyedByPart(ksds.records) && r.Ok? ==> r.value.partId == key
    {
      var keyBytes := GetKeyOf(key);
      var read := ksds.Read(keyBytes);
      r := Lift(ReadRequest, read);
      if KeyedByPart(ksds.records) && r.Ok? {
        PartAtKey(ksds.records, KeyValue(key));
        KeyOrder(r.value.partId, key);
      }
    }

    /** browse: up to `count` parts from PART-ID `startKey` on (search GTEQ), in key order. */
    method Browse(startKey: PartId, count: int) returns (r: Result<seq<StockPart>, Failure>)
      ensures r == BrowseOutcome(ksds.Refused(BrowseAccess), ksds.ScanFrom(GetKeyOf(startKey)), count)
    {
      if count < 0 {
        return Err(IllegalArgument(count));
      }
      var key := GetKeyOf(startKey);
      var started := ksds.StartBrowse(key);
      if started.Err? {
        return BrowseStop(started.error, []);
      }
      r := BrowseLoop(started.value, count);
    }

    /** deleteRecord: locks the part with PART-ID `key`, deletes it and returns it as it stood. */
    method DeleteRecord(key: PartId) returns (r: Result<StockPart, Failure>)
      requires Valid()
      modifies ksds
      ensures Valid()
      ensures KeyedByPart(old(ksds.records)) ==> KeyedByPart(ksds.records)
      ensures old(ksds.Lookup(UpdateAccess, GetKeyOf(key))).Err? ==>
                && r == Err(Rethrow(LockForDeleteRequest, old(ksds.Lookup(UpdateAccess, GetKeyOf(key))).error))
                && ksds.records == old(ksds.records) && ksds.locked == old(ksds.locked)
      ensures old(ksds.Lookup(UpdateAccess, GetKeyOf(key))).Ok? && ksds.DeleteFault(KeyValue(key)).Some? ==>
                && r == Err(Rethrow(DeleteRequest, ksds.DeleteFault(KeyValue(key)).value))
                && ksds.records == old(ksds.records) && ksds.locked == Some(KeyValue(key))
      ensures old(ksds.Lookup(UpdateAccess, GetKeyOf(key))).Ok? && ksds.DeleteFault(KeyValue(key)).None? ==>
                && r == Ok(old(ksds.records)[KeyValue(key)])
                && ksds.records == old(ksds.records) - {KeyValue(key)} && ksds.locked == None
    {
      var keyBytes := GetKeyOf(key);
      var read := ksds.ReadForUpdate(keyBytes);
      if read.Err? {
        r := Err(Rethrow(LockForDeleteRequest, read.error));
        return;
      }
      var sp := read.value;
      var c := ksds.Delete();
      r := Conclude(DeleteRequest, c, sp);
    }
  }

  /** In a file keyed by PART-ID, the record at a key value is the part whose key has that value. */
  lemma PartAtKey(records: map<nat, StockPart>, v: nat)
    requires KeyedByPart(records) && v in records
    ensures v == FromBytes(GetKeyOf(records[v].partId))
  {
    KeyIdentifiesPart(records[v], records[v]);
  }

  /**
   * A browse from PART-ID `startKey` of a file keyed by PART-ID returns the parts
   * in ascending PART-ID order, each at or after `startKey`, and misses none of them.
   */
  lemma BrowseInPartOrder(file: KsdsFile<StockPart>, startKey: PartId)
    requires KeyedByPart(file.records)
    ensures var rs := file.RecordsFrom(GetKeyOf(startKey));
      && (forall i, j :: 0 <= i < j < |rs| ==> rs[i].partId < rs[j].partId)
      && (forall i :: 0 <= i < |rs| ==> rs[i].partId >= startKey)
      && (forall v :: v in file.records && file.records[v].partId >= startKey ==> file.records[v] in rs)
  {
    var records := file.records;
    var addresses := AddressesFrom(records, FromBytes(GetKeyOf(startKey)));
    var rs := RecordsAt(records, addresses);
    assert rs == file.RecordsFrom(GetKeyOf(startKey));
    forall i | 0 <= i < |rs|
      ensures addresses[i] == FromBytes(GetKeyOf(rs[i].partId))
    {
      assert addresses[i] in addresses;
      PartAtKey(records, addresses[i]);
    }
    forall i, j | 0 <= i < j < |rs|
      ensures rs[i].partId < rs[j].partId
    {
      KeyOrder(rs[i].partId, rs[j].partId);
    }
    forall i | 0 <= i < |rs|
      ensures rs[i].partId >= startKey
    {
      assert addresses[i] in addresses;
      KeyOrder(rs[i].partId, startKey);
    }
    forall v | v in records && records[v].partId >= startKey
      ensures records[v] in rs
    {
      PartAtKey(records, v);
      KeyOrder(startKey, records[v].partId);
      assert v in addresses;
      var i :| 0 <= i < |addresses| && addresses[i] == v;
      assert rs[i] == records[v];
    }
  }
}
