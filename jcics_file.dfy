/**
 * The part of the JCICS file API the VSAM samples call: relative record (RRDS),
 * key-sequenced (KSDS) and entry-sequenced (ESDS) data sets, and browse cursors.
 *
 * Each file holds its records by address, remembers the record a READ UPDATE
 * locked, and answers each request as its FILE definition allows. Its `Faults`
 * say which requests fail for other reasons: a standing condition raised by
 * every request, and conditions raised at particular addresses by a REWRITE or
 * DELETE after the READ UPDATE before it was served, or by a READNEXT.
 */
module JcicsFile {
  import opened Cics
  import opened BigEndian
  import opened SortedSets

  /** The operations the FILE definition allows. */
  datatype FileAttributes = FileAttributes(add: bool, read: bool, update: bool, delete: bool, browse: bool)

  datatype Access = AddAccess | ReadAccess | UpdateAccess | DeleteAccess | BrowseAccess

  predicate Allows(attributes: FileAttributes, access: Access) {
    match access
    case AddAccess => attributes.add
    case ReadAccess => attributes.read
    case UpdateAccess => attributes.update
    case DeleteAccess => attributes.delete
    case BrowseAccess => attributes.browse
  }

  /**
   * The condition a request raises before it looks at any record: the standing
   * fault, else INVREQ with RESP2 20 when the definition does not allow it.
   */
  function Refusal(fault: Option<Condition>, attributes: FileAttributes, access: Access): Option<Condition> {
    if fault.Some? then fault
    else if Allows(attributes, access) then None
    else Some(InvalidRequest(RESP2_NOT_PERMITTED))
  }

  /**
   * The conditions a file raises besides those its definition and contents
   * call for: `standing` for every request (NOTOPEN, DISABLED, ...); and, by
   * address, `read` for a READ or READ UPDATE of the record there (IOERR, ...),
   * `rewrite` and `delete` for a REWRITE or DELETE of the record locked there
   * (LENGERR, NOSPACE, IOERR, ...), `readNext` for the READNEXT that reaches it.
   */
  datatype Faults = Faults(standing: Option<Condition>, read: map<nat, Condition>, rewrite: map<nat, Condition>,
                           delete: map<nat, Condition>, readNext: map<nat, Condition>)

  /**
   * The condition a REWRITE or DELETE raises: its refusal, else INVREQ with
   * RESP2 30 when no READ UPDATE holds a record, else the fault at the locked address.
   */
  function ChangeRefusal(refused: Option<Condition>, locked: Option<nat>, faults: map<nat, Condition>)
    : (c: Option<Condition>)
    ensures c.None? <==> refused.None? && locked.Some? && locked.value !in faults
  {
    if refused.Some? then refused
    else if locked.None? then Some(InvalidRequest(RESP2_NO_READ_UPDATE))
    else if locked.value in faults then Some(faults[locked.value])
    else None
  }

  /** The addresses in use at or after `start`, ascending: the order a browse visits them in. */
  function AddressesFrom<R>(records: map<nat, R>, start: nat): (addresses: seq<nat>)
    ensures StrictlyIncreasing(addresses)
    ensures forall a :: a in addresses <==> a in records && a >= start
  {
    Sorted(set a | a in records.Keys && a >= start)
  }

  /** The records at the given addresses, in the same order. */
  function RecordsAt<R>(records: map<nat, R>, addresses: seq<nat>): (rs: seq<R>)
    requires forall a :: a in addresses ==> a in records
    ensures |rs| == |addresses|
    ensures forall i {:trigger addresses[i]} :: 0 <= i < |rs| ==> rs[i] == records[addresses[i]]
  {
    seq(|addresses|, i requires 0 <= i < |addresses| => records[addresses[i]])
  }

  /** The records at or after address `start`, in address order: what a browse from `start` returns. */
  function InAddressOrder<R>(records: map<nat, R>, start: nat): seq<R> {
    RecordsAt(records, AddressesFrom(records, start))
  }

  /** What a browse meets: the records it returns in order, then the condition next() raises. */
  datatype Scan<R> = Scan(delivered: seq<R>, ending: Condition)

  /**
   * The browse of the records at `addresses`: each record up to the first
   * address whose READNEXT fails, then that failure, or ENDFILE after the last.
   */
  function ScanOf<R>(records: map<nat, R>, readNext: map<nat, Condition>, addresses: seq<nat>): (s: Scan<R>)
    requires forall a :: a in addresses ==> a in records
    ensures |s.delivered| <= |addresses|
    ensures forall i :: 0 <= i < |s.delivered| ==> addresses[i] !in readNext && s.delivered[i] == records[addresses[i]]
    ensures |s.delivered| < |addresses| ==>
              addresses[|s.delivered|] in readNext && s.ending == readNext[addresses[|s.delivered|]]
    ensures |s.delivered| == |addresses| ==> s.ending == EndOfFile
    decreases |addresses|
  {
    if addresses == [] then Scan([], EndOfFile)
    else if addresses[0] in readNext then Scan([], readNext[addresses[0]])
    else
      var rest := ScanOf(records, readNext, addresses[1..]);
      Scan([records[addresses[0]]] + rest.delivered, rest.ending)
  }

  /**
   * A browse returns the records in address order with none skipped, up to the
   * first READNEXT failure; with no failure on the way it returns them all and
   * ends with ENDFILE.
   */
  lemma ScanIsPrefix<R>(records: map<nat, R>, readNext: map<nat, Condition>, addresses: seq<nat>)
    requires forall a :: a in addresses ==> a in records
    ensures var s := ScanOf(records, readNext, addresses);
            && s.delivered == RecordsAt(records, addresses)[..|s.delivered|]
            && ((forall a :: a in addresses ==> a !in readNext) <==>
                s == Scan(RecordsAt(records, addresses), EndOfFile))
  {
    var s := ScanOf(records, readNext, addresses);
    var all := RecordsAt(records, addresses);
    assert s.delivered == all[..|s.delivered|];
    if forall a :: a in addresses ==> a !in readNext {
      assert s.delivered == all;
    }
  }

  /** A browse in progress: the records still to be returned, in browse order, and how it ends. */
  class FileBrowse<R> {
    var remaining: seq<R>
    /** What next() raises once no record is left: ENDFILE, or the READNEXT failure that cuts the browse short. */
    const ending: Condition

    constructor(scan: Scan<R>)
      ensures remaining == scan.delivered && ending == scan.ending
    {
      remaining := scan.delivered;
      ending := scan.ending;
    }

    /** next(): the following record, or the ending condition once none is left. */
    method Next() returns (r: Result<R, Condition>)
      modifies this
      ensures old(remaining) == [] ==> r == Err(ending) && remaining == []
      ensures old(remaining) != [] ==> r == Ok(old(remaining)[0]) && remaining == old(remaining)[1..]
    {
      if remaining == [] {
        r := Err(ending);
      } else {
        r := Ok(remaining[0]);
        remaining := remaining[1..];
      }
    }
  }

  // ------------------------------------------------------------------ RRDS

  /** A relative record data set: records addressed by relative record number (RRN). */
  class RrdsFile<R> {
    const name: string
    const attributes: FileAttributes
    const faults: Faults
    var records: map<nat, R>
    var locked: Option<nat>

    ghost predicate Valid()
      reads this
    {
      locked.Some? ==> locked.value in records
    }

    constructor(name: string, attributes: FileAttributes, faults: Faults, records: map<nat, R>)
      ensures this.name == name && this.attributes == attributes && this.faults == faults
      ensures this.records == records && locked == None
      ensures Valid()
    {
      this.name := name;
      this.attributes := attributes;
      this.faults := faults;
      this.records := records;
      this.locked := None;
    }

    function Refused(access: Access): Option<Condition> {
      Refusal(faults.standing, attributes, access)
    }

    /** What a REWRITE raises after a READ UPDATE of the record at `address`. */
    function RewriteFault(address: nat): Option<Condition> {
      ChangeRefusal(Refused(UpdateAccess), Some(address), faults.rewrite)
    }

    /** What a DELETE raises after a READ UPDATE of the record at `address`. */
    function DeleteFault(address: nat): Option<Condition> {
      ChangeRefusal(Refused(DeleteAccess), Some(address), faults.delete)
    }

    /** What a read of `rrn` for `access` returns. */
    function Lookup(access: Access, rrn: nat): Result<R, Condition>
      reads this
    {
      if Refused(access).Some? then Err(Refused(access).value)
      else if rrn in faults.read then Err(faults.read[rrn])
      else if rrn in records then Ok(records[rrn])
      else Err(RecordNotFound)
    }

    /** The records at RRNs at or after `start`, ascending: all a browse from it can return. */
    function RecordsFrom(start: nat): seq<R>
      reads this
    {
      RecordsAt(records, AddressesFrom(records, start))
    }

    /** What a browse from `start` meets: those records up to the first READNEXT failure, then how it ends. */
    function ScanFrom(start: nat): Scan<R>
      reads this
    {
      ScanOf(records, faults.readNext, AddressesFrom(records, start))
    }

    /** write(rrn, record): adds a record at a free RRN. */
    method Write(rrn: nat, record: R) returns (c: Option<Condition>)
      requires Valid()
      modifies this
      ensures Valid() && locked == old(locked)
      ensures Refused(AddAccess).Some? ==> c == Refused(AddAccess) && records == old(records)
      ensures Refused(AddAccess).None? && rrn in old(records) ==> c == Some(DuplicateRecord) && records == old(records)
      ensures Refused(AddAccess).None? && rrn !in old(records) ==> c == None && records == old(records)[rrn := record]
    {
      c := Refused(AddAccess);
      if c.None? {
        if rrn in records {
          c := Some(DuplicateRecord);
        } else {
          records := records[rrn := record];
        }
      }
    }

    /** read(rrn, holder). */
    method Read(rrn: nat) returns (r: Result<R, Condition>)
      ensures r == Lookup(ReadAccess, rrn)
    {
      r := Lookup(ReadAccess, rrn);
    }

    /** readForUpdate(rrn, holder): reads the record and locks it for a rewrite or delete. */
    method ReadForUpdate(rrn: nat) returns (r: Result<R, Condition>)
      requires Valid()
      modifies this
      ensures Valid() && records == old(records)
      ensures r == Lookup(UpdateAccess, rrn)
      ensures locked == if r.Ok? then Some(rrn) else old(locked)
    {
      r := Lookup(UpdateAccess, rrn);
      if r.Ok? {
        locked := Some(rrn);
      }
    }

    /** rewrite(record): replaces the locked record and releases the lock. */
    method Rewrite(record: R) returns (c: Option<Condition>)
      requires Valid()
      modifies this
      ensures Valid()
      ensures c == ChangeRefusal(Refused(UpdateAccess), old(locked), faults.rewrite)
      ensures c.Some? ==> records == old(records) && locked == old(locked)
      ensures c.None? ==> records == old(records)[old(locked).value := record] && locked == None
    {
      c := ChangeRefusal(Refused(UpdateAccess), locked, faults.rewrite);
      if c.None? {
        records := records[locked.value := record];
        locked := None;
      }
    }

    /** delete(): removes the locked record. */
    method Delete() returns (c: Option<Condition>)
      requires Valid()
      modifies this
      ensures Valid()
      ensures c == ChangeRefusal(Refused(DeleteAccess), old(locked), faults.delete)
      ensures c.Some? ==> records == old(records) && locked == old(locked)
      ensures c.None? ==> records == old(records) - {old(locked).value} && locked == None
    {
      c := ChangeRefusal(Refused(DeleteAccess), locked, faults.delete);
      if c.None? {
        records := records - {locked.value};
        locked := None;
      }
    }

    /** startBrowse(rrn): positions a cursor at the first record at or after `start`. */
    method StartBrowse(start: nat) returns (r: Result<FileBrowse<R>, Condition>)
      ensures Refused(BrowseAccess).Some? ==> r == Err(Refused(BrowseAccess).value)
      ensures Refused(BrowseAccess).None? && RecordsFrom(start) == [] ==> r == Err(RecordNotFound)
      ensures Refused(BrowseAccess).None? && RecordsFrom(start) != [] ==>
                && r.Ok? && fresh(r.value)
                && r.value.remaining == ScanFrom(start).delivered && r.value.ending == ScanFrom(start).ending
    {
      if Refused(BrowseAccess).Some? {
        r := Err(Refused(BrowseAccess).value);
      } else {
        var rs := RecordsFrom(start);
        if rs == [] {
          r := Err(RecordNotFound);
        } else {
          var cursor := new FileBrowse(ScanFrom(start));
          r := Ok(cursor);
        }
      }
    }
  }

  // ------------------------------------------------------------------ KSDS

  /**
   * A key-sequenced data set: records addressed by fixed-length keys and kept in
   * the unsigned byte-wise order of their keys. For keys of one length that is
   * the order of their values as unsigned big-endian numbers, so the records are
   * held by key value (`FromBytes(key)`).
   */
  class KsdsFile<R> {
    const name: string
    const attributes: FileAttributes
    const faults: Faults
    const keyLength: nat
    var records: map<nat, R>
    var locked: Option<nat>

    ghost predicate Valid()
      reads this
    {
      && (forall v :: v in records ==> v < Pow256(keyLength))
      && (locked.Some? ==> locked.value in records)
    }

    constructor(name: string, attributes: FileAttributes, faults: Faults, keyLength: nat,
                records: map<nat, R>)
      requires forall v :: v in records ==> v < Pow256(keyLength)
      ensures this.name == name && this.attributes == attributes && this.faults == faults
      ensures this.keyLength == keyLength && this.records == records && locked == None
      ensures Valid()
    {
      this.name := name;
      this.attributes := attributes;
      this.faults := faults;
      this.keyLength := keyLength;
      this.records := records;
      this.locked := None;
    }

    function Refused(access: Access): Option<Condition> {
      Refusal(faults.standing, attributes, access)
    }

    /** What a REWRITE raises after a READ UPDATE of the record at `address`. */
    function RewriteFault(address: nat): Option<Condition> {
      ChangeRefusal(Refused(UpdateAccess), Some(address), faults.rewrite)
    }

    /** What a DELETE raises after a READ UPDATE of the record at `address`. */
    function DeleteFault(address: nat): Option<Condition> {
      ChangeRefusal(Refused(DeleteAccess), Some(address), faults.delete)
    }

    /** What a read of `key` (search EQUAL) for `access` returns. */
    function Lookup(access: Access, key: seq<byte>): Result<R, Condition>
      reads this
    {
      if Refused(access).Some? then Err(Refused(access).value)
      else if FromBytes(key) in faults.read then Err(faults.read[FromBytes(key)])
      else if FromBytes(key) in records then Ok(records[FromBytes(key)])
      else Err(RecordNotFound)
    }

    /** The records with keys not below `start`, in key order: all a browse from it (search GTEQ) can return. */
    function RecordsFrom(start: seq<byte>): seq<R>
      reads this
    {
      RecordsAt(records, AddressesFrom(records, FromBytes(start)))
    }

    /** What a browse from `start` meets: those records up to the first READNEXT failure, then how it ends. */
    function ScanFrom(start: seq<byte>): Scan<R>
      reads this
    {
      ScanOf(records, faults.readNext, AddressesFrom(records, FromBytes(start)))
    }

    /** write(key, record): adds a record under a key not yet in use. */
    method Write(key: seq<byte>, record: R) returns (c: Option<Condition>)
      requires Valid() && |key| == keyLength
      modifies this
      ensures Valid() && locked == old(locked)
      ensures Refused(AddAccess).Some? ==> c == Refused(AddAccess) && records == old(records)
      ensures Refused(AddAccess).None? && FromBytes(key) in old(records) ==>
                c == Some(DuplicateRecord) && records == old(records)
      ensures Refused(AddAccess).None? && FromBytes(key) !in old(records) ==>
                c == None && records == old(records)[FromBytes(key) := record]
    {
      c := Refused(AddAccess);
      if c.None? {
        var v := FromBytes(key);
        if v in records {
          c := Some(DuplicateRecord);
        } else {
          records := records[v := record];
        }
      }
    }

    /** read(key, SearchType.EQUAL, holder). */
    method Read(key: seq<byte>) returns (r: Result<R, Condition>)
      ensures r == Lookup(ReadAccess, key)
    {
      r := Lookup(ReadAccess, key);
    }

    /** readForUpdate(key, SearchType.EQUAL, holder): reads the record and locks it. */
    method ReadForUpdate(key: seq<byte>) returns (r: Result<R, Condition>)
      requires Valid()
      modifies this
      ensures Valid() && records == old(records)
      ensures r == Lookup(UpdateAccess, key)
      ensures locked == if r.Ok? then Some(FromBytes(key)) else old(locked)
    {
      r := Lookup(UpdateAccess, key);
      if r.Ok? {
        locked := Some(FromBytes(key));
      }
    }

    /** rewrite(record): replaces the locked record and releases the lock. */
    method Rewrite(record: R) returns (c: Option<Condition>)
      requires Valid()
      modifies this
      ensures Valid()
      ensures c == ChangeRefusal(Refused(UpdateAccess), old(locked), faults.rewrite)
      ensures c.Some? ==> records == old(records) && locked == old(locked)
      ensures c.None? ==> records == old(records)[old(locked).value := record] && locked == None
    {
      c := ChangeRefusal(Refused(UpdateAccess), locked, faults.rewrite);
      if c.None? {
        records := records[locked.value := record];
        locked := None;
      }
    }

    /** delete(): removes the locked record. */
    method Delete() returns (c: Option<Condition>)
      requires Valid()
      modifies this
      ensures Valid()
      ensures c == ChangeRefusal(Refused(DeleteAccess), old(locked), faults.delete)
      ensures c.Some? ==> records == old(records) && locked == old(locked)
      ensures c.None? ==> records == old(records) - {old(locked).value} && locked == None
    {
      c := ChangeRefusal(Refused(DeleteAccess), locked, faults.delete);
      if c.None? {
        records := records - {locked.value};
        locked := None;
      }
    }

    /** startBrowse(key, SearchType.GTEQ): positions a cursor at the first key at or after `start`. */
    method StartBrowse(start: seq<byte>) returns (r: Result<FileBrowse<R>, Condition>)
      ensures Refused(BrowseAccess).Some? ==> r == Err(Refused(BrowseAccess).value)
      ensures Refused(BrowseAccess).None? && RecordsFrom(start) == [] ==> r == Err(RecordNotFound)
      ensures Refused(BrowseAccess).None? && RecordsFrom(start) != [] ==>
                && r.Ok? && fresh(r.value)
                && r.value.remaining == ScanFrom(start).delivered && r.value.ending == ScanFrom(start).ending
    {
      if Refused(BrowseAccess).Some? {
        r := Err(Refused(BrowseAccess).value);
      } else {
        var rs := RecordsFrom(start);
        if rs == [] {
          r := Err(RecordNotFound);
        } else {
          var cursor := new FileBrowse(ScanFrom(start));
          r := Ok(cursor);
        }
      }
    }
  }

  // ------------------------------------------------------------------ ESDS

  /**
   * An entry-sequenced data set: records kept in the order they were added,
   * addressed by relative byte address (RBA). Each record is added at the end
   * of the data set, so its RBA is larger than that of every earlier record.
   */
  class EsdsFile<R> {
    const name: string
    const attributes: FileAttributes
    const faults: Faults
    const recordLength: nat
    var records: map<nat, R>
    var end: nat
    var locked: Option<nat>

    ghost predicate Valid()
      reads this
    {
      && recordLength > 0
      && (forall rba :: rba in records ==> rba < end)
      && (locked.Some? ==> locked.value in records)
    }

    constructor(name: string, attributes: FileAttributes, faults: Faults, recordLength: nat)
      requires recordLength > 0
      ensures this.name == name && this.attributes == attributes && this.faults == faults
      ensures this.recordLength == recordLength && records == map[] && end == 0 && locked == None
      ensures Valid()
    {
      this.name := name;
      this.attributes := attributes;
      this.faults := faults;
      this.recordLength := recordLength;
      this.records := map[];
      this.end := 0;
      this.locked := None;
    }

    function Refused(access: Access): Option<Condition> {
      Refusal(faults.standing, attributes, access)
    }

    /** What a REWRITE raises after a READ UPDATE of the record at `address`. */
    function RewriteFault(address: nat): Option<Condition> {
      ChangeRefusal(Refused(UpdateAccess), Some(address), faults.rewrite)
    }

    /** What a read of the record at `rba` for `access` returns. */
    function Lookup(access: Access, rba: nat): Result<R, Condition>
      reads this
    {
      if Refused(access).Some? then Err(Refused(access).value)
      else if rba in faults.read then Err(faults.read[rba])
      else if rba in records then Ok(records[rba])
      else Err(RecordNotFound)
    }

    /** The records at or after `rba`, in RBA order: all a browse from it can return. */
    function RecordsFrom(rba: nat): seq<R>
      reads this
    {
      RecordsAt(records, AddressesFrom(records, rba))
    }

    /** What a browse from `rba` meets: those records up to the first READNEXT failure, then how it ends. */
    function ScanFrom(rba: nat): Scan<R>
      reads this
    {
      ScanOf(records, faults.readNext, AddressesFrom(records, rba))
    }

    /** write(record): adds the record at the end of the data set and returns its RBA. */
    method Write(record: R) returns (r: Result<nat, Condition>)
      requires Valid()
      modifies this
      ensures Valid() && locked == old(locked)
      ensures Refused(AddAccess).Some? ==> r == Err(Refused(AddAccess).value) && records == old(records) && end == old(end)
      ensures Refused(AddAccess).None? ==>
                && r == Ok(old(end))
                && records == old(records)[old(end) := record]
                && end == old(end) + recordLength
    {
      if Refused(AddAccess).Some? {
        r := Err(Refused(AddAccess).value);
      } else {
        r := Ok(end);
        records := records[end := record];
        end := end + recordLength;
      }
    }

    /** read(rba, holder). */
    method Read(rba: nat) returns (r: Result<R, Condition>)
      ensures r == Lookup(ReadAccess, rba)
    {
      r := Lookup(ReadAccess, rba);
    }

    /** readForUpdate(rba, holder): reads the record and locks it for a rewrite. */
    method ReadForUpdate(rba: nat) returns (r: Result<R, Condition>)
      requires Valid()
      modifies this
      ensures Valid() && records == old(records) && end == old(end)
      ensures r == Lookup(UpdateAccess, rba)
      ensures locked == if r.Ok? then Some(rba) else old(locked)
    {
      r := Lookup(UpdateAccess, rba);
      if r.Ok? {
        locked := Some(rba);
      }
    }

    /** rewrite(record): replaces the locked record in place and releases the lock. */
    method Rewrite(record: R) returns (c: Option<Condition>)
      requires Valid()
      modifies this
      ensures Valid() && end == old(end)
      ensures c == ChangeRefusal(Refused(UpdateAccess), old(locked), faults.rewrite)
      ensures c.Some? ==> records == old(records) && locked == old(locked)
      ensures c.None? ==> records == old(records)[old(locked).value := record] && locked == None
    {
      c := ChangeRefusal(Refused(UpdateAccess), locked, faults.rewrite);
      if c.None? {
        records := records[locked.value := record];
        locked := None;
      }
    }

    /** startBrowse(rba): positions a cursor at the first record at or after `rba`. */
    method StartBrowse(rba: nat) returns (r: Result<FileBrowse<R>, Condition>)
      ensures Refused(BrowseAccess).Some? ==> r == Err(Refused(BrowseAccess).value)
      ensures Refused(BrowseAccess).None? && RecordsFrom(rba) == [] ==> r == Err(RecordNotFound)
      ensures Refused(BrowseAccess).None? && RecordsFrom(rba) != [] ==>
                && r.Ok? && fresh(r.value)
                && r.value.remaining == ScanFrom(rba).delivered && r.value.ending == ScanFrom(rba).ending
    {
      if Refused(BrowseAccess).Some? {
        r := Err(Refused(BrowseAccess).value);
      } else {
        var rs := RecordsFrom(rba);
        if rs == [] {
          r := Err(RecordNotFound);
        } else {
          var cursor := new FileBrowse(ScanFrom(rba));
          r := Ok(cursor);
        }
      }
    }
  }
}
