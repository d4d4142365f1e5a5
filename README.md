# JCICS samples: a verified model of the sample core

This project models, in Dafny, the logic of the CICS Java (JCICS) samples
that does more than call the API and print:

- the three VSAM wrappers `RrdsExampleCommon`, `KsdsExampleCommon` and
  `EsdsExampleCommon`, which add, update, read, browse and delete `StockPart`
  records in a relative record, key-sequenced and entry-sequenced data set,
  with one error rule (INVREQ with RESP2 20 is reported as "not permitted",
  every condition is rethrown as a `RuntimeException`, NOTFND and ENDFILE end
  a browse normally);
- `StockPartHelper`, which builds the eight-byte KSDS key from the PART-ID
  field and generates random stock parts and five-word descriptions;
- the EDUCHAN link pair: `LinkServEduchan` reverses the text of container
  INPUTDATA into OUTPUTDATA, dates the reply in CICSTIME and returns a
  numeric return code as a four-byte big-endian BIT container CICSRC;
  `LinkProg3` builds the channel, links, and decodes the reply;
- `TerminalExample1`, which receives the terminal input and splits it into
  arguments with `java.util.StringTokenizer`;
- `TSQExample3` and `TSQExample4`, which write five records to the temporary
  storage queue MYTSQ, read them back by item number, and update every item
  in place with a READQ NEXT browse.

The JCICS classes the samples call (`RRDS`, `KSDS`, `ESDS` and their browse
cursors, `TSQ`, `Channel` and `Container`) are modelled as Dafny classes
whose state is what the samples can observe: records by address and the
record a READ UPDATE locked; queue items and the NEXT pointer; containers by
name. A request the resource definition does not allow raises INVREQ with
RESP2 20. Which other conditions arise is a parameter of each resource:

- a file has a standing condition (NOTOPEN, DISABLED, ...) that every
  request raises;
- a file also has, by address, the conditions raised by a READ or READ UPDATE
  of the record there, by a REWRITE or DELETE of the record locked there, and
  by the READNEXT that reaches it;
- a queue serves a given number of requests before its condition sets in,
  after which every request raises it;
- a channel names the containers whose requests fail.

So a sample method can fail at a later request after earlier ones succeeded,
and each method's contract states what those earlier requests left behind.
Each sample method is a Dafny method with the
same branches and loops, proved against a specification function of the
state it starts in; the lemmas beside them state what the samples promise
(round trips, order, what is left untouched).

Where the comments and the code of the samples disagree, the model follows
the code:

- `generate` draws PART-ID from `[1, 100_000_00)`, that is below ten million,
  not the hundred million the comment names; `Generate` states the range the
  code computes.
- `emptyFile` is documented as deleting all records, but it deletes RRN 1,
  2, ... and stops at the first unused RRN; `EmptyFileStopsAtFirstGap` shows
  a record past a gap surviving it.
- `updateQueue` numbers the items it rewrites from 1 whatever the NEXT
  pointer was; `UpdateShifted` states what happens when the pointer is not at
  the start (the samples always start from a queue `TSQCommon` has just
  deleted, where it is).

## Model

| member | source | states |
|---|---|---|
| VsamCommon.ReportFor | projects/com.ibm.cicsdev.vsam/src/com/ibm/cicsdev/vsam/rrds/RrdsExampleCommon.java:70-81 | a handler reports "not permitted", naming the operations of its request, exactly for INVREQ with RESP2 20; it reports a duplicate only for DUPREC on an add, and a missing record only for NOTFND on an update, read or locking read |
| VsamCommon.BrowseLoop | projects/com.ibm.cicsdev.vsam/src/com/ibm/cicsdev/vsam/rrds/RrdsExampleCommon.java:215-248 | up to `count` next() calls collect exactly the first `count` records the cursor still holds, in cursor order; when the cursor runs out sooner, ENDFILE or NOTFND ends the loop normally with what was collected, and any other condition (a READNEXT failure) is rethrown with its report |
| VsamCommon.BrowseOutcomeSpec | projects/com.ibm.cicsdev.vsam/src/com/ibm/cicsdev/vsam/rrds/RrdsExampleCommon.java:202-253 | a browse returns at most `count` records, a prefix of what the browse meets, all of them when there are no more than `count` and it ends normally; it fails exactly for a negative count, or when startBrowse or a next() the loop makes raises a condition other than NOTFND and ENDFILE, and the failure is that condition rethrown |
| JcicsFile.AddressesFrom | projects/com.ibm.cicsdev.vsam/src/com/ibm/cicsdev/vsam/rrds/RrdsExampleCommon.java:212 | the addresses a browse visits are exactly those in use at or after the start, strictly ascending |
| JcicsFile.RecordsAt | projects/com.ibm.cicsdev.vsam/src/com/ibm/cicsdev/vsam/rrds/RrdsExampleCommon.java:218-224 | the browse yields the record at each visited address, in the same order |
| JcicsFile.ScanOf | projects/com.ibm.cicsdev.vsam/src/com/ibm/cicsdev/vsam/rrds/RrdsExampleCommon.java:212-225 | a browse over the addresses returns the record at each, in order, up to the first address whose READNEXT fails, and then raises that failure, or ENDFILE when it got through them all |
| JcicsFile.ScanIsPrefix | projects/com.ibm.cicsdev.vsam/src/com/ibm/cicsdev/vsam/rrds/RrdsExampleCommon.java:212-225 | what a browse returns is a prefix of all the records from its start, in address order, and is all of them, ended by ENDFILE, exactly when no READNEXT on the way fails |
| JcicsFile.ChangeRefusal | projects/com.ibm.cicsdev.vsam/src/com/ibm/cicsdev/vsam/rrds/RrdsExampleCommon.java:119 | a REWRITE or DELETE goes ahead exactly when the request is allowed, a READ UPDATE holds a record, and no fault is set at that record's address |
| JcicsFile.FileBrowse.Next | projects/com.ibm.cicsdev.vsam/src/com/ibm/cicsdev/vsam/rrds/RrdsExampleCommon.java:218 | next() answers the following record and advances, or, when none is left, the browse's ending condition: ENDFILE, or the READNEXT failure that cut it short |
| JcicsFile.RrdsFile.Write | projects/com.ibm.cicsdev.vsam/src/com/ibm/cicsdev/vsam/rrds/RrdsExampleCommon.java:61 | write adds at a free RRN; DUPREC at a used one; a refused request changes nothing |
| JcicsFile.RrdsFile.Read | projects/com.ibm.cicsdev.vsam/src/com/ibm/cicsdev/vsam/rrds/RrdsExampleCommon.java:164 | read answers the record at the RRN, the read fault at that RRN if there is one, NOTFND when there is no record |
| JcicsFile.RrdsFile.ReadForUpdate | projects/com.ibm.cicsdev.vsam/src/com/ibm/cicsdev/vsam/rrds/RrdsExampleCommon.java:109 | readForUpdate reads like read and locks the RRN on success, leaving the records unchanged |
| JcicsFile.RrdsFile.Rewrite | projects/com.ibm.cicsdev.vsam/src/com/ibm/cicsdev/vsam/rrds/RrdsExampleCommon.java:119 | rewrite replaces the locked record and releases the lock; it raises (see ChangeRefusal) and changes nothing when refused, without a lock (INVREQ) or when a rewrite fault is set at the locked RRN |
| JcicsFile.RrdsFile.Delete | projects/com.ibm.cicsdev.vsam/src/com/ibm/cicsdev/vsam/rrds/RrdsExampleCommon.java:313 | delete removes the locked record and releases the lock; it raises and changes nothing when refused, without a lock (INVREQ) or when a delete fault is set at the locked RRN |
| JcicsFile.RrdsFile.StartBrowse | projects/com.ibm.cicsdev.vsam/src/com/ibm/cicsdev/vsam/rrds/RrdsExampleCommon.java:212 | startBrowse positions a cursor on what a browse from the RRN meets (ScanFrom), NOTFND when no record is at or after it |
| JcicsFile.KsdsFile.Write | projects/com.ibm.cicsdev.vsam/src/com/ibm/cicsdev/vsam/ksds/KsdsExampleCommon.java:58 | write adds under an unused key; DUPREC for a used one; a refused request changes nothing |
| JcicsFile.KsdsFile.Read | projects/com.ibm.cicsdev.vsam/src/com/ibm/cicsdev/vsam/ksds/KsdsExampleCommon.java:165 | read with search EQUAL answers the record with exactly that key, the read fault at that key if there is one, NOTFND otherwise |
| JcicsFile.KsdsFile.ReadForUpdate | projects/com.ibm.cicsdev.vsam/src/com/ibm/cicsdev/vsam/ksds/KsdsExampleCommon.java:105 | readForUpdate with EQUAL reads and locks the key on success |
| JcicsFile.KsdsFile.Rewrite | projects/com.ibm.cicsdev.vsam/src/com/ibm/cicsdev/vsam/ksds/KsdsExampleCommon.java:115 | rewrite replaces the locked record and releases the lock; refused, without a lock or with a rewrite fault at the locked key it raises and changes nothing |
| JcicsFile.KsdsFile.Delete | projects/com.ibm.cicsdev.vsam/src/com/ibm/cicsdev/vsam/ksds/KsdsExampleCommon.java:248 | delete removes the locked record and releases the lock; refused, without a lock or with a delete fault at the locked key it raises and changes nothing |
| JcicsFile.KsdsFile.StartBrowse | projects/com.ibm.cicsdev.vsam/src/com/ibm/cicsdev/vsam/ksds/KsdsExampleCommon.java:295 | startBrowse with GTEQ positions a cursor on what a browse from the start key meets, in key order, NOTFND when no key is at or after it |
| JcicsFile.EsdsFile.Write | projects/com.ibm.cicsdev.vsam/src/com/ibm/cicsdev/vsam/esds/EsdsExampleCommon.java:72 | write appends at the end of the data set, answers the new RBA and moves the end past it |
| JcicsFile.EsdsFile.Read | projects/com.ibm.cicsdev.vsam/src/com/ibm/cicsdev/vsam/esds/EsdsExampleCommon.java:178 | read answers the record at the RBA, the read fault at that RBA if there is one, NOTFND when there is no record |
| JcicsFile.EsdsFile.ReadForUpdate | projects/com.ibm.cicsdev.vsam/src/com/ibm/cicsdev/vsam/esds/EsdsExampleCommon.java:123 | readForUpdate reads and locks the RBA on success |
| JcicsFile.EsdsFile.Rewrite | projects/com.ibm.cicsdev.vsam/src/com/ibm/cicsdev/vsam/esds/EsdsExampleCommon.java:133 | rewrite replaces the locked record in place, keeps the end of the data set and releases the lock; refused, without a lock or with a rewrite fault at the locked RBA it raises and changes nothing |
| JcicsFile.EsdsFile.StartBrowse | projects/com.ibm.cicsdev.vsam/src/com/ibm/cicsdev/vsam/esds/EsdsExampleCommon.java:226 | startBrowse positions a cursor on what a browse from the RBA meets, in RBA order, NOTFND when no record is at or after it |
| RrdsExampleCommon.RrdsExampleCommon.constructor | projects/com.ibm.cicsdev.vsam/src/com/ibm/cicsdev/vsam/rrds/RrdsExampleCommon.java:41-46 | the wrapper works on the file XMPLRRDS |
| RrdsExampleCommon.RrdsExampleCommon.AddRecord | projects/com.ibm.cicsdev.vsam/src/com/ibm/cicsdev/vsam/rrds/RrdsExampleCommon.java:54-87 | the part is stored at the RRN when it is free; a used RRN gives a rethrown, reported DUPREC; a refused write is rethrown with its report; a failed add leaves the file unchanged |
| RrdsExampleCommon.RrdsExampleCommon.UpdateRecord | projects/com.ibm.cicsdev.vsam/src/com/ibm/cicsdev/vsam/rrds/RrdsExampleCommon.java:102-147 | a failed locking read is rethrown and changes nothing; after a successful one, a failed rewrite is rethrown with the file unchanged and the record still locked; otherwise the stored part is the returned one, which differs from the old only in its description, and the lock is released |
| RrdsExampleCommon.RrdsExampleCommon.ReadRecord | projects/com.ibm.cicsdev.vsam/src/com/ibm/cicsdev/vsam/rrds/RrdsExampleCommon.java:157-192 | the part stored at the RRN; a missing RRN is a rethrown, reported NOTFND; a refused or failing read is rethrown with its report |
| RrdsExampleCommon.RrdsExampleCommon.Browse | projects/com.ibm.cicsdev.vsam/src/com/ibm/cicsdev/vsam/rrds/RrdsExampleCommon.java:202-253 | at most `count` parts from RRN `start` on, in RRN order, as BrowseOutcome says of what the browse meets (see BrowseOutcomeSpec and ScanIsPrefix); a negative count fails as ArrayList(count) does |
| RrdsExampleCommon.RrdsExampleCommon.DeleteRecord | projects/com.ibm.cicsdev.vsam/src/com/ibm/cicsdev/vsam/rrds/RrdsExampleCommon.java:263-335 | returns the part as it stood before the delete and the RRN is then free; when the locking read fails no delete is attempted and nothing changes; a refused or failing delete is rethrown and leaves the record locked |
| RrdsExampleCommon.RrdsExampleCommon.EmptyFile | projects/com.ibm.cicsdev.vsam/src/com/ibm/cicsdev/vsam/rrds/RrdsExampleCommon.java:343-377 | deletes the records at RRN 1 up to the RRN where it stops (FirstStop) and no others; NOTFND, from the READ UPDATE at an unused RRN or from a DELETE, is the normal end; any other condition from a READ UPDATE is rethrown, and any other condition from a DELETE is rethrown with that record locked, each with the records before it deleted |
| RrdsExampleCommon.FirstStop | projects/com.ibm.cicsdev.vsam/src/com/ibm/cicsdev/vsam/rrds/RrdsExampleCommon.java:350-358 | the RRN where the loop stops is unused, or its READ UPDATE or DELETE fails, or it is Integer.MAX_VALUE; every RRN before it holds a record whose requests succeed |
| RrdsExampleCommon.FirstStopAt | projects/com.ibm.cicsdev.vsam/src/com/ibm/cicsdev/vsam/rrds/RrdsExampleCommon.java:350-358 | when the loop gets past RRNs 1 to n - 1 and cannot get past n, it stops at n |
| RrdsExampleCommon.DeletedThrough | projects/com.ibm.cicsdev.vsam/src/com/ibm/cicsdev/vsam/rrds/RrdsExampleCommon.java:353-354 | deleting RRN n after RRNs 1 to n - 1 leaves just the records past n |
| RrdsExampleCommon.RrnsBetween | projects/com.ibm.cicsdev.vsam/src/com/ibm/cicsdev/vsam/rrds/RrdsExampleCommon.java:350 | the RRNs the loop visits are exactly those from 1 up to its bound |
| RrdsExampleCommon.EmptyFileEmptiesNumberedFile | projects/com.ibm.cicsdev.vsam/src/com/ibm/cicsdev/vsam/rrds/RrdsExampleCommon.java:338-358 | a file whose records sit at RRNs 1 to n, none of whose requests fails, is left empty |
| RrdsExampleCommon.EmptyFileStopsAtFirstGap | projects/com.ibm.cicsdev.vsam/src/com/ibm/cicsdev/vsam/rrds/RrdsExampleCommon.java:338-358 | a record past the first unused RRN survives, although the comment says all records are deleted |
| KsdsExampleCommon.KsdsExampleCommon.constructor | projects/com.ibm.cicsdev.vsam/src/com/ibm/cicsdev/vsam/ksds/KsdsExampleCommon.java:39-43 | the wrapper works on the file XMPLKSDS |
| KsdsExampleCommon.KsdsExampleCommon.AddRecord | projects/com.ibm.cicsdev.vsam/src/com/ibm/cicsdev/vsam/ksds/KsdsExampleCommon.java:48-84 | the part is stored under the key getKey derives from it when that key is unused; a used key gives a rethrown, reported DUPREC; a file keyed by PART-ID stays so |
| KsdsExampleCommon.KsdsExampleCommon.UpdateRecord | projects/com.ibm.cicsdev.vsam/src/com/ibm/cicsdev/vsam/ksds/KsdsExampleCommon.java:95-143 | the part with the PART-ID is locked with search EQUAL; a failed read is rethrown and changes nothing; a failed rewrite is rethrown with the file unchanged and the part still locked; otherwise only its description changes, the stored part is the returned one, and a file keyed by PART-ID stays so |
| KsdsExampleCommon.KsdsExampleCommon.ReadRecord | projects/com.ibm.cicsdev.vsam/src/com/ibm/cicsdev/vsam/ksds/KsdsExampleCommon.java:155-193 | the part stored under the key of the PART-ID, which in a file keyed by PART-ID has that PART-ID; a missing key is a rethrown, reported NOTFND; a refused or failing read is rethrown |
| KsdsExampleCommon.KsdsExampleCommon.Browse | projects/com.ibm.cicsdev.vsam/src/com/ibm/cicsdev/vsam/ksds/KsdsExampleCommon.java:281-336 | at most `count` parts from the key of `startKey` on (GTEQ), in key order, as BrowseOutcome says of what the browse meets (see BrowseOutcomeSpec and ScanIsPrefix) |
| KsdsExampleCommon.KsdsExampleCommon.DeleteRecord | projects/com.ibm.cicsdev.vsam/src/com/ibm/cicsdev/vsam/ksds/KsdsExampleCommon.java:195-270 | returns the part as it stood before the delete and its key is then absent; the delete is issued only after a successful locking read; a refused or failing delete is rethrown and leaves the part locked |
| KsdsExampleCommon.PartAtKey | projects/com.ibm.cicsdev.vsam/src/com/ibm/cicsdev/vsam/ksds/KsdsExampleCommon.java:55-58 | in a file keyed by PART-ID, the record at a key value is the part whose key has that value |
| KsdsExampleCommon.BrowseInPartOrder | projects/com.ibm.cicsdev.vsam/src/com/ibm/cicsdev/vsam/ksds/KsdsExampleCommon.java:291-308 | a GTEQ browse of a file keyed by PART-ID yields parts in strictly ascending PART-ID order, each at or after `startKey`, and misses none of them |
| EsdsExampleCommon.EsdsExampleCommon.constructor | projects/com.ibm.cicsdev.vsam/src/com/ibm/cicsdev/vsam/esds/EsdsExampleCommon.java:51-56 | the wrapper works on the file XMPLESDS |
| EsdsExampleCommon.EsdsExampleCommon.AddRecord | projects/com.ibm.cicsdev.vsam/src/com/ibm/cicsdev/vsam/esds/EsdsExampleCommon.java:65-101 | the part is appended at the old end of the data set, which was unused, and that RBA is returned; a refused write is rethrown with its report and changes nothing |
| EsdsExampleCommon.EsdsExampleCommon.UpdateRecord | projects/com.ibm.cicsdev.vsam/src/com/ibm/cicsdev/vsam/esds/EsdsExampleCommon.java:116-161 | only the description of the record at the RBA changes, the record keeps its address and the end of the data set is unchanged; a failed read is rethrown and changes nothing; a failed rewrite is rethrown with the record still locked |
| EsdsExampleCommon.EsdsExampleCommon.ReadRecord | projects/com.ibm.cicsdev.vsam/src/com/ibm/cicsdev/vsam/esds/EsdsExampleCommon.java:171-206 | the record at the RBA; a missing RBA is a rethrown, reported NOTFND; a refused or failing read is rethrown |
| EsdsExampleCommon.EsdsExampleCommon.Browse | projects/com.ibm.cicsdev.vsam/src/com/ibm/cicsdev/vsam/esds/EsdsExampleCommon.java:216-267 | at most `count` records from `rbaStart` on, in RBA order, as BrowseOutcome says of what the browse meets (see BrowseOutcomeSpec and ScanIsPrefix) |
| EsdsExampleCommon.AddressesAfterAdd | projects/com.ibm.cicsdev.vsam/src/com/ibm/cicsdev/vsam/esds/EsdsExampleCommon.java:72 | the RBA of an add comes after every address a browse visited before |
| EsdsExampleCommon.BrowseAfterAdd | projects/com.ibm.cicsdev.vsam/src/com/ibm/cicsdev/vsam/esds/EsdsExample5.java:53 | a browse after an add returns what it returned before, followed by the added record |
| EsdsExampleCommon.AddsComeInOrder | projects/com.ibm.cicsdev.vsam/src/com/ibm/cicsdev/vsam/esds/EsdsExample5.java:82-83 | the induction over a run of adds for any browse order in which an add comes last |
| EsdsExampleCommon.BrowseAfterAdds | projects/com.ibm.cicsdev.vsam/src/com/ibm/cicsdev/vsam/esds/EsdsExample5.java:82-83 | after a run of adds a browse returns what it did before followed by the added records, in the order they were added |
| EsdsExampleCommon.BrowseFromFirstAdd | projects/com.ibm.cicsdev.vsam/src/com/ibm/cicsdev/vsam/esds/EsdsExample5.java:53 | a browse from the RBA of the first add returns exactly the added records, in insertion order |
| StockPartHelper.TimeConstantsInDays | projects/com.ibm.cicsdev.vsam/src/com/ibm/cicsdev/vsam/helper/StockPartHelper.java:20-30 | the millisecond constants are 14610 days (1970 to 2010), 3652 days and 56 days |
| StockPartHelper.ChosenWordsWithinMaxima | projects/com.ibm.cicsdev.vsam/src/com/ibm/cicsdev/vsam/helper/StockPartHelper.java:33-60 | every word of each list respects its documented maximum length: 11, 6, 6, 7 and 6 |
| StockPartHelper.JoinFive | projects/com.ibm.cicsdev.vsam/src/com/ibm/cicsdev/vsam/helper/StockPartHelper.java:195-203 | five words joined with single spaces are the words with a space between each |
| StockPartHelper.GenerateDescription | projects/com.ibm.cicsdev.vsam/src/com/ibm/cicsdev/vsam/helper/StockPartHelper.java:186-207 | size, colour, shape, material and noun, each from its list, joined by single spaces, at most 40 characters |
| StockPartHelper.Generate | projects/com.ibm.cicsdev.vsam/src/com/ibm/cicsdev/vsam/helper/StockPartHelper.java:130-177 | PART-ID in [1, 10,000,000), supplier in [1, 100,000,000), last order date within the ten years from 2010, next order date eight weeks later, stock in [0, 10,000), price between 1.00 and 99.99, a valid description |
| StockPartHelper.Zoned | projects/com.ibm.cicsdev.vsam/src/com/ibm/cicsdev/vsam/helper/StockPartHelper.java:107-111 | the PART-ID field is eight zoned-decimal digits |
| StockPartHelper.ZonedDigits | projects/com.ibm.cicsdev.vsam/src/com/ibm/cicsdev/vsam/helper/StockPartHelper.java:107-111 | every byte of the field is an EBCDIC digit 0xF0 to 0xF9 |
| StockPartHelper.ZonedMonotone | projects/com.ibm.cicsdev.vsam/src/com/ibm/cicsdev/vsam/helper/StockPartHelper.java:107-111 | zoned fields of one width order, as unsigned bytes, as their values do |
| StockPartHelper.GetKey | projects/com.ibm.cicsdev.vsam/src/com/ibm/cicsdev/vsam/helper/StockPartHelper.java:104-115 | the key is exactly eight bytes long: the PART-ID field at the head of the record (with KeyIdentifiesPart, it identifies the part) |
| StockPartHelper.GetKeyOf | projects/com.ibm.cicsdev.vsam/src/com/ibm/cicsdev/vsam/helper/StockPartHelper.java:117-123 | getKey(int) is eight bytes, the key of a part with that PART-ID |
| StockPartHelper.GetKeyZero | projects/com.ibm.cicsdev.vsam/src/com/ibm/cicsdev/vsam/helper/StockPartHelper.java:84-94 | getKeyZero is the key of PART-ID 0: eight bytes, and no key of any PART-ID is below it |
| StockPartHelper.GenerateKey | projects/com.ibm.cicsdev.vsam/src/com/ibm/cicsdev/vsam/helper/StockPartHelper.java:68-81 | a random key is eight EBCDIC digits |
| StockPartHelper.KeyOrder | projects/com.ibm.cicsdev.vsam/src/com/ibm/cicsdev/vsam/helper/StockPartHelper.java:117-123 | keys order and compare as their PART-IDs do (both directions) |
| StockPartHelper.KeyIdentifiesPart | projects/com.ibm.cicsdev.vsam/src/com/ibm/cicsdev/vsam/helper/StockPartHelper.java:104-123 | two parts have the same key exactly when they have the same PART-ID, and getKey(sp) is getKey(sp.partId) |
| StockPartHelper.KeyZeroIsLeast | projects/com.ibm.cicsdev.vsam/src/com/ibm/cicsdev/vsam/helper/StockPartHelper.java:84-94 | the key of PART-ID 0 is at or below every key, so a GTEQ browse from it starts at the first record |
| Text.Join | projects/com.ibm.cicsdev.vsam/src/com/ibm/cicsdev/vsam/helper/StockPartHelper.java:192-203 | words joined with single spaces have their total length plus one per gap |
| BigEndian.IntRoundTrip | projects/com.ibm.cicsdev.link/src/com/ibm/cicsdev/link/LinkServEduchan.java:137-141 | an int written with putInt into four bytes reads back with getInt |
| BigEndian.BytesRoundTrip | projects/com.ibm.cicsdev.link/src/com/ibm/cicsdev/link/LinkProg3.java:147-148 | four bytes read as an int and written back are the same bytes |
| BigEndian.FromToBytes | projects/com.ibm.cicsdev.link/src/com/ibm/cicsdev/link/LinkServEduchan.java:137-141 | a number written as n big-endian bytes reads back as itself |
| BigEndian.ToFromBytes | projects/com.ibm.cicsdev.link/src/com/ibm/cicsdev/link/LinkProg3.java:147-148 | bytes read as a number and written back at their width are the same bytes |
| BigEndian.FromBytesInjective | projects/com.ibm.cicsdev.link/src/com/ibm/cicsdev/link/LinkProg3.java:147-148 | bytes of one width that read as the same number are equal |
| JcicsChannel.Channel.GetContainer | projects/com.ibm.cicsdev.link/src/com/ibm/cicsdev/link/LinkServEduchan.java:85 | getContainer answers whether the container exists, or the channel's condition |
| JcicsChannel.Channel.GetString | projects/com.ibm.cicsdev.link/src/com/ibm/cicsdev/link/LinkServEduchan.java:89 | getString answers a CHAR container's text, CCSIDERR for a BIT container |
| JcicsChannel.Channel.Get | projects/com.ibm.cicsdev.link/src/com/ibm/cicsdev/link/LinkProg3.java:143 | get answers a BIT container's bytes, CCSIDERR for a CHAR container |
| JcicsChannel.Channel.Put | projects/com.ibm.cicsdev.link/src/com/ibm/cicsdev/link/LinkServEduchan.java:92-93 | createContainer followed by put or putString replaces the container's contents and nothing else |
| LinkServEduchan.NumVal | projects/com.ibm.cicsdev.link/src/com/ibm/cicsdev/link/LinkServEduchan.java:159-178 | return codes are 0 (only OK) or 100 to 105 |
| LinkServEduchan.NumValInverse | projects/com.ibm.cicsdev.link/src/com/ibm/cicsdev/link/LinkServEduchan.java:159-178 | the number recovers the return code |
| LinkServEduchan.CodeFor | projects/com.ibm.cicsdev.link/src/com/ibm/cicsdev/link/LinkServEduchan.java:112-117 | CCSIDERR, CHANNELERR, CODEPAGEERR and INVREQ each map to their own code (both directions), any other condition to OTHERERROR, none to OK or CONTAINERERR |
| LinkServEduchan.Reverse | projects/com.ibm.cicsdev.link/src/com/ibm/cicsdev/link/LinkServEduchan.java:89-93 | the reversed string has the same length and character i is character n - 1 - i of the input |
| LinkServEduchan.ReverseReverse | projects/com.ibm.cicsdev.link/src/com/ibm/cicsdev/link/LinkServEduchan.java:89-93 | reversing twice gives the input back |
| LinkServEduchan.BuildRcContainer | projects/com.ibm.cicsdev.link/src/com/ibm/cicsdev/link/LinkServEduchan.java:132-152 | CICSRC holds rc as four big-endian bytes and nothing else changes; a condition escapes as a RuntimeException |
| LinkServEduchan.Serve | projects/com.ibm.cicsdev.link/src/com/ibm/cicsdev/link/LinkServEduchan.java:65-123 | no current channel abends NOCH; otherwise the channel ends as the server specification says and main completes with the return code, or throws when CICSRC cannot be built |
| LinkServEduchan.ServeReverses | projects/com.ibm.cicsdev.link/src/com/ibm/cicsdev/link/LinkServEduchan.java:85-105 | with no condition, OUTPUTDATA reversed is INPUTDATA, CICSTIME holds the time and CICSRC holds 0 |
| LinkServEduchan.MissingInput | projects/com.ibm.cicsdev.link/src/com/ibm/cicsdev/link/LinkServEduchan.java:95-98 | a missing INPUTDATA raises nothing: CICSRC says 100 and OUTPUTDATA is untouched |
| LinkServEduchan.ServerCodeZero | projects/com.ibm.cicsdev.link/src/com/ibm/cicsdev/link/LinkServEduchan.java:68 | the code is 0 exactly when INPUTDATA was present and no condition was raised |
| LinkServEduchan.ServedContainers | projects/com.ibm.cicsdev.link/src/com/ibm/cicsdev/link/LinkServEduchan.java:104-122 | CICSTIME gets the time exactly when the try block completes; CICSRC always gets the code when it can be built |
| LinkServEduchan.RcContainerDecodes | projects/com.ibm.cicsdev.link/src/com/ibm/cicsdev/link/LinkServEduchan.java:132-143 | CICSRC holds exactly four bytes, which decode to the code main chose |
| LinkProg3.BuildChannel | projects/com.ibm.cicsdev.link/src/com/ibm/cicsdev/link/LinkProg3.java:192-214 | a new channel EDUCHAN whose only container INPUTDATA holds "Hello from Java"; a condition escapes as a RuntimeException |
| LinkProg3.GetInt | projects/com.ibm.cicsdev.link/src/com/ibm/cicsdev/link/LinkProg3.java:147-148 | getInt fails exactly when there are fewer than four bytes |
| LinkProg3.GetIntRoundTrip | projects/com.ibm.cicsdev.link/src/com/ibm/cicsdev/link/LinkProg3.java:143-148 | decoding what buildRcContainer encodes gives the return code back |
| LinkProg3.Report | projects/com.ibm.cicsdev.link/src/com/ibm/cicsdev/link/LinkProg3.java:114-164 | the message main prints, an LPGC abend, or the escaping exception, exactly as the client specification gives them |
| LinkProg3.ReportsReturnCode | projects/com.ibm.cicsdev.link/src/com/ibm/cicsdev/link/LinkProg3.java:122-152 | an encoded CICSRC is reported with its code and with the text of CICSTIME, or "<missing>" without it |
| LinkProg3.MissingReturnCode | projects/com.ibm.cicsdev.link/src/com/ibm/cicsdev/link/LinkProg3.java:137-157 | a missing CICSRC gives the "no CICS RC" message and nothing is decoded |
| LinkProg3.LinkRoundTrip | projects/com.ibm.cicsdev.link/src/com/ibm/cicsdev/link/LinkProg3.java:109-157 | the channel sent, served by EDUCHAN, is reported with the server's return code, 0 unless OUTPUTDATA fails, and with the time, or "<missing>" when the server gave up before CICSTIME |
| StringTokenizers.WordLength | projects/com.ibm.cicsdev.terminal/src/com/ibm/cicsdev/terminal/TerminalExample1.java:116 | the first token runs to the first delimiter or the end |
| StringTokenizers.Tokens | projects/com.ibm.cicsdev.terminal/src/com/ibm/cicsdev/terminal/TerminalExample1.java:116-121 | no token is empty or holds a space, tab, newline, carriage return or form feed |
| StringTokenizers.NoTokens | projects/com.ibm.cicsdev.terminal/src/com/ibm/cicsdev/terminal/TerminalExample1.java:119 | there are no tokens exactly when the input is only delimiters |
| StringTokenizers.TokensOfJoin | projects/com.ibm.cicsdev.terminal/src/com/ibm/cicsdev/terminal/TerminalExample1.java:116-121 | words without delimiters joined by single spaces tokenize back into the words |
| StringTokenizers.JoinTokens | projects/com.ibm.cicsdev.terminal/src/com/ibm/cicsdev/terminal/TerminalExample1.java:119-121 | the tokens joined by single spaces are the input with delimiter runs collapsed and both ends trimmed |
| StringTokenizers.SqueezeAfterToken | projects/com.ibm.cicsdev.terminal/src/com/ibm/cicsdev/terminal/TerminalExample1.java:119-121 | after a token, collapsing the rest gives a space and the rest's tokens joined, or nothing |
| StringTokenizers.SqueezeWord | projects/com.ibm.cicsdev.terminal/src/com/ibm/cicsdev/terminal/TerminalExample1.java:119-121 | a run of non-delimiters is copied as it is by the collapse |
| StringTokenizers.LeadingDelimiters | projects/com.ibm.cicsdev.terminal/src/com/ibm/cicsdev/terminal/TerminalExample1.java:116 | leading delimiters do not change the tokens |
| StringTokenizers.FirstToken | projects/com.ibm.cicsdev.terminal/src/com/ibm/cicsdev/terminal/TerminalExample1.java:120 | a run of non-delimiters ended by a delimiter or the end is the first token |
| StringTokenizers.WordLengthIs | projects/com.ibm.cicsdev.terminal/src/com/ibm/cicsdev/terminal/TerminalExample1.java:120 | that run's length is the first token's length |
| StringTokenizers.TokensAfterSkip | projects/com.ibm.cicsdev.terminal/src/com/ibm/cicsdev/terminal/TerminalExample1.java:119-120 | skipping delimiters leaves the remaining tokens alone |
| StringTokenizers.TokenAt | projects/com.ibm.cicsdev.terminal/src/com/ibm/cicsdev/terminal/TerminalExample1.java:120 | the run found after skipping delimiters is the next token |
| StringTokenizers.StringTokenizer.constructor | projects/com.ibm.cicsdev.terminal/src/com/ibm/cicsdev/terminal/TerminalExample1.java:116 | the tokens still to come are all the tokens of the input |
| StringTokenizers.StringTokenizer.SkipDelimiters | projects/com.ibm.cicsdev.terminal/src/com/ibm/cicsdev/terminal/TerminalExample1.java:119 | the position found holds no delimiter, or is the end, and only delimiters are skipped |
| StringTokenizers.StringTokenizer.ScanToken | projects/com.ibm.cicsdev.terminal/src/com/ibm/cicsdev/terminal/TerminalExample1.java:120 | the position found ends the run of non-delimiters |
| StringTokenizers.StringTokenizer.HasMoreTokens | projects/com.ibm.cicsdev.terminal/src/com/ibm/cicsdev/terminal/TerminalExample1.java:119 | true exactly when tokens remain |
| StringTokenizers.StringTokenizer.NextToken | projects/com.ibm.cicsdev.terminal/src/com/ibm/cicsdev/terminal/TerminalExample1.java:120 | answers the next token, and the tokens still to come are the rest |
| TerminalExample1.GetTerminalString | projects/com.ibm.cicsdev.terminal/src/com/ibm/cicsdev/terminal/TerminalExample1.java:68-103 | null exactly when the principal facility is not a terminal; EOC is ignored; any other condition propagates; otherwise the received text |
| TerminalExample1.ParseTerminalString | projects/com.ibm.cicsdev.terminal/src/com/ibm/cicsdev/terminal/TerminalExample1.java:110-125 | a new array holding the tokens in input order; empty exactly when the input is empty or only whitespace; no token empty or holding a delimiter; joined by single spaces they are the input collapsed and trimmed |
| TerminalExample1.TerminalArguments | projects/com.ibm.cicsdev.terminal/src/com/ibm/cicsdev/terminal/TerminalExample1.java:31-57 | no terminal means no parsing; otherwise the arguments are the tokens of the received text; a receive condition propagates |
| JcicsTsq.TemporaryStorageQueue.WriteItem | projects/com.ibm.cicsdev.tsq/src/com/ibm/cicsdev/tsq/TSQExample3.java:111 | writeItem appends the item and answers its number; once the queue's fault has set in it raises that and changes nothing; each request uses up one of the allowance |
| JcicsTsq.TemporaryStorageQueue.ReadItem | projects/com.ibm.cicsdev.tsq/src/com/ibm/cicsdev/tsq/TSQExample3.java:133 | readItem(n) answers item n and moves the NEXT pointer to it; the fault once set in, QIDERR with no queue, ITEMERR when there is no item n |
| JcicsTsq.TemporaryStorageQueue.ReadNextItem | projects/com.ibm.cicsdev.tsq/src/com/ibm/cicsdev/tsq/TSQExample4.java:97 | readNextItem answers the item after the NEXT pointer and advances it; ITEMERR past the last; the fault once set in |
| JcicsTsq.TemporaryStorageQueue.RewriteItem | projects/com.ibm.cicsdev.tsq/src/com/ibm/cicsdev/tsq/TSQExample4.java:118 | rewriteItem(n) replaces item n and nothing else, or raises the fault once set in and changes nothing |
| TsqExample3.Samples | projects/com.ibm.cicsdev.tsq/src/com/ibm/cicsdev/tsq/TSQExample3.java:93-103 | item i holds record id i and the fixed values 42, "TSQ test example", 123456789, 123 and -99 |
| JcicsTsq.ServedBefore | projects/com.ibm.cicsdev.tsq/src/com/ibm/cicsdev/tsq/TSQExample3.java:100-117 | of the next n requests the queue serves all, or exactly its allowance when its fault is set and the allowance is shorter |
| TsqExample3.FirstItems | projects/com.ibm.cicsdev.tsq/src/com/ibm/cicsdev/tsq/TSQExample3.java:129-138 | the read succeeds exactly when the queue serves all five reads and holds at least five items, and answers items 1 to 5; otherwise it fails with QIDERR or ITEMERR when the items run out first, and with the queue's fault when that sets in first |
| TsqExample3.TsqExample3.WriteToQueue | projects/com.ibm.cicsdev.tsq/src/com/ibm/cicsdev/tsq/TSQExample3.java:86-118 | appends the samples with record ids 1 to k, where k is DEPTH_COUNT = 5 or the number of writes served before the queue's fault sets in; in the second case the fault escapes as a RuntimeException and the first k samples stay written |
| TsqExample3.TsqExample3.ReadFromQueue | projects/com.ibm.cicsdev.tsq/src/com/ibm/cicsdev/tsq/TSQExample3.java:123-159 | reads items 1 to 5 in order as FirstItems says, leaves the items unchanged, and leaves the NEXT pointer on the last item read |
| TsqExample3.WriteThenRead | projects/com.ibm.cicsdev.tsq/src/com/ibm/cicsdev/tsq/TSQExample3.java:100-133 | on the empty queue reading back gives exactly what was written: item i has record id i |
| TsqExample4.UpdatedQueue | projects/com.ibm.cicsdev.tsq/src/com/ibm/cicsdev/tsq/TSQExample4.java:110-118 | the queue after the sweep keeps its length |
| TsqExample4.UpdatedCount | projects/com.ibm.cicsdev.tsq/src/com/ibm/cicsdev/tsq/TSQExample4.java:93-127 | the sweep rewrites at most the items after the NEXT pointer, all of them unless the fault sets in first, and then as many as the complete rounds (a read and a rewrite) the allowance pays for |
| TsqExample4.TsqExample4.UpdateQueue | projects/com.ibm.cicsdev.tsq/src/com/ibm/cicsdev/tsq/TSQExample4.java:84-128 | ITEMERR from readNextItem ends the sweep normally; the first n items are rewritten, each at the position counted from 1, with record id + 100 and "Updated: " before its text, and the rest keep their contents; n covers every item after the NEXT pointer unless the queue's fault sets in first, and then n is the number of rounds completed and the fault escapes as a RuntimeException (UpdateOutcome, UpdatedCount); the queue length is unchanged |
| TsqExample4.UpdateInPlace | projects/com.ibm.cicsdev.tsq/src/com/ibm/cicsdev/tsq/TSQExample4.java:87-126 | from a NEXT pointer at the start, every item is updated where it stands and the length is kept |
| TsqExample4.UpdateShifted | projects/com.ibm.cicsdev.tsq/src/com/ibm/cicsdev/tsq/TSQExample4.java:87-126 | from a NEXT pointer at item p > 0, the updates land p places early and the last p items keep their contents |
| TsqExample4.WriteUpdateRead | projects/com.ibm.cicsdev.tsq/src/com/ibm/cicsdev/tsq/TSQExample4.java:113-114 | written, updated and read back on the empty queue, item k has record id k + 100, the text "Updated: TSQ test example", and the other fields unchanged |

## Left out

- The JCICS classes are not shown in the repository; their behaviour is written out as Dafny classes with bodies (records by address, a lock, and the conditions each request raises given as faults by address or, for a queue, as a number of requests served before a fault sets in), so the wrappers are proved against that model of the API rather than against IBM's implementation.
- The generated record classes `StockPart` and `TsqRecord` (JZOS codecs) are not part of this model: records are values with named fields, and the byte layout appears only where the samples use it, in the PART-ID key.
- StockPartHelper.GetKey: assumes the record buffer starts with PART-ID as eight zoned-decimal EBCDIC digits, the layout of the copybook the codec is generated from; the other bytes of the buffer are not modelled.
- StockPartHelper.Generate: the dates are instants in milliseconds, not the two-digit year, month and day strings `Calendar` formats; the price is in hundredths, not the `BigDecimal` of a `double`; the random draws are parameters with the ranges the code asks for.
- StockPartHelper.GetKeyOf: PART-ID is a number of 0 to 99,999,999, what its eight-digit field holds; `getKey(int)` accepts any int, and the key a negative or wider id would get from the codec's sign and truncation is not modelled.
- KsdsExampleCommon.KsdsExampleCommon.UpdateRecord: takes its PART-ID from that same 0 to 99,999,999 range, not any int.
- KsdsExampleCommon.KsdsExampleCommon.ReadRecord: takes its PART-ID from that same 0 to 99,999,999 range, not any int.
- KsdsExampleCommon.KsdsExampleCommon.DeleteRecord: takes its PART-ID from that same 0 to 99,999,999 range, not any int.
- KsdsExampleCommon.KsdsExampleCommon.Browse: takes its start PART-ID from that same 0 to 99,999,999 range, not any int.
- RrdsExampleCommon.RrdsExampleCommon.AddRecord: the RRN is a `nat` where Java has a `long`; negative RRNs are not modelled, and RRN 0 is treated as an ordinary slot.
- RrdsExampleCommon.RrdsExampleCommon.UpdateRecord: the RRN is a `nat`, not a `long`; negative RRNs are not modelled, and RRN 0 is treated as an ordinary slot.
- RrdsExampleCommon.RrdsExampleCommon.ReadRecord: the RRN is a `nat`, not a `long`; negative RRNs are not modelled, and RRN 0 is treated as an ordinary slot.
- RrdsExampleCommon.RrdsExampleCommon.DeleteRecord: the RRN is a `nat`, not a `long`; negative RRNs are not modelled, and RRN 0 is treated as an ordinary slot.
- RrdsExampleCommon.RrdsExampleCommon.Browse: the start RRN is a `nat`, not a `long`; negative RRNs are not modelled, and RRN 0 is treated as an ordinary slot.
- EsdsExampleCommon.EsdsExampleCommon.UpdateRecord: the RBA is a `nat`, not a `long`; negative RBAs are not modelled.
- EsdsExampleCommon.EsdsExampleCommon.ReadRecord: the RBA is a `nat`, not a `long`; negative RBAs are not modelled.
- EsdsExampleCommon.EsdsExampleCommon.Browse: the start RBA is a `nat`, not a `long`; negative RBAs are not modelled.
- TsqExample4.WriteUpdateRead: does not model the truncation the generated record class may apply when "Updated: " makes the character string longer than its field.
- TsqExample4.TsqExample4.UpdateQueue: record id + 100 is unbounded; Java `int` wrap-around at 2^31 is not modelled, nor is the 32767-item limit of a queue.
- JcicsChannel.Channel.GetString: a CHAR/BIT mismatch is answered with CCSIDERR, a choice of this model.
- JcicsChannel.Channel.Put: `createContainer` on an existing container is modelled as create-or-replace.
- LinkServEduchan.Serve: the formatted time is the parameter `now`; the `System.out` logging is left out; `task.abend` is modelled as the end of the program.
- LinkProg3.Report: `Program.link` is not a call in the model; `LinkRoundTrip` composes the server specification instead, and a failing link (caught and printed by `linkProg`) is not modelled.
- LinkProg3.BuildChannel: `task.createChannel` failing is not modelled.
- Printing: `Task.out`, `MessageFormat` and `String.format` texts are left out; `LinkProg3.Message` names the three messages `main` can print, with their arguments.
- The driver programs (`KsdsExample1`-`5`, `EsdsExample1`-`5`, `RrdsExample1`-`4`, `LinkProg1`/`2`, `TSQExample1`, the TDQ samples), `VsamExampleCommon.commitUnitOfWork`, `SerializeExample1` and `LinkServEC01` are not part of this model: they only sequence the modelled calls, print, commit, or sleep and retry.
- `TSQCommon`'s constructor and `deleteQueue` are not modelled as members: the lemmas about the TSQ samples start from the empty queue the constructor leaves.
- The RESP2 value of a REWRITE or DELETE with no READ UPDATE before it is the model constant 30; the samples never issue one.
- The three wrappers' browse loops are the same loop over a different cursor class and are modelled once, as `VsamCommon.BrowseLoop`.
- `TSQExample4` extends `TSQExample3` in the source; the model gives each its own class over the same queue.
- Other tasks changing a file, queue or channel between two calls of a sample, and the rollback of a unit of work when a RuntimeException escapes, are not modelled.
