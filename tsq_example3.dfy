/**
 * Writing a fixed run of records to the temporary storage queue MYTSQ and
 * reading them back by item number.
 */
module TsqExample3 {
  import opened Cics
  import opened Bean
  import opened JcicsTsq

  const TSQ_NAME: string := "MYTSQ"

  /** The number of items written and read. */
  const DEPTH_COUNT: nat := 5

  /** The record written as item i: the fixed sample values, with record id i. */
  function Sample(i: int): TsqRecord {
    TsqRecord(i, 42, "TSQ test example", 123456789, 123, -99)
  }

  /** The first n samples, with record ids 1 to n. */
  function Samples(n: nat): (s: seq<TsqRecord>)
    ensures |s| == n
    ensures forall k :: 0 <= k < n ==> s[k] == Sample(k + 1)
  {
    if n == 0 then [] else Samples(n - 1) + [Sample(n)]
  }

  /**
   * What `readFromQueue` reads from a queue with these items, whose fault sets
   * in after `allowance` requests: items 1 to DEPTH_COUNT, or the condition of
   * the first read that fails.
   */
  function FirstItems(fault: Option<Condition>, allowance: nat, items: seq<TsqRecord>)
    : (r: Result<seq<TsqRecord>, Failure>)
    ensures r.Ok? <==> ServedBefore(fault, allowance, DEPTH_COUNT) == DEPTH_COUNT && |items| >= DEPTH_COUNT
    ensures r.Ok? ==> |r.value| == DEPTH_COUNT && forall k :: 0 <= k < DEPTH_COUNT ==> r.value[k] == items[k]
    ensures r.Err? ==> r.error.RuntimeFailure? && r.error.report == Unreported
    ensures r.Err? && |items| < ServedBefore(fault, allowance, DEPTH_COUNT) ==>
              r.error.cause == if items == [] then QueueIdError else ItemError
    ensures r.Err? && |items| >= ServedBefore(fault, allowance, DEPTH_COUNT) ==> Some(r.error.cause) == fault
  {
    var served := ServedBefore(fault, allowance, DEPTH_COUNT);
    if |items| < served then Err(RuntimeFailure(if items == [] then QueueIdError else ItemError, Unreported))
    else if served < DEPTH_COUNT then Err(RuntimeFailure(fault.value, Unreported))
    else Ok(items[..DEPTH_COUNT])
  }

  class TsqExample3 {
    const tsq: TemporaryStorageQueue<TsqRecord>

    constructor(tsq: TemporaryStorageQueue<TsqRecord>)
      ensures this.tsq == tsq
    {
      this.tsq := tsq;
    }

    /**
     * `writeToQueue`: appends items with record ids 1 to DEPTH_COUNT; a condition
     * escapes unchecked and keeps the items written before it.
     */
    method WriteToQueue() returns (r: Result<(), Failure>)
      requires tsq.Valid()
      modifies tsq
      ensures tsq.Valid() && tsq.next == old(tsq.next)
      ensures var written := ServedBefore(tsq.fault, old(tsq.allowance), DEPTH_COUNT);
              && tsq.items == old(tsq.items) + Samples(written)
              && tsq.allowance == Spent(old(tsq.allowance), written)
              && r == if written < DEPTH_COUNT then Err(RuntimeFailure(tsq.fault.value, Unreported)) else Ok(())
    {
      ghost var served := ServedBefore(tsq.fault, tsq.allowance, DEPTH_COUNT);
      var data := Sample(0);
      var i := 1;
      while i <= DEPTH_COUNT
        invariant 1 <= i <= DEPTH_COUNT + 1 && i - 1 <= served
        invariant tsq.Valid() && tsq.next == old(tsq.next)
        invariant tsq.items == old(tsq.items) + Samples(i - 1)
        invariant tsq.allowance == Spent(old(tsq.allowance), i - 1)
        invariant data == Sample(i - 1)
      {
        data := data.(recordId := i);
        var written := tsq.WriteItem(data);
        if written.Err? {
          return Err(RuntimeFailure(written.error, Unreported));
        }
        i := i + 1;
      }
      r := Ok(());
    }

    /**
     * `readFromQueue`: items 1 to DEPTH_COUNT in order (the records it prints);
     * a condition escapes unchecked. The NEXT pointer rests on the last item read.
     */
    method ReadFromQueue() returns (r: Result<seq<TsqRecord>, Failure>)
      requires tsq.Valid()
      modifies tsq
      ensures tsq.Valid() && tsq.items == old(tsq.items)
      ensures r == FirstItems(tsq.fault, old(tsq.allowance), tsq.items)
      ensures var served := ServedBefore(tsq.fault, old(tsq.allowance), DEPTH_COUNT);
              var found := if |tsq.items| < served then |tsq.items| else served;
              && tsq.next == (if found == 0 then old(tsq.next) else found)
              && tsq.allowance == Spent(old(tsq.allowance), if |tsq.items| < served then found + 1 else found)
    {
      ghost var served := ServedBefore(tsq.fault, tsq.allowance, DEPTH_COUNT);
      var read: seq<TsqRecord> := [];
      for i := 1 to DEPTH_COUNT + 1
        invariant tsq.Valid() && tsq.items == old(tsq.items)
        invariant i - 1 <= |tsq.items| && i - 1 <= served && read == tsq.items[..i - 1]
        invariant tsq.allowance == Spent(old(tsq.allowance), i - 1)
        invariant tsq.next == if i == 1 then old(tsq.next) else i - 1
      {
        var item := tsq.ReadItem(i);
        if item.Err? {
          return Err(RuntimeFailure(item.error, Unreported));
        }
        assert tsq.items[..i] == tsq.items[..i - 1] + [item.value];
        read := read + [item.value];
      }
      r := Ok(read);
    }
  }

  /**
   * On the empty queue TSQCommon leaves behind, `readFromQueue` reads back
   * exactly what `writeToQueue` wrote: item i carries record id i.
   */
  lemma WriteThenRead()
    ensures FirstItems(None, 0, [] + Samples(DEPTH_COUNT)) == Ok(Samples(DEPTH_COUNT))
    ensures forall k :: 0 <= k < DEPTH_COUNT ==> Samples(DEPTH_COUNT)[k].recordId == k + 1
  {
    var written := Samples(DEPTH_COUNT);
    assert [] + written == written;
    assert written[..DEPTH_COUNT] == written;
  }
}
