/**
 * Updating every item of the temporary storage queue MYTSQ in place: a browse
 * with READQ NEXT, each record changed and rewritten, until ITEMERR marks the
 * end of the queue.
 */
module TsqExample4 {
  import opened Cics
  import opened Bean
  import opened JcicsTsq
  import opened TsqExample3

  /** The change `updateQueue` makes to one record: record id plus 100, "Updated: " before the text. */
  function Updated(r: TsqRecord): TsqRecord {
    r.(recordId := r.recordId + 100, characterString := "Updated: " + r.characterString)
  }

  /**
   * The items after `count` rounds of the loop on a queue whose NEXT pointer
   * stood at `start`: item k + 1 holds the update of item start + k + 1.
   */
  function UpdatedQueue(items: seq<TsqRecord>, start: nat, count: nat): (r: seq<TsqRecord>)
    requires start + count <= |items|
    ensures |r| == |items|
  {
    seq(|items|, k requires 0 <= k < |items| => if k < count then Updated(items[start + k]) else items[k])
  }

  /**
   * The requests a complete `updateQueue` makes from NEXT pointer `start`: a
   * READQ NEXT and a rewrite for each item after it, and the READQ NEXT that
   * ends the loop.
   */
  function SweepLength(items: seq<TsqRecord>, start: nat): nat
    requires start <= |items|
  {
    2 * (|items| - start) + 1
  }

  /**
   * Whether the queue's fault sets in before the sweep is through. It strikes
   * request allowance + 1: a READQ NEXT when the allowance is even, a rewrite
   * when it is odd.
   */
  predicate Interrupted(fault: Option<Condition>, allowance: nat, items: seq<TsqRecord>, start: nat)
    requires start <= |items|
  {
    fault.Some? && allowance < SweepLength(items, start)
  }

  /** How many items `updateQueue` rewrites before it ends. */
  function UpdatedCount(fault: Option<Condition>, allowance: nat, items: seq<TsqRecord>, start: nat): (n: nat)
    requires start <= |items|
    ensures start + n <= |items|
    ensures Interrupted(fault, allowance, items, start) ==> 2 * n <= allowance <= 2 * n + 1
    ensures !Interrupted(fault, allowance, items, start) ==> n == |items| - start
  {
    if Interrupted(fault, allowance, items, start) then allowance / 2 else |items| - start
  }

  /**
   * How `updateQueue` ends: ITEMERR from READQ NEXT is the normal end; QIDERR
   * with no queue, and any other condition, escapes unchecked.
   */
  function UpdateOutcome(fault: Option<Condition>, allowance: nat, items: seq<TsqRecord>, start: nat)
    : Result<(), Failure>
    requires start <= |items|
  {
    if Interrupted(fault, allowance, items, start) then
      if allowance % 2 == 0 && fault.value == ItemError then Ok(())
      else Err(RuntimeFailure(fault.value, Unreported))
    else if items == [] then Err(RuntimeFailure(QueueIdError, Unreported))
    else Ok(())
  }

  class TsqExample4 {
    const tsq: TemporaryStorageQueue<TsqRecord>

    constructor(tsq: TemporaryStorageQueue<TsqRecord>)
      ensures this.tsq == tsq
    {
      this.tsq := tsq;
    }

    /**
     * `updateQueue`: rewrites item 1, 2, ... with the update of each item the
     * browse reads; a condition escapes with the items before it rewritten.
     */
    method UpdateQueue() returns (r: Result<(), Failure>)
      requires tsq.Valid()
      modifies tsq
      ensures tsq.Valid()
      ensures var start, allowance := old(tsq.next), old(tsq.allowance);
              var interrupted := Interrupted(tsq.fault, allowance, old(tsq.items), start);
              var n := UpdatedCount(tsq.fault, allowance, old(tsq.items), start);
              && r == UpdateOutcome(tsq.fault, allowance, old(tsq.items), start)
              && tsq.items == UpdatedQueue(old(tsq.items), start, n)
              && tsq.next == start + n + (if interrupted then allowance % 2 else 0)
              && tsq.allowance == if interrupted then 0 else Spent(allowance, SweepLength(old(tsq.items), start))
    {
      var currentItem := 1;
      var failed: Option<Condition> := None;
      while true
        invariant tsq.Valid() && |tsq.items| == |old(tsq.items)|
        invariant 1 <= currentItem && tsq.next == old(tsq.next) + currentItem - 1
        invariant tsq.items == UpdatedQueue(old(tsq.items), old(tsq.next), currentItem - 1)
        invariant tsq.allowance == Spent(old(tsq.allowance), 2 * (currentItem - 1))
        invariant tsq.fault.Some? ==> 2 * (currentItem - 1) <= old(tsq.allowance)
        invariant currentItem > 1 ==> old(tsq.items) != []
        decreases |tsq.items| - tsq.next
      {
        var item := tsq.ReadNextItem();
        if item.Err? {
          if item.error != ItemError {
            failed := Some(item.error);
          }
          break;
        }
        var c := tsq.RewriteItem(currentItem, Updated(item.value));
        if c.Some? {
          failed := c;
          break;
        }
        currentItem := currentItem + 1;
      }
      r := if failed.Some? then Err(RuntimeFailure(failed.value, Unreported)) else Ok(());
    }
  }

  /** From a browse starting at item 1, every item is updated where it stands and the length is kept. */
  lemma UpdateInPlace(items: seq<TsqRecord>)
    ensures |UpdatedQueue(items, 0, |items|)| == |items|
    ensures forall k :: 0 <= k < |items| ==> UpdatedQueue(items, 0, |items|)[k] == Updated(items[k])
  {
  }

  /**
   * From a NEXT pointer already at item p > 0, the updates land p places early
   * and the last p items keep their old contents.
   */
  lemma UpdateShifted(items: seq<TsqRecord>, p: nat)
    requires 0 < p <= |items|
    ensures var after := UpdatedQueue(items, p, |items| - p);
            && (forall k :: 0 <= k < |items| - p ==> after[k] == Updated(items[k + p]))
            && (forall k :: |items| - p <= k < |items| ==> after[k] == items[k])
  {
  }

  /**
   * TSQExample4's run on the empty queue: write the samples, update them, read
   * them back; item k comes back with record id k + 100 and the text
   * "Updated: TSQ test example".
   */
  lemma {:induction false} WriteUpdateRead()
    ensures var after := UpdatedQueue(Samples(DEPTH_COUNT), 0, DEPTH_COUNT);
            && UpdateOutcome(None, 0, Samples(DEPTH_COUNT), 0) == Ok(())
            && FirstItems(None, 0, after) == Ok(after)
            && forall k :: 0 <= k < DEPTH_COUNT ==>
                 after[k] == TsqRecord(k + 101, 42, "Updated: TSQ test example", 123456789, 123, -99)
  {
    var after := UpdatedQueue(Samples(DEPTH_COUNT), 0, DEPTH_COUNT);
    assert after[..DEPTH_COUNT] == after;
    assert "Updated: " + "TSQ test example" == "Updated: TSQ test example";
  }
}
