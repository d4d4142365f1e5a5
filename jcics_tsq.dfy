/**
 * A CICS temporary storage queue as the JCICS `TSQ` class presents it: items
 * numbered from 1, a NEXT pointer that READQ NEXT advances and READQ ITEM sets,
 * and no queue at all until the first item is written.
 */
module JcicsTsq {
  import opened Cics

  /** The allowance left after `n` more requests are served. */
  function Spent(allowance: nat, n: nat): nat {
    if allowance >= n then allowance - n else 0
  }

  /**
   * How many of the next `n` requests a queue serves before its fault sets in:
   * all of them, or exactly its allowance when that is shorter.
   */
  function ServedBefore(fault: Option<Condition>, allowance: nat, n: nat): (k: nat)
    ensures k <= n
    ensures k < n <==> fault.Some? && allowance < n
    ensures k < n ==> k == allowance
  {
    if fault.Some? && allowance < n then allowance else n
  }

  class TemporaryStorageQueue<T> {
    /**
     * The condition, if any, the queue raises for every request once it has
     * served `allowance` more (NOSPACE as auxiliary storage fills, IOERR, ...).
     */
    const fault: Option<Condition>
    /** The number of requests the queue still serves before `fault` sets in. */
    var allowance: nat
    /** The items, item n at index n - 1; the queue exists only while it holds items. */
    var items: seq<T>
    /** The number of the item the last READQ NEXT or READQ ITEM read (0 before any). */
    var next: nat

    ghost predicate Valid()
      reads this
    {
      next <= |items|
    }

    constructor(fault: Option<Condition>, allowance: nat, items: seq<T>, next: nat)
      requires next <= |items|
      ensures Valid() && this.fault == fault && this.allowance == allowance
      ensures this.items == items && this.next == next
    {
      this.fault := fault;
      this.allowance := allowance;
      this.items := items;
      this.next := next;
    }

    /** Whether the fault has set in: every request now raises it. */
    predicate Failing()
      reads this
    {
      fault.Some? && allowance == 0
    }

    /** `writeItem`: appends the item and answers its number. */
    method WriteItem(item: T) returns (r: Result<nat, Condition>)
      requires Valid()
      modifies this
      ensures Valid() && next == old(next) && allowance == Spent(old(allowance), 1)
      ensures old(Failing()) ==> r == Err(fault.value) && items == old(items)
      ensures !old(Failing()) ==> r == Ok(|old(items)| + 1) && items == old(items) + [item]
    {
      if Failing() {
        return Err(fault.value);
      }
      allowance := Spent(allowance, 1);
      items := items + [item];
      r := Ok(|items|);
    }

    /**
     * The answer to a request for item n: the fault once it has set in, QIDERR
     * with no queue, ITEMERR when there is no item n.
     */
    function ItemRefusal(n: int): Option<Condition>
      reads this
    {
      if Failing() then fault
      else if items == [] then Some(QueueIdError)
      else if n < 1 || n > |items| then Some(ItemError)
      else None
    }

    /** `readItem(n, holder)`: item n; the NEXT pointer moves to it. */
    method ReadItem(n: int) returns (r: Result<T, Condition>)
      requires Valid()
      modifies this
      ensures Valid() && items == old(items) && allowance == Spent(old(allowance), 1)
      ensures old(ItemRefusal(n)).Some? ==> r == Err(old(ItemRefusal(n)).value) && next == old(next)
      ensures old(ItemRefusal(n)).None? ==> r == Ok(items[n - 1]) && next == n
    {
      var refusal := ItemRefusal(n);
      allowance := Spent(allowance, 1);
      if refusal.Some? {
        return Err(refusal.value);
      }
      next := n;
      r := Ok(items[n - 1]);
    }

    /** `readNextItem(holder)`: the item after the NEXT pointer; ITEMERR past the last. */
    method ReadNextItem() returns (r: Result<T, Condition>)
      requires Valid()
      modifies this
      ensures Valid() && items == old(items) && allowance == Spent(old(allowance), 1)
      ensures old(ItemRefusal(next + 1)).Some? ==> r == Err(old(ItemRefusal(next + 1)).value) && next == old(next)
      ensures old(ItemRefusal(next + 1)).None? ==> r == Ok(items[old(next)]) && next == old(next) + 1
    {
      var refusal := ItemRefusal(next + 1);
      allowance := Spent(allowance, 1);
      if refusal.Some? {
        return Err(refusal.value);
      }
      r := Ok(items[next]);
      next := next + 1;
    }

    /** `rewriteItem(n, item)`: replaces item n. */
    method RewriteItem(n: int, item: T) returns (c: Option<Condition>)
      requires Valid()
      modifies this
      ensures Valid() && next == old(next) && allowance == Spent(old(allowance), 1)
      ensures c == old(ItemRefusal(n))
      ensures c.Some? ==> items == old(items)
      ensures c.None? ==> items == old(items)[n - 1 := item]
    {
      c := ItemRefusal(n);
      allowance := Spent(allowance, 1);
      if c.None? {
        items := items[n - 1 := item];
      }
    }
  }
}
