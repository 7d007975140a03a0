/**
 * The fixed-capacity circular queue of integers used by the board's breadth-first
 * search. Slots hold optional values; an empty slot is None.
 */
module IntQueues {
  import opened Wrappers

  class IntQueue {
    const maxSize: int
    var front: int
    var back: int
    const q: array<Option<int>>

    /** The values held, oldest first. */
    ghost var contents: seq<int>

    /** Index k of the buffer, wrapped once around its end. */
    function Wrap(k: int): int {
      if k >= maxSize then k - maxSize else k
    }

    /** How many slots slot j lies after front, going round the buffer. */
    function Age(j: int): int
      reads this
    {
      if j >= front then j - front else j + maxSize - front
    }

    /** The buffer and both cursors are in range. */
    predicate Shaped()
      reads this
    {
      q.Length == maxSize >= 1 && 0 <= front < maxSize && 0 <= back < maxSize
    }

    /**
     * The held values sit in consecutive slots from front (wrapping), back is the slot
     * of the newest one, and every other slot is empty.
     */
    ghost predicate Valid()
      reads this, q
    {
      && Shaped()
      && |contents| <= maxSize
      && Wrap(back + 1) == Wrap(front + |contents|)
      && forall j :: 0 <= j < maxSize ==>
           q[j] == if Age(j) < |contents| then Some(contents[Age(j)]) else None
    }

    /** init(maxSize:): an empty queue of the given capacity. */
    constructor (maxSize: int)
      requires maxSize >= 1
      ensures Valid() && contents == [] && this.maxSize == maxSize && fresh(q)
    {
      this.maxSize := maxSize;
      q := new Option<int>[maxSize](_ => None);
      front := 0;
      back := maxSize - 1;
      contents := [];
    }

    /**
     * getSize: the distance from front to back, where a distance of maxSize is read as
     * empty or full according to whether the front slot is empty.
     */
    function GetSize(): (n: int)
      requires Shaped()
      reads this, q
      ensures Valid() ==> n == |contents|
    {
      assert Age(front) == 0;
      if back < front then
        var diff := back + maxSize - front + 1;
        if diff == maxSize then (if q[front].None? then 0 else maxSize) else diff
      else
        var diff := back - front + 1;
        if diff == maxSize then (if q[front].None? then 0 else maxSize) else diff
    }

    /** offer: advance back (wrapping) and store the value in that slot, which is empty. */
    method Offer(val: int)
      requires Valid() && |contents| < maxSize
      modifies this, q
      ensures Valid() && contents == old(contents) + [val]
    {
      back := back + 1;
      if back >= maxSize {
        back := back - maxSize;
      }
      assert Age(back) == |contents|;
      assert q[back].None?;
      q[back] := Some(val);
      contents := contents + [val];
    }

    /**
     * poll: take the front slot's value, empty the slot and advance front (wrapping).
     * On an empty queue that yields None, and the cursors are left one apart the wrong
     * way, so that getSize reports maxSize - 1.
     */
    method Poll() returns (r: Option<int>)
      requires Valid()
      modifies this, q
      ensures old(|contents|) > 0 ==> Valid() && r == Some(old(contents)[0]) && contents == old(contents)[1..]
      ensures old(|contents|) == 0 ==> r == None && Shaped() && GetSize() == maxSize - 1
    {
      assert Age(front) == 0;
      r := q[front];
      q[front] := None;
      front := front + 1;
      if front >= maxSize {
        front := front - maxSize;
      }
      if |contents| > 0 {
        contents := contents[1..];
      }
    }
  }
}
