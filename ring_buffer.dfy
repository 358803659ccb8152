/** The generic fixed-capacity ring buffer of RingBuffer.h, with the
    single-threaded behaviour of its `_impl` members. */
module RingBuffers {
  import opened Wrappers

  /** Reduction of a cursor sum that is below twice the modulus: at most one
      subtraction of the modulus. */
  lemma ModOnce(a: int, m: int)
    requires 0 < m && 0 <= a < 2 * m
    ensures a % m == if a < m then a else a - m
  {
    if a >= m {
      assert a == m * 1 + (a - m);
    }
  }

  /** The element count that the cursors and the flag encode. */
  function Occupied(idx: nat, endIdx: nat, full: bool, capacity: nat): (n: nat)
    requires 0 < capacity && idx < capacity && endIdx < capacity
    ensures n <= capacity
  {
    if full then capacity else (endIdx + capacity - idx) % capacity
  }

  lemma OccupiedAfterPop(idx: nat, endIdx: nat, full: bool, capacity: nat)
    requires 0 < capacity && idx < capacity && endIdx < capacity
    requires full ==> idx == endIdx
    requires !(idx == endIdx && !full)
    ensures Occupied((idx + 1) % capacity, endIdx, false, capacity)
            == Occupied(idx, endIdx, full, capacity) - 1
  {
    ModOnce(idx + 1, capacity);
    ModOnce(endIdx + capacity - idx, capacity);
    ModOnce(endIdx + capacity - (idx + 1) % capacity, capacity);
  }

  lemma OccupiedAfterPush(idx: nat, endIdx: nat, full: bool, capacity: nat)
    requires 0 < capacity && idx < capacity && endIdx < capacity
    requires full ==> idx == endIdx
    requires !full
    ensures var e := (endIdx + 1) % capacity;
      && Occupied(idx, e, e == idx, capacity) == Occupied(idx, endIdx, full, capacity) + 1
      && e == (idx + Occupied(idx, endIdx, full, capacity) + 1) % capacity
  {
    var n := Occupied(idx, endIdx, full, capacity);
    ModOnce(endIdx + 1, capacity);
    ModOnce(endIdx + capacity - idx, capacity);
    ModOnce(idx + n + 1, capacity);
    ModOnce((endIdx + 1) % capacity + capacity - idx, capacity);
  }

  /** The `n` slots of the circular array `s` starting at slot `start`. */
  function Window<T>(s: seq<T>, start: nat, n: nat): (w: seq<T>)
    requires start < |s| && n <= |s|
  {
    seq(n, i requires 0 <= i < n => s[(start + i) % |s|])
  }

  class RingBuffer<T(0)> {
    /** The template parameter CAPACITY. */
    const capacity: nat
    /** The slot vector, sized once by the constructor and never resized. */
    const data: array<T>
    /** Read cursor: the slot of the oldest unread element. */
    var idx: nat
    /** Write cursor: the slot the next push writes. */
    var endIdx: nat
    /** Tells a full buffer from an empty one when the cursors meet. */
    var full: bool

    ghost predicate Valid()
      reads this
    {
      && 0 < capacity
      && data.Length == capacity
      && idx < capacity
      && endIdx < capacity
      && (full ==> idx == endIdx)
    }

    /** The number of held elements, as the cursors and the flag encode it. */
    function Size(): (n: nat)
      reads this
      requires Valid()
      ensures n <= capacity
    {
      Occupied(idx, endIdx, full, capacity)
    }

    /** The abstract FIFO view: held elements, oldest first. */
    function Contents(): (s: seq<T>)
      reads this, data
      requires Valid()
      ensures |s| == Size()
    {
      Window(data[..], idx, Size())
    }

    /** The write cursor sits `Size()` slots after the read cursor. */
    lemma EndFollowsSize()
      requires Valid()
      ensures endIdx == (idx + Size()) % capacity
      ensures Size() == 0 <==> (idx == endIdx && !full)
      ensures Size() == capacity <==> full
    {
      ModOnce(endIdx + capacity - idx, capacity);
      ModOnce(idx + Size(), capacity);
    }

    constructor (capacity: nat)
      requires 0 < capacity
      ensures Valid() && fresh(data)
      ensures this.capacity == capacity && idx == 0 && endIdx == 0 && !full
      ensures Contents() == []
    {
      this.capacity := capacity;
      data := new T[capacity];
      idx, endIdx, full := 0, 0, false;
    }

    function GetCapacity(): (c: nat)
      reads this
      requires Valid()
      ensures c == data.Length && 0 < c
    {
      capacity
    }

    function IsEmpty(): (b: bool)
      reads this, data
      requires Valid()
      ensures b <==> Contents() == []
    {
      EndFollowsSize();
      idx == endIdx && !full
    }

    function HasSpace(): (b: bool)
      reads this, data
      requires Valid()
      ensures b <==> |Contents()| < capacity
    {
      EndFollowsSize();
      !(idx == endIdx && full)
    }

    /** Despite its name, the number of OCCUPIED slots. */
    function GetRemainingSpace(): (n: int)
      reads this, data
      requires Valid()
      ensures n == |Contents()|
      ensures 0 <= n <= capacity
    {
      EndFollowsSize();
      ModOnce(endIdx + capacity - idx, capacity);
      if idx == endIdx then (if full then capacity else 0)
      else if idx < endIdx then endIdx - idx
      else (endIdx + capacity) - idx
    }

    /** The oldest element, or None (the null pointer) when empty. */
    function Top(): (r: Option<T>)
      reads this, data
      requires Valid()
      ensures r.None? <==> Contents() == []
      ensures r.Some? ==> r.value == Contents()[0]
    {
      EndFollowsSize();
      ModOnce(idx, capacity);
      if idx == endIdx && !full then None else Some(data[idx])
    }

    method Push(value: T) returns (ok: bool)
      requires Valid()
      modifies this, data
      ensures Valid()
      ensures ok <==> old(|Contents()|) < capacity
      ensures ok ==> Contents() == old(Contents()) + [value]
      ensures !ok ==> Contents() == old(Contents())
      ensures idx == old(idx)
      ensures ok ==> && endIdx == (old(endIdx) + 1) % capacity
                     && full == (endIdx == idx)
                     && data[..] == old(data[..])[old(endIdx) := value]
      ensures !ok ==> endIdx == old(endIdx) && full == old(full) && data[..] == old(data[..])
    {
      EndFollowsSize();
      if idx == endIdx && full {
        return false;
      }
      ghost var before := data[..];
      ghost var n := Size();
      OccupiedAfterPush(idx, endIdx, full, capacity);
      data[endIdx] := value;
      endIdx := (endIdx + 1) % capacity;
      if idx == endIdx {
        full := true;
      }
      ok := true;
      PushedWindow(before, idx, n, value);
    }

    method Pop(cleanup: bool) returns (cleaned: Option<T>)
      requires Valid()
      modifies this
      ensures Valid()
      ensures old(Contents()) == [] ==>
        && Contents() == [] && cleaned == None
        && idx == old(idx) && endIdx == old(endIdx) && full == old(full)
      ensures old(Contents()) != [] ==>
        && Contents() == old(Contents())[1..]
        && cleaned == (if cleanup then Some(old(Contents())[0]) else None)
        && idx == (old(idx) + 1) % capacity && endIdx == old(endIdx) && !full
    {
      EndFollowsSize();
      if idx == endIdx && !full {
        return None;
      }
      ghost var before := Contents();
      ghost var n := Size();
      ModOnce(idx, capacity);
      assert data[idx] == before[0];
      cleaned := if cleanup then Some(data[idx]) else None;
      OccupiedAfterPop(idx, endIdx, full, capacity);
      PoppedWindow(data[..], idx, n);
      idx := (idx + 1) % capacity;
      if full {
        full := false;
      }
      assert Size() == n - 1;
      assert Contents() == before[1..];
    }

    /** A write through the pointer that `Top` returns. */
    method WriteTop(value: T)
      requires Valid() && Contents() != []
      modifies data
      ensures Valid()
      ensures Contents() == [value] + old(Contents())[1..]
      ensures data[..] == old(data[..])[idx := value]
    {
      ghost var before := data[..];
      data[idx] := value;
      RewrittenWindow(before, idx, Size(), value);
    }
  }

  lemma PushedWindow<T>(s: seq<T>, start: nat, n: nat, v: T)
    requires start < |s| && n < |s|
    ensures Window(s[(start + n) % |s| := v], start, n + 1) == Window(s, start, n) + [v]
  {
    var t := s[(start + n) % |s| := v];
    forall i | 0 <= i < n
      ensures Window(t, start, n + 1)[i] == Window(s, start, n)[i]
    {
      ModOnce(start + i, |s|);
      ModOnce(start + n, |s|);
    }
  }

  lemma PoppedWindow<T>(s: seq<T>, start: nat, n: nat)
    requires start < |s| && 0 < n <= |s|
    ensures Window(s, (start + 1) % |s|, n - 1) == Window(s, start, n)[1..]
  {
    forall i | 0 <= i < n - 1
      ensures Window(s, (start + 1) % |s|, n - 1)[i] == Window(s, start, n)[1..][i]
    {
      ModOnce(start + 1, |s|);
      ModOnce((start + 1) % |s| + i, |s|);
      ModOnce(start + 1 + i, |s|);
    }
  }

  lemma RewrittenWindow<T>(s: seq<T>, start: nat, n: nat, v: T)
    requires start < |s| && 0 < n <= |s|
    ensures Window(s[start := v], start, n) == [v] + Window(s, start, n)[1..]
  {
    forall i | 0 <= i < n
      ensures Window(s[start := v], start, n)[i] == ([v] + Window(s, start, n)[1..])[i]
    {
      ModOnce(start + i, |s|);
    }
  }
}
