/** A reference bounded FIFO queue, and the statement that the ring buffer
    of RingBuffer.h behaves like it under every sequence of operations. */
module Fifo {
  import opened Wrappers
  import opened RingBuffers

  /** One call on the buffer's public interface. */
  datatype Op<T> =
    | PushOp(value: T)
    | PopOp
    | TopOp
    | StatusOp

  /** What that call reports back. */
  datatype Reply<T> =
    | Pushed(ok: bool)
    | Popped
    | Front(front: Option<T>)
    | Status(isEmpty: bool, hasSpace: bool, remaining: int)

  /** One operation on a bounded queue `q` of capacity `capacity`. */
  function Step<T>(capacity: nat, q: seq<T>, op: Op<T>): (seq<T>, Reply<T>)
  {
    match op
    case PushOp(v) => if |q| < capacity then (q + [v], Pushed(true)) else (q, Pushed(false))
    case PopOp => (if q == [] then [] else q[1..], Popped)
    case TopOp => (q, Front(if q == [] then None else Some(q[0])))
    case StatusOp => (q, Status(q == [], |q| < capacity, |q|))
  }

  /** The queue left after running `ops` from `q`. */
  function FinalQueue<T>(capacity: nat, q: seq<T>, ops: seq<Op<T>>): seq<T>
    decreases |ops|
  {
    if ops == [] then q else FinalQueue(capacity, Step(capacity, q, ops[0]).0, ops[1..])
  }

  /** The replies to `ops`, run from `q`. */
  function Replies<T>(capacity: nat, q: seq<T>, ops: seq<Op<T>>): (rs: seq<Reply<T>>)
    ensures |rs| == |ops|
    decreases |ops|
  {
    if ops == [] then []
    else
      var (q', r) := Step(capacity, q, ops[0]);
      [r] + Replies(capacity, q', ops[1..])
  }

  /** A bounded queue never holds more than its capacity. */
  lemma {:induction false} FinalQueueBounded<T>(capacity: nat, q: seq<T>, ops: seq<Op<T>>)
    requires |q| <= capacity
    ensures |FinalQueue(capacity, q, ops)| <= capacity
    decreases |ops|
  {
    if ops != [] {
      FinalQueueBounded(capacity, Step(capacity, q, ops[0]).0, ops[1..]);
    }
  }

  function Pushes<T>(xs: seq<T>): (ops: seq<Op<T>>)
    ensures |ops| == |xs|
  {
    if xs == [] then [] else [PushOp(xs[0])] + Pushes(xs[1..])
  }

  /** `k` rounds of reading the front and popping it. */
  function Drains<T>(k: nat): (ops: seq<Op<T>>)
    ensures |ops| == 2 * k
  {
    if k == 0 then [] else [TopOp, PopOp] + Drains(k - 1)
  }

  /** The replies a drain of the elements `xs`, in this order, gives. */
  function Drained<T>(xs: seq<T>): (rs: seq<Reply<T>>)
    ensures |rs| == 2 * |xs|
  {
    if xs == [] then [] else [Front(Some(xs[0])), Popped] + Drained(xs[1..])
  }

  function Accepted<T>(k: nat): (rs: seq<Reply<T>>)
    ensures |rs| == k
  {
    if k == 0 then [] else [Pushed(true)] + Accepted(k - 1)
  }

  lemma {:induction false} RunAppend<T>(capacity: nat, q: seq<T>, ops: seq<Op<T>>, more: seq<Op<T>>)
    ensures Replies(capacity, q, ops + more)
            == Replies(capacity, q, ops) + Replies(capacity, FinalQueue(capacity, q, ops), more)
    ensures FinalQueue(capacity, q, ops + more)
            == FinalQueue(capacity, FinalQueue(capacity, q, ops), more)
    decreases |ops|
  {
    if ops == [] {
      assert ops + more == more;
    } else {
      assert (ops + more)[1..] == ops[1..] + more;
      RunAppend(capacity, Step(capacity, q, ops[0]).0, ops[1..], more);
    }
  }

  /** Pushes into a queue with room for them all are all accepted, in order. */
  lemma {:induction false} PushesAccepted<T>(capacity: nat, q: seq<T>, xs: seq<T>)
    requires |q| + |xs| <= capacity
    ensures Replies(capacity, q, Pushes(xs)) == Accepted(|xs|)
    ensures FinalQueue(capacity, q, Pushes(xs)) == q + xs
    decreases |xs|
  {
    if xs != [] {
      PushesAccepted(capacity, q + [xs[0]], xs[1..]);
      assert q + [xs[0]] + xs[1..] == q + xs;
    }
  }

  /** Draining a queue reads its elements oldest first and leaves it empty. */
  lemma {:induction false} DrainsInOrder<T>(capacity: nat, q: seq<T>)
    ensures Replies(capacity, q, Drains(|q|)) == Drained(q)
    ensures FinalQueue(capacity, q, Drains(|q|)) == []
    decreases |q|
  {
    if q != [] {
      DrainsInOrder(capacity, q[1..]);
      var ops := Drains<T>(|q|);
      assert ops[1..][1..] == Drains(|q| - 1);
    }
  }

  /** Pushing k <= capacity elements into an empty buffer and then reading
      and popping k times returns them in push order and leaves it empty. */
  lemma FifoRoundTrip<T>(capacity: nat, xs: seq<T>)
    requires |xs| <= capacity
    ensures Replies(capacity, [], Pushes(xs) + Drains(|xs|)) == Accepted(|xs|) + Drained(xs)
    ensures FinalQueue(capacity, [], Pushes(xs) + Drains(|xs|)) == []
  {
    RunAppend(capacity, [], Pushes(xs), Drains(|xs|));
    PushesAccepted(capacity, [], xs);
    assert [] + xs == xs;
    DrainsInOrder(capacity, xs);
  }

  lemma StepUnfold<T>(capacity: nat, q: seq<T>, ops: seq<Op<T>>)
    requires ops != []
    ensures Replies(capacity, q, ops)
            == [Step(capacity, q, ops[0]).1] + Replies(capacity, Step(capacity, q, ops[0]).0, ops[1..])
    ensures FinalQueue(capacity, q, ops) == FinalQueue(capacity, Step(capacity, q, ops[0]).0, ops[1..])
  {
  }

  /** Performs one call on the ring buffer; it acts as the queue step does. */
  method Apply<T(0)>(b: RingBuffer<T>, op: Op<T>) returns (reply: Reply<T>)
    requires b.Valid()
    modifies b, b.data
    ensures b.Valid()
    ensures (b.Contents(), reply) == Step(b.capacity, old(b.Contents()), op)
  {
    match op
    case PushOp(v) =>
      var ok := b.Push(v);
      reply := Pushed(ok);
    case PopOp =>
      var _ := b.Pop(false);
      reply := Popped;
    case TopOp =>
      reply := Front(b.Top());
    case StatusOp =>
      reply := Status(b.IsEmpty(), b.HasSpace(), b.GetRemainingSpace());
  }

  /** Runs `ops` against a new ring buffer of the given capacity and
      collects what each call reports. */
  method Replay<T(0)>(capacity: nat, ops: seq<Op<T>>) returns (replies: seq<Reply<T>>, final: seq<T>)
    requires 0 < capacity
    ensures replies == Replies(capacity, [], ops)
    ensures final == FinalQueue(capacity, [], ops)
  {
    var b := new RingBuffer<T>(capacity);
    replies := [];
    var i := 0;
    while i < |ops|
      invariant 0 <= i <= |ops|
      invariant b.Valid() && b.capacity == capacity && fresh(b.data)
      invariant Replies(capacity, [], ops) == replies + Replies(capacity, b.Contents(), ops[i..])
      invariant FinalQueue(capacity, [], ops) == FinalQueue(capacity, b.Contents(), ops[i..])
    {
      ghost var q := b.Contents();
      var reply := Apply(b, ops[i]);
      StepUnfold(capacity, q, ops[i..]);
      assert ops[i..][1..] == ops[i + 1..];
      replies := replies + [reply];
      i := i + 1;
    }
    final := b.Contents();
    assert ops[i..] == [];
  }
}
