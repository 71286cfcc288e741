/** The abstract behaviour a ring buffer refines: a first-in first-out queue
    with a fixed capacity, where a put on a full queue is refused and a take
    on an empty queue yields a default value. */
module BoundedQueue {

  datatype Op<T> = Put(element: T) | Take | Clear
  datatype Out<T> = Accepted(ok: bool) | Took(element: T) | Cleared

  /** The queue after a sequence of operations, and what each one answered. */
  datatype Run<T> = Run(queue: seq<T>, outs: seq<Out<T>>)

  function Step<T>(q: seq<T>, capacity: int, default: T, op: Op<T>): (r: Run<T>)
    ensures |r.outs| == 1
  {
    match op
    case Put(e) =>
      if |q| < capacity then Run(q + [e], [Accepted(true)]) else Run(q, [Accepted(false)])
    case Take =>
      if q == [] then Run(q, [Took(default)]) else Run(q[1..], [Took(q[0])])
    case Clear =>
      Run([], [Cleared])
  }

  function Execute<T>(q: seq<T>, capacity: int, default: T, ops: seq<Op<T>>): (r: Run<T>)
    ensures |r.outs| == |ops|
    decreases |ops|
  {
    if ops == [] then Run(q, [])
    else
      var first := Step(q, capacity, default, ops[0]);
      var rest := Execute(first.queue, capacity, default, ops[1..]);
      Run(rest.queue, first.outs + rest.outs)
  }

  function Puts<T>(es: seq<T>): (ops: seq<Op<T>>)
    ensures |ops| == |es| && forall i :: 0 <= i < |es| ==> ops[i] == Put(es[i])
  {
    if es == [] then [] else [Put(es[0])] + Puts(es[1..])
  }

  function Takes<T>(n: nat): (ops: seq<Op<T>>)
    ensures |ops| == n && forall i :: 0 <= i < n ==> ops[i] == Take
  {
    if n == 0 then [] else [Take] + Takes(n - 1)
  }

  /** The answers to `n` accepted puts. */
  function AllAccepted<T>(n: nat): (outs: seq<Out<T>>)
    ensures |outs| == n && forall i :: 0 <= i < n ==> outs[i] == Accepted(true)
  {
    seq(n, _ => Accepted(true))
  }

  /** The answers to takes that return `es`, in order. */
  function AllTook<T>(es: seq<T>): (outs: seq<Out<T>>)
    ensures |outs| == |es| && forall i :: 0 <= i < |es| ==> outs[i] == Took(es[i])
  {
    seq(|es|, i requires 0 <= i < |es| => Took(es[i]))
  }

  /** Running two operation sequences one after the other. */
  lemma {:induction false} ExecuteAppend<T>(q: seq<T>, capacity: int, default: T, a: seq<Op<T>>, b: seq<Op<T>>)
    ensures Execute(q, capacity, default, a + b)
         == var ra := Execute(q, capacity, default, a);
            var rb := Execute(ra.queue, capacity, default, b);
            Run(rb.queue, ra.outs + rb.outs)
    decreases |a|
  {
    if a != [] {
      assert (a + b)[0] == a[0] && (a + b)[1..] == a[1..] + b;
      var first := Step(q, capacity, default, a[0]);
      ExecuteAppend(first.queue, capacity, default, a[1..], b);
    } else {
      assert a + b == b;
    }
  }

  /** Puts that fit are all accepted and appended in order. */
  lemma {:induction false} PutsFit<T>(q: seq<T>, capacity: int, default: T, es: seq<T>)
    requires |q| + |es| <= capacity
    ensures Execute(q, capacity, default, Puts(es)) == Run(q + es, AllAccepted(|es|))
    decreases |es|
  {
    if es != [] {
      PutsFit(q + [es[0]], capacity, default, es[1..]);
      assert q + [es[0]] + es[1..] == q + es;
      assert [Accepted(true)] + AllAccepted<T>(|es| - 1) == AllAccepted(|es|);
    } else {
      assert q + es == q;
    }
  }

  /** Taking as many elements as the queue holds yields them oldest first. */
  lemma {:induction false} TakesDrain<T>(q: seq<T>, capacity: int, default: T)
    ensures Execute(q, capacity, default, Takes(|q|)) == Run([], AllTook(q))
    decreases |q|
  {
    if q != [] {
      TakesDrain(q[1..], capacity, default);
      assert [Took(q[0])] + AllTook(q[1..]) == AllTook(q);
    }
  }

  /** First in, first out: elements put into an empty queue, as many as fit,
      come back out in the order they went in. */
  lemma FifoRoundTrip<T>(capacity: int, default: T, es: seq<T>)
    requires |es| <= capacity
    ensures Execute([], capacity, default, Puts(es) + Takes(|es|)).outs
         == AllAccepted(|es|) + AllTook(es)
  {
    ExecuteAppend([], capacity, default, Puts(es), Takes(|es|));
    PutsFit([], capacity, default, es);
    assert [] + es == es;
    TakesDrain(es, capacity, default);
  }
}
