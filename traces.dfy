/** Runs of the ring buffer: any interleaving of `Deposit`, `Get` and `Reset`
    answers exactly as a bounded first-in first-out queue of elements would,
    with capacity `(length - 1) / granularity` and zero bytes for a get on an
    empty buffer. */
module Traces {
  import opened RingSpec
  import opened BoundedQueue

  /** Every element deposited in `ops` is one granularity long. */
  predicate ElementsFit(ops: seq<Op<seq<bv8>>>, g: int) {
    forall i :: 0 <= i < |ops| && ops[i].Put? ==> |ops[i].element| == g
  }

  /** The ring after a sequence of operations, and what each one answered. */
  datatype RingRun = RingRun(ring: Ring, outs: seq<Out<seq<bv8>>>)

  function RingStep(s: Ring, op: Op<seq<bv8>>): (r: RingRun)
    requires WellFormed(s) && (op.Put? ==> |op.element| == s.granularity)
    ensures WellFormed(r.ring) && |r.outs| == 1
    ensures r.ring.granularity == s.granularity && r.ring.length == s.length
  {
    match op
    case Put(e) => RingRun(Deposit(s, e), [Accepted(!WouldLap(s))])
    case Take => RingRun(Get(s), [Took(GetValue(s))])
    case Clear => RingRun(Reset(s), [Cleared])
  }

  function RingExecute(s: Ring, ops: seq<Op<seq<bv8>>>): (r: RingRun)
    requires WellFormed(s) && ElementsFit(ops, s.granularity)
    ensures WellFormed(r.ring) && |r.outs| == |ops|
    ensures r.ring.granularity == s.granularity && r.ring.length == s.length
    decreases |ops|
  {
    if ops == [] then RingRun(s, [])
    else
      var first := RingStep(s, ops[0]);
      var rest := RingExecute(first.ring, ops[1..]);
      RingRun(rest.ring, first.outs + rest.outs)
  }

  /** One operation on a ring that holds `q` answers as the queue does and
      leaves a ring that holds the queue's new contents. */
  lemma StepRefines(s: Ring, q: seq<seq<bv8>>, op: Op<seq<bv8>>)
    requires Holds(s, q) && (op.Put? ==> |op.element| == s.granularity)
    ensures var r := RingStep(s, op);
            var a := Step(q, Capacity(s.length, s.granularity), Zeros(s.granularity), op);
            Holds(r.ring, a.queue) && r.outs == a.outs
  {
    match op
    case Put(e) => DepositRefines(s, q, e);
    case Take => GetRefines(s, q);
    case Clear => ResetRefines(s, q);
  }

  /** Any run of the ring refines the same run of the queue: byte-identical
      elements come out, in deposit order, and deposits are refused exactly
      when the queue is at capacity. */
  lemma {:induction false} RunRefines(s: Ring, q: seq<seq<bv8>>, ops: seq<Op<seq<bv8>>>)
    requires Holds(s, q) && ElementsFit(ops, s.granularity)
    ensures var r := RingExecute(s, ops);
            var a := Execute(q, Capacity(s.length, s.granularity), Zeros(s.granularity), ops);
            Holds(r.ring, a.queue) && r.outs == a.outs
    decreases |ops|
  {
    if ops != [] {
      StepRefines(s, q, ops[0]);
      var first := RingStep(s, ops[0]);
      var qfirst := Step(q, Capacity(s.length, s.granularity), Zeros(s.granularity), ops[0]);
      assert ElementsFit(ops[1..], s.granularity) by {
        forall i | 0 <= i < |ops| - 1 && ops[1..][i].Put?
          ensures |ops[1..][i].element| == s.granularity
        {
          assert ops[1..][i] == ops[i + 1];
        }
      }
      RunRefines(first.ring, qfirst.queue, ops[1..]);
    }
  }

  /** A ring whose cursors meet holds no elements. */
  lemma CursorsMetHoldsEmpty(s: Ring)
    requires Valid(s) && s.read == s.write
    ensures Holds(s, [])
  {
    assert LiveBytes(s) == [];
  }

  /** Deposits that fit into an empty ring, followed by as many gets, return
      the deposited elements byte for byte and in order. */
  lemma RingFifoRoundTrip(s: Ring, es: seq<seq<bv8>>)
    requires Valid(s) && s.read == s.write
    requires Sized(es, s.granularity) && |es| <= Capacity(s.length, s.granularity)
    ensures ElementsFit(Puts(es) + Takes(|es|), s.granularity)
    ensures RingExecute(s, Puts(es) + Takes(|es|)).outs == AllAccepted(|es|) + AllTook(es)
  {
    var ops := Puts(es) + Takes(|es|);
    assert ElementsFit(ops, s.granularity) by {
      forall i | 0 <= i < |ops| && ops[i].Put?
        ensures |ops[i].element| == s.granularity
      {
        assert i < |es| && ops[i] == Put(es[i]);
      }
    }
    CursorsMetHoldsEmpty(s);
    RunRefines(s, [], ops);
    FifoRoundTrip(Capacity(s.length, s.granularity), Zeros(s.granularity), es);
  }

  /** A ring of 32 bytes with 8-byte elements holds three elements: the
      fourth deposit is refused, and accepted once one element is taken. */
  lemma ThreeOfFourSlots(s: Ring, e1: seq<bv8>, e2: seq<bv8>, e3: seq<bv8>, e4: seq<bv8>)
    requires Valid(s) && s.read == s.write && s.length == 32 && s.granularity == 8
    requires |e1| == |e2| == |e3| == |e4| == 8
    ensures ElementsFit([Put(e1), Put(e2), Put(e3), Put(e4), Take, Put(e4)], 8)
    ensures RingExecute(s, [Put(e1), Put(e2), Put(e3), Put(e4), Take, Put(e4)]).outs
         == [Accepted(true), Accepted(true), Accepted(true), Accepted(false), Took(e1), Accepted(true)]
  {
    var ops := [Put(e1), Put(e2), Put(e3), Put(e4), Take, Put(e4)];
    CursorsMetHoldsEmpty(s);
    RunRefines(s, [], ops);
    var c, z := Capacity(32, 8), Zeros(8);
    assert c == 3;
    assert [] + [e1] == [e1] && [e1] + [e2] == [e1, e2] && [e1, e2] + [e3] == [e1, e2, e3];
    assert [e1, e2, e3][1..] == [e2, e3] && [e2, e3] + [e4] == [e2, e3, e4];
    assert ops[5..][1..] == [];
    var r5 := Execute([e2, e3], c, z, ops[5..]);
    assert r5.outs == [Accepted(true)];
    var r4 := Execute([e1, e2, e3], c, z, ops[4..]);
    assert r4.outs == [Took(e1)] + r5.outs;
    var r3 := Execute([e1, e2, e3], c, z, ops[3..]);
    assert r3.outs == [Accepted(false)] + r4.outs;
    var r2 := Execute([e1, e2], c, z, ops[2..]);
    assert r2.outs == [Accepted(true)] + r3.outs;
    var r1 := Execute([e1], c, z, ops[1..]);
    assert r1.outs == [Accepted(true)] + r2.outs;
    assert Execute([], c, z, ops).outs == [Accepted(true)] + r1.outs;
  }
}
