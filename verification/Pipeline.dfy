/** pipeline.go: the dispatcher that puts acknowledged writes back into sequence order, and the
    forwarder that hands observed writes to the writer first and the reconciler second. */
module Pipeline {
  import opened Types

  /** The dispatcher's variables: the next sequence number to send, the writes that came early, and
      everything sent to the sniffer so far. */
  datatype Order = Order(nextSeq: nat, pending: map<nat, WriteEvent>, sent: seq<WriteEvent>)

  const START := Order(1, map[], [])

  /** Sends ev and then every pending write that is next in line. */
  function DispatchFrom(o: Order, ev: WriteEvent): Order
    decreases |o.pending|
  {
    var o1 := o.(sent := o.sent + [ev], nextSeq := o.nextSeq + 1);
    if o1.nextSeq in o1.pending then
      assert |(o1.pending - {o1.nextSeq}).Keys| < |o1.pending.Keys| by {
        assert (o1.pending - {o1.nextSeq}).Keys == o1.pending.Keys - {o1.nextSeq};
      }
      DispatchFrom(o1.(pending := o1.pending - {o1.nextSeq}), o1.pending[o1.nextSeq])
    else o1
  }

  function Accept(o: Order, ev: WriteEvent): Order {
    if ev.seqNo < o.nextSeq then o
    else if ev.seqNo > o.nextSeq then o.(pending := o.pending[ev.seqNo := ev])
    else DispatchFrom(o, ev)
  }

  function AcceptAll(o: Order, arrivals: seq<WriteEvent>): Order {
    if arrivals == [] then o
    else Accept(AcceptAll(o, arrivals[..|arrivals| - 1]), arrivals[|arrivals| - 1])
  }

  /** Sent writes are numbered 1, 2, 3, ...; pending ones are later than the next and keep their number. */
  ghost predicate InOrder(o: Order) {
    && o.nextSeq == |o.sent| + 1
    && (forall i :: 0 <= i < |o.sent| ==> o.sent[i].seqNo == i + 1)
    && (forall k :: k in o.pending ==> o.pending[k].seqNo == k && k > o.nextSeq)
  }

  /** ev has been taken in: it is either sent or pending. */
  ghost predicate Has(o: Order, ev: WriteEvent) {
    || (1 <= ev.seqNo <= |o.sent| && o.sent[ev.seqNo - 1] == ev)
    || (ev.seqNo in o.pending && o.pending[ev.seqNo] == ev)
  }

  /** Dispatching loses nothing, invents nothing, and stops only where the next number is missing. */
  lemma {:induction false} DispatchKeeps(o: Order, ev: WriteEvent)
    requires o.nextSeq == |o.sent| + 1 == ev.seqNo
    requires forall i :: 0 <= i < |o.sent| ==> o.sent[i].seqNo == i + 1
    requires forall k :: k in o.pending ==> o.pending[k].seqNo == k && k > o.nextSeq
    ensures var r := DispatchFrom(o, ev);
      && InOrder(r) && o.sent <= r.sent && |r.sent| > |o.sent|
      && forall e :: Has(r, e) <==> Has(o, e) || e == ev
    decreases |o.pending|
  {
    var o1 := o.(sent := o.sent + [ev], nextSeq := o.nextSeq + 1);
    assert forall e :: Has(o1, e) <==> Has(o, e) || e == ev;
    if o1.nextSeq in o1.pending {
      var o2 := o1.(pending := o1.pending - {o1.nextSeq});
      assert o2.pending.Keys == o1.pending.Keys - {o1.nextSeq};
      DispatchKeeps(o2, o1.pending[o1.nextSeq]);
      assert forall e :: Has(o1, e) <==> Has(o2, e) || e == o1.pending[o1.nextSeq];
    }
  }

  lemma AcceptKeeps(o: Order, ev: WriteEvent)
    requires InOrder(o) && forall e :: Has(o, e) ==> e.seqNo != ev.seqNo
    requires ev.seqNo > 0
    ensures var r := Accept(o, ev);
      && InOrder(r) && o.sent <= r.sent
      && forall e :: Has(r, e) <==> Has(o, e) || e == ev
  {
    if ev.seqNo == o.nextSeq {
      DispatchKeeps(o, ev);
    } else if ev.seqNo < o.nextSeq {
      assert Has(o, o.sent[ev.seqNo - 1]);
    } else if ev.seqNo in o.pending {
      assert Has(o, o.pending[ev.seqNo]);
    }
  }

  ghost predicate DistinctNumbers(arrivals: seq<WriteEvent>) {
    && (forall i :: 0 <= i < |arrivals| ==> arrivals[i].seqNo > 0)
    && (forall i, j :: 0 <= i < j < |arrivals| ==> arrivals[i].seqNo != arrivals[j].seqNo)
  }

  /** Whatever the arrival order: sent is 1..nextSeq-1 in order, sent and pending together are the
      arrivals, and nextSeq itself has not arrived. */
  lemma {:induction false} ArrivalsAreSentOrPending(arrivals: seq<WriteEvent>)
    requires DistinctNumbers(arrivals)
    ensures var o := AcceptAll(START, arrivals);
      && InOrder(o)
      && (forall e :: Has(o, e) <==> e in arrivals)
      && (forall e :: e in arrivals ==> e.seqNo != o.nextSeq)
  {
    if arrivals != [] {
      var init, last := arrivals[..|arrivals| - 1], arrivals[|arrivals| - 1];
      ArrivalsAreSentOrPending(init);
      assert arrivals == init + [last];
      forall e | e in init ensures e.seqNo != last.seqNo {
        var i :| 0 <= i < |init| && init[i] == e;
        assert arrivals[i] == e;
      }
      AcceptKeeps(AcceptAll(START, init), last);
    }
    var o := AcceptAll(START, arrivals);
    forall e | e in arrivals ensures e.seqNo != o.nextSeq {
      assert Has(o, e);
    }
  }

  /** Only the set of arrived writes matters, not the order they came in. */
  lemma ArrivalOrderIrrelevant(a: seq<WriteEvent>, b: seq<WriteEvent>)
    requires DistinctNumbers(a) && DistinctNumbers(b)
    requires forall e :: e in a <==> e in b
    ensures AcceptAll(START, a) == AcceptAll(START, b)
  {
    ArrivalsAreSentOrPending(a);
    ArrivalsAreSentOrPending(b);
    SameWrites(AcceptAll(START, a), AcceptAll(START, b));
    SameWrites(AcceptAll(START, b), AcceptAll(START, a));
  }

  lemma SameWrites(p: Order, q: Order)
    requires InOrder(p) && InOrder(q)
    requires forall e :: Has(p, e) <==> Has(q, e)
    ensures p.nextSeq <= q.nextSeq
    ensures p.nextSeq == q.nextSeq ==> p == q
  {
    if p.nextSeq > q.nextSeq {
      assert Has(p, p.sent[q.nextSeq - 1]);
    }
    if p.nextSeq == q.nextSeq {
      forall i | 0 <= i < |p.sent| ensures p.sent[i] == q.sent[i] {
        assert Has(p, p.sent[i]);
      }
      forall k | k in p.pending ensures k in q.pending && q.pending[k] == p.pending[k] {
        assert Has(p, p.pending[k]);
      }
      forall k | k in q.pending ensures k in p.pending {
        assert Has(q, q.pending[k]);
      }
    }
  }

  ghost predicate Arrived(arrivals: seq<WriteEvent>, k: nat) {
    exists e :: e in arrivals && e.seqNo == k
  }

  /** Once 1..n have all arrived, all of them have been sent and nothing is pending. */
  lemma AllArrivedAllSent(arrivals: seq<WriteEvent>, n: nat)
    requires DistinctNumbers(arrivals)
    requires forall e :: e in arrivals ==> e.seqNo <= n
    requires forall k :: 1 <= k <= n ==> Arrived(arrivals, k)
    ensures var o := AcceptAll(START, arrivals); |o.sent| == n && o.pending == map[]
  {
    ArrivalsAreSentOrPending(arrivals);
    var o := AcceptAll(START, arrivals);
    assert o.nextSeq <= n ==> Arrived(arrivals, o.nextSeq);
    assert forall k :: k in o.pending ==> Has(o, o.pending[k]);
    if o.sent != [] {
      assert Has(o, o.sent[|o.sent| - 1]);
    }
    assert o.pending.Keys == {};
  }

  datatype SubmitResult = Accepted | Rejected

  /** The goroutine of WritePipeline.run with its channels as queues. */
  class WritePipeline {
    var closing: bool
    var writes: multiset<WriteEvent>       // submitted, in the channel or in a fallback sender
    var nextSeq: nat
    var dispatchedSeq: nat
    var pending: map<nat, WriteEvent>
    var snifferIn: seq<WriteEvent>         // everything sent to the sniffer so far
    var snifferOut: seq<ObservedWrite>     // observed, not yet received
    var writerIn: seq<ObservedWrite>       // everything submitted to the writer so far
    var observed: seq<ObservedWrite>       // everything passed on to the reconciler so far

    ghost function Dispatcher(): Order
      reads this
    {
      Order(nextSeq, pending, snifferIn)
    }

    constructor ()
      ensures Dispatcher() == START && !closing && dispatchedSeq == 0
      ensures writes == multiset{} && snifferOut == [] && writerIn == [] && observed == []
    {
      closing := false;
      writes := multiset{};
      nextSeq := 1;
      dispatchedSeq := 0;
      pending := map[];
      snifferIn, snifferOut, writerIn, observed := [], [], [], [];
    }

    /** Never blocks: a full channel moves the send to a goroutine of its own. */
    method SubmitWrite(ev: WriteEvent) returns (result: SubmitResult)
      modifies this`writes
      ensures result == if closing then Rejected else Accepted
      ensures writes == if closing then old(writes) else old(writes) + multiset{ev}
    {
      if closing {
        return Rejected;
      }
      writes := writes + multiset{ev};
      return Accepted;
    }

    method AcceptWrite(ev: WriteEvent)
      modifies this`nextSeq, this`dispatchedSeq, this`pending, this`snifferIn
      ensures Dispatcher() == Accept(old(Dispatcher()), ev)
      ensures dispatchedSeq ==
        if |snifferIn| > |old(snifferIn)| then snifferIn[|snifferIn| - 1].seqNo else old(dispatchedSeq)
    {
      if ev.seqNo < nextSeq {
        return;
      }
      if ev.seqNo > nextSeq {
        pending := pending[ev.seqNo := ev];
        return;
      }
      var cur := ev;
      while true
        invariant DispatchFrom(Dispatcher(), cur) == DispatchFrom(old(Dispatcher()), ev)
        invariant |snifferIn| >= |old(snifferIn)|
        decreases |pending|
      {
        ghost var here := Dispatcher();
        snifferIn := snifferIn + [cur];
        dispatchedSeq := cur.seqNo;
        nextSeq := nextSeq + 1;
        if nextSeq !in pending {
          return;
        }
        var next := pending[nextSeq];
        assert (pending - {nextSeq}).Keys == pending.Keys - {nextSeq};
        assert |(pending - {nextSeq}).Keys| < |pending.Keys|;
        pending := pending - {nextSeq};
        cur := next;
      }
    }

    /** An observed write goes to the writer before the reconciler learns of it. The forwarder also
        sets dispatchedSeq back to the forwarded write, which may lower it. */
    method Forward()
      requires snifferOut != []
      modifies this`snifferOut, this`writerIn, this`observed, this`dispatchedSeq
      ensures snifferOut == old(snifferOut)[1..]
      ensures writerIn == old(writerIn) + [old(snifferOut)[0]]
      ensures observed == old(observed) + [old(snifferOut)[0]]
      ensures dispatchedSeq == old(snifferOut)[0].event.seqNo
    {
      var ev := snifferOut[0];
      snifferOut := snifferOut[1..];
      writerIn := writerIn + [ev];
      observed := observed + [ev];
      dispatchedSeq := ev.event.seqNo;
    }
  }
}
