/** Neither thread of the ring waits for the other inside a call: every call can be finished by
    its own steps alone, and then all that was put in can be taken out. */
module RingProgress {
  import opened Bytes
  import opened Ring
  import opened RingSteps

  predicate ProducerStep(step: Step) { step.CopyIn? || step.PublishHead? || step.EndEnqueue? || step.Fill? }

  predicate ConsumerStep(step: Step) { step.CopyOut? || step.PublishTail? || step.EndDequeue? || step.Drain? }

  /** One thread goes on with its call and the other stands still. */
  ghost predicate GoesOn(producer: bool, s: State, t: State) {
    exists steps :: Run(s, steps, t) && forall x :: x in steps ==> if producer then ProducerStep(x) else ConsumerStep(x)
  }

  lemma {:induction false} RunOn(s: State, a: seq<Step>, t: State, b: seq<Step>, u: State)
    requires Run(s, a, t) && Run(t, b, u)
    ensures Run(s, a + b, u)
    decreases |a|
  {
    hide Can;
    hide Do;
    if |a| == 0 {
      assert a + b == b;
    } else {
      assert (a + b)[1..] == a[1..] + b;
      RunOn(Do(s, a[0]), a[1..], t, b, u);
    }
  }

  lemma NoStep(producer: bool, s: State)
    ensures GoesOn(producer, s, s)
  {
    assert Run(s, [], s);
  }

  lemma OneStep(producer: bool, s: State, step: Step)
    requires Inv(s) && Can(s, step) && if producer then ProducerStep(step) else ConsumerStep(step)
    ensures GoesOn(producer, s, Do(s, step)) && Inv(Do(s, step))
  {
    hide Inv;
    hide Can;
    hide Do;
    StepKeeps(s, step);
    InvIsTyped(s);
    assert [step][1..] == [];
    assert Run(s, [step], Do(s, step));
  }

  lemma InvIsTyped(s: State)
    requires Inv(s)
    ensures Typed(s)
  {
  }

  lemma ThenOn(producer: bool, s: State, t: State, u: State)
    requires GoesOn(producer, s, t) && GoesOn(producer, t, u)
    ensures GoesOn(producer, s, u)
  {
    hide Run;
    var a :| Run(s, a, t) && forall x :: x in a ==> if producer then ProducerStep(x) else ConsumerStep(x);
    var b :| Run(t, b, u) && forall x :: x in b ==> if producer then ProducerStep(x) else ConsumerStep(x);
    RunOn(s, a, t, b, u);
  }

  // ---------------------------------------------------------------- the producer

  /** What the producer leaves alone. */
  ghost predicate Produced(s: State, t: State) {
    t.tail == s.tail && t.consumer == s.consumer && t.taken == s.taken && t.offered == s.offered && s.head <= t.head
  }

  /** The rest of a piece, from byte `k` on, is copied in. */
  lemma {:induction false} CopiesIn(s: State, k: nat) returns (t: State)
    requires Inv(s) && s.producer.Storing? && k <= InPiece(s)
    requires forall i :: 0 <= i < k ==> i in s.producer.copied
    ensures Inv(t) && GoesOn(true, s, t) && Produced(s, t) && t.head == s.head
    ensures t.producer.Storing? && t.producer == s.producer.(copied := t.producer.copied)
    ensures forall i :: 0 <= i < InPiece(t) ==> i in t.producer.copied
    decreases InPiece(s) - k
  {
    hide Counters;
    hide ProducerOk;
    hide ConsumerOk;
    hide GoesOn;
    if k == InPiece(s) {
      NoStep(true, s);
      t := s;
    } else {
      OneStep(true, s, CopyIn(k));
      var u := Do(s, CopyIn(k));
      t := CopiesIn(u, k + 1);
      ThenOn(true, s, u, t);
    }
  }

  /** Whatever the consumer is doing, an enqueue in progress can be finished. */
  lemma {:induction false} EnqueueFinishes(s: State) returns (t: State)
    requires Inv(s) && s.producer.Storing?
    ensures Inv(t) && GoesOn(true, s, t) && Produced(s, t) && t.producer.Ready? && t.head == |t.offered|
    decreases |s.producer.data| - s.producer.published
  {
    hide Counters;
    hide ConsumerOk;
    hide GoesOn;
    hide Holds;
    if s.producer.published == |s.producer.data| {
      OneStep(true, s, EndEnqueue);
      t := Do(s, EndEnqueue);
    } else {
      var u := CopiesIn(s, 0);
      OneStep(true, u, PublishHead);
      var v := Do(u, PublishHead);
      ThenOn(true, s, u, v);
      t := EnqueueFinishes(v);
      ThenOn(true, s, v, t);
    }
  }

  /** Filling through the write pointer may end with nothing written. */
  lemma ProducerFinishes(s: State) returns (t: State)
    requires Inv(s)
    ensures Inv(t) && GoesOn(true, s, t) && Produced(s, t) && t.producer.Ready?
  {
    hide Counters;
    hide ConsumerOk;
    hide GoesOn;
    match s.producer {
      case Ready =>
        NoStep(true, s);
        t := s;
      case Filling(room) =>
        OneStep(true, s, Fill([]));
        var u := Do(s, Fill([]));
        assert s.offered + [] == s.offered;
        t := EnqueueFinishes(u);
        ThenOn(true, s, u, t);
      case Storing(data, published, copied) =>
        t := EnqueueFinishes(s);
    }
  }

  // ---------------------------------------------------------------- the consumer

  /** What the consumer leaves alone. */
  ghost predicate Consumed(s: State, t: State) {
    && t.head == s.head && t.producer == s.producer && t.offered == s.offered && t.buf == s.buf
    && s.taken <= t.taken && s.tail <= t.tail
  }

  lemma {:induction false} CopiesOut(s: State, k: nat) returns (t: State)
    requires Inv(s) && s.consumer.Loading? && k <= OutPiece(s)
    requires forall i :: s.consumer.done <= i < s.consumer.done + k ==> i in s.consumer.got
    ensures Inv(t) && GoesOn(false, s, t) && Consumed(s, t) && t.tail == s.tail && t.taken == s.taken
    ensures t.consumer.Loading? && t.consumer == s.consumer.(got := t.consumer.got)
    ensures forall i :: t.consumer.done <= i < t.consumer.done + OutPiece(t) ==> i in t.consumer.got
    decreases OutPiece(s) - k
  {
    hide Counters;
    hide ProducerOk;
    hide ConsumerOk;
    hide GoesOn;
    if k == OutPiece(s) {
      NoStep(false, s);
      t := s;
    } else {
      OneStep(false, s, CopyOut(k));
      var u := Do(s, CopyOut(k));
      t := CopiesOut(u, k + 1);
      ThenOn(false, s, u, t);
    }
  }

  /** Whatever the producer is doing, a dequeue or a read in progress can be finished. */
  lemma {:induction false} DequeueFinishes(s: State) returns (t: State)
    requires Inv(s) && s.consumer.Loading?
    ensures Inv(t) && GoesOn(false, s, t) && Consumed(s, t) && t.consumer.Waiting?
    ensures t.taken == s.offered[..if s.consumer.keep then s.tail else Base(s) + s.consumer.len]
    decreases s.consumer.len - s.consumer.done
  {
    hide ProducerOk;
    hide GoesOn;
    hide Holds;
    if s.consumer.done == s.consumer.len {
      DequeueReturnsNext(s);
      OneStep(false, s, EndDequeue);
      t := Do(s, EndDequeue);
    } else {
      var u := CopiesOut(s, 0);
      OneStep(false, u, PublishTail);
      var v := Do(u, PublishTail);
      ThenOn(false, s, u, v);
      t := DequeueFinishes(v);
      ThenOn(false, s, v, t);
    }
  }

  lemma ConsumerFinishes(s: State) returns (t: State)
    requires Inv(s)
    ensures Inv(t) && GoesOn(false, s, t) && Consumed(s, t) && t.consumer.Waiting?
  {
    hide ProducerOk;
    hide GoesOn;
    hide Holds;
    match s.consumer {
      case Waiting =>
        NoStep(false, s);
        t := s;
      case Draining(ready) =>
        OneStep(false, s, Drain(0));
        var u := Do(s, Drain(0));
        t := DequeueFinishes(u);
        ThenOn(false, s, u, t);
      case Loading(len, done, got, keep) =>
        t := DequeueFinishes(s);
    }
  }

  // ---------------------------------------------------------------- all of it

  /** From every state that any interleaving can reach, each thread can finish its call while the
      other stands still, and afterwards one dequeue takes out all that is left. */
  lemma AllCanBeTaken(buf: seq<byte>, steps: seq<Step>, s: State) returns (t: State, more: seq<Step>)
    requires |buf| == SIZE && Run(Empty(buf), steps, s)
    ensures Run(s, more, t) && t.producer.Ready? && t.consumer.Waiting?
    ensures t.offered == s.offered && t.taken == t.offered && t.tail == t.head == |t.offered|
  {
    hide Run;
    hide Holds;
    EmptyInv(buf);
    RunKeeps(Empty(buf), steps, s);
    var u := ProducerFinishes(s);
    var v := ConsumerFinishes(u);
    var w := TakesRest(v);
    var a :| Run(s, a, u);
    var b :| Run(u, b, v);
    var c :| Run(v, c, w);
    RunOn(s, a, u, b, v);
    RunOn(s, a + b, v, c, w);
    t, more := w, a + b + c;
  }

  lemma TakesRest(s: State) returns (t: State)
    requires Inv(s) && s.producer.Ready? && s.consumer.Waiting?
    ensures (exists steps :: Run(s, steps, t)) && t.producer.Ready? && t.consumer.Waiting?
    ensures t.offered == s.offered && t.taken == t.offered && t.tail == t.head == |t.offered|
  {
    hide Holds;
    var start := StartDequeue(s.head - s.tail, false);
    StepKeeps(s, start);
    var u := Do(s, start);
    t := DequeueFinishes(u);
    var rest :| Run(u, rest, t);
    assert ([start] + rest)[1..] == rest;
    assert Run(s, [start] + rest, t);
  }
}
