/** The ring under concurrency: one producer and one consumer whose byte copies and counter
    additions interleave in any order, and each `memcpy` in any order of its bytes. Both may
    also work through the direct pointers. */
module RingSteps {
  import opened Bytes
  import opened Ring

  /** `Storing` is `enqueue_data` in progress: `data` has been accepted, its first `published`
      bytes are counted in `head`, and of the piece being copied the bytes in `copied` are in
      place. `Filling` has asked how much it may write through the write pointer; what it then
      writes is stored and counted in the same way. */
  datatype Producer = Ready | Filling(room: nat) | Storing(data: seq<byte>, published: nat, copied: set<nat>)

  /** `Loading` is `dequeue_data` in progress: the first `done` of `len` bytes are counted in
      `tail`; `got` is what has been copied out. `read_data` (`keep`) goes through the same
      pieces without moving `tail`. `Draining` has asked how much it may read through the read
      pointer. */
  datatype Consumer = Waiting | Draining(ready: nat) | Loading(len: nat, done: nat, got: map<nat, byte>, keep: bool)

  /** `offered` is all that the producer's calls have accepted, `taken` all that the consumer's
      calls have returned and released. */
  datatype State = State(
    buf: seq<byte>, head: nat, tail: nat, producer: Producer, consumer: Consumer,
    offered: seq<byte>, taken: seq<byte>)

  /** Bytes in the piece that starts at position `at`, of `left` bytes in all: a piece ends
      with the buffer at the latest. */
  function Piece(at: nat, left: nat): (n: nat)
    ensures n <= left && at % SIZE + n <= SIZE && (left > 0 ==> n > 0)
  {
    if left <= SIZE - at % SIZE then left else SIZE - at % SIZE
  }

  /** The size of the piece that the producer is copying. */
  function InPiece(s: State): nat
    requires s.producer.Storing? && s.producer.published <= |s.producer.data|
  {
    Piece(s.head, |s.producer.data| - s.producer.published)
  }

  /** Where the piece of the consumer starts, and its size. */
  function From(s: State): nat
    requires s.consumer.Loading?
  {
    s.tail + (if s.consumer.keep then s.consumer.done else 0)
  }

  function OutPiece(s: State): nat
    requires s.consumer.Loading? && s.consumer.done <= s.consumer.len
  {
    Piece(From(s), s.consumer.len - s.consumer.done)
  }

  /** `queue_get_end_free_count` and `queue_get_end_data_count`. */
  function EndFree(s: State): int {
    if s.tail + SIZE - s.head < SIZE - s.head % SIZE then s.tail + SIZE - s.head else SIZE - s.head % SIZE
  }

  function EndData(s: State): int {
    if SIZE - s.tail % SIZE < s.head - s.tail then SIZE - s.tail % SIZE else s.head - s.tail
  }

  datatype Step =
    | StartEnqueue(data: seq<byte>) | CountFree | Fill(data: seq<byte>) | CopyIn(k: nat) | PublishHead | EndEnqueue
    | StartDequeue(len: nat, keep: bool) | CountData | Drain(n: nat) | CopyOut(k: nat) | PublishTail | EndDequeue

  ghost predicate Typed(s: State) {
    && |s.buf| == SIZE
    && (s.producer.Storing? ==> s.producer.published <= |s.producer.data|)
    && (s.consumer.Loading? ==> s.consumer.done <= s.consumer.len)
  }

  ghost predicate Can(s: State, step: Step)
    requires Typed(s)
  {
    match step
    case StartEnqueue(data) => s.producer.Ready? && |data| <= SIZE && |data| <= s.tail + SIZE - s.head
    case CountFree => s.producer.Ready? && 0 <= EndFree(s)
    case Fill(data) => s.producer.Filling? && |data| <= s.producer.room
    case CopyIn(k) => s.producer.Storing? && k < InPiece(s)
    case PublishHead => s.producer.Storing? && s.producer.published < |s.producer.data| &&
                        forall k :: 0 <= k < InPiece(s) ==> k in s.producer.copied
    case EndEnqueue => s.producer.Storing? && s.producer.published == |s.producer.data|
    case StartDequeue(len, _) => s.consumer.Waiting? && len <= SIZE && len <= s.head - s.tail
    case CountData => s.consumer.Waiting? && 0 <= EndData(s)
    case Drain(n) => s.consumer.Draining? && n <= s.consumer.ready
    case CopyOut(k) => s.consumer.Loading? && k < OutPiece(s)
    case PublishTail => s.consumer.Loading? && s.consumer.done < s.consumer.len &&
                        forall k :: s.consumer.done <= k < s.consumer.done + OutPiece(s) ==> k in s.consumer.got
    case EndDequeue => s.consumer.Loading? && s.consumer.done == s.consumer.len
  }

  /** What the finished call returns. */
  function Output(c: Consumer): (out: seq<byte>)
    requires c.Loading?
    ensures |out| == c.len && forall k :: 0 <= k < c.len && k in c.got ==> out[k] == c.got[k]
  {
    seq(c.len, k requires 0 <= k < c.len => if k in c.got then c.got[k] else 0)
  }

  ghost function Do(s: State, step: Step): (t: State)
    requires Typed(s) && Can(s, step)
    ensures Typed(t)
  {
    match step
    case StartEnqueue(data) => s.(producer := Storing(data, 0, {}), offered := s.offered + data)
    case CountFree => s.(producer := Filling(EndFree(s)))
    case Fill(data) => s.(producer := Storing(data, 0, {}), offered := s.offered + data)
    case CopyIn(k) =>
      var p := s.producer;
      s.(buf := s.buf[s.head % SIZE + k := p.data[p.published + k]], producer := p.(copied := p.copied + {k}))
    case PublishHead =>
      var p := s.producer;
      s.(head := s.head + InPiece(s), producer := p.(published := p.published + InPiece(s), copied := {}))
    case EndEnqueue => s.(producer := Ready)
    case StartDequeue(len, keep) => s.(consumer := Loading(len, 0, map[], keep))
    case CountData => s.(consumer := Draining(EndData(s)))
    case Drain(n) => s.(consumer := Loading(n, 0, map[], false))
    case CopyOut(k) =>
      var c := s.consumer;
      s.(consumer := c.(got := c.got[c.done + k := s.buf[From(s) % SIZE + k]]))
    case PublishTail =>
      var c := s.consumer;
      s.(tail := if c.keep then s.tail else s.tail + OutPiece(s), consumer := c.(done := c.done + OutPiece(s)))
    case EndDequeue =>
      s.(consumer := Waiting, taken := if s.consumer.keep then s.taken else s.taken + Output(s.consumer))
  }

  // ---------------------------------------------------------------- the invariant

  /** The counters are in order, and the bytes between them are the ones accepted and published
      but not yet released. */
  ghost predicate Counters(s: State) {
    && s.tail <= s.head <= s.tail + SIZE && s.head <= |s.offered|
    && Holds(s.buf, s.tail, s.offered[s.tail..s.head])
  }

  /** What the producer still has to publish fits, and what it has copied is right. */
  ghost predicate ProducerOk(s: State)
    requires Typed(s) && Counters(s)
  {
    match s.producer
    case Ready => s.head == |s.offered|
    case Filling(room) => s.head == |s.offered| && s.head % SIZE + room <= SIZE && s.head + room <= s.tail + SIZE
    case Storing(data, published, copied) =>
      && s.offered[s.head..] == data[published..]
      && |s.offered| <= s.tail + SIZE
      && forall k :: k in copied && k < InPiece(s) ==> s.buf[s.head % SIZE + k] == data[published + k]
  }

  /** Position of the first byte of the consumer's call. */
  function Base(s: State): int
    requires s.consumer.Loading?
  {
    if s.consumer.keep then s.tail else s.tail - s.consumer.done
  }

  ghost predicate ConsumerOk(s: State)
    requires Typed(s) && Counters(s)
  {
    match s.consumer
    case Waiting => s.taken == s.offered[..s.tail]
    case Draining(ready) => s.taken == s.offered[..s.tail] && s.tail % SIZE + ready <= SIZE && s.tail + ready <= s.head
    case Loading(len, done, got, keep) =>
      && 0 <= Base(s) && Base(s) + len <= s.head
      && s.taken == s.offered[..Base(s)]
      && (forall k :: 0 <= k < done ==> k in got)
      && (forall k :: k in got && k < len ==> got[k] == s.offered[Base(s) + k])
  }

  ghost predicate Inv(s: State) { Typed(s) && Counters(s) && ProducerOk(s) && ConsumerOk(s) }

  ghost function Empty(buf: seq<byte>): State { State(buf, 0, 0, Ready, Waiting, [], []) }

  lemma EmptyInv(buf: seq<byte>)
    requires |buf| == SIZE
    ensures Inv(Empty(buf))
  {
  }

  // ---------------------------------------------------------------- the steps keep it

  lemma StartEnqueueKeeps(s: State, data: seq<byte>)
    requires Inv(s) && Can(s, StartEnqueue(data))
    ensures Inv(Do(s, StartEnqueue(data)))
  {
    var t := Do(s, StartEnqueue(data));
    assert t.offered[t.tail..t.head] == s.offered[s.tail..s.head];
    assert t.offered[t.head..] == data;
    ConsumerSees(s, t);
  }

  /** The consumer only looks at what is already offered. */
  lemma ConsumerSees(s: State, t: State)
    requires Inv(s) && Typed(t) && Counters(t) && t.consumer == s.consumer && t.taken == s.taken && t.tail == s.tail
    requires t.head >= s.head && s.offered <= t.offered
    ensures ConsumerOk(t)
  {
    if s.consumer.Loading? {
      assert t.offered[..Base(t)] == s.offered[..Base(s)];
    } else {
      assert t.offered[..t.tail] == s.offered[..s.tail];
    }
  }

  lemma CountFreeKeeps(s: State)
    requires Inv(s) && Can(s, CountFree)
    ensures Inv(Do(s, CountFree))
  {
    hide Holds;
    ConsumerSees(s, Do(s, CountFree));
  }

  /** What is written through the write pointer is one piece: it ends inside the buffer and
      does not reach the live bytes. */
  lemma FillKeeps(s: State, data: seq<byte>)
    requires Inv(s) && Can(s, Fill(data))
    ensures Inv(Do(s, Fill(data))) && InPiece(Do(s, Fill(data))) == |data|
  {
    hide Holds;
    var t := Do(s, Fill(data));
    assert t.offered[t.tail..t.head] == s.offered[s.tail..s.head];
    assert t.offered[t.head..] == data;
    ConsumerSees(s, t);
  }

  /** Copying into the free part does not touch what is live. */
  lemma CopyInLeavesLive(buf: seq<byte>, tail: nat, live: seq<byte>, head: nat, k: nat, b: byte)
    requires |buf| == SIZE && Holds(buf, tail, live) && head == tail + |live|
    requires head + k < tail + SIZE && head % SIZE + k < SIZE
    ensures Holds(buf[head % SIZE + k := b], tail, live)
  {
    forall i | 0 <= i < |live|
      ensures buf[head % SIZE + k := b][(tail + i) % SIZE] == live[i]
    {
      ModAdd(head, k, SIZE);
      Distinct(tail + i, head + k, SIZE);
    }
  }

  lemma CopyInKeeps(s: State, k: nat)
    requires Inv(s) && Can(s, CopyIn(k))
    ensures Inv(Do(s, CopyIn(k)))
  {
    hide Holds;
    var t, p := Do(s, CopyIn(k)), s.producer;
    SpaceLeft(s);
    CopyInLeavesLive(s.buf, s.tail, s.offered[s.tail..s.head], s.head, k, p.data[p.published + k]);
    ConsumerSees(s, t);
  }

  lemma SpaceLeft(s: State)
    requires Inv(s) && s.producer.Storing?
    ensures s.head + (|s.producer.data| - s.producer.published) == |s.offered| <= s.tail + SIZE
  {
    hide Holds;
    assert |s.offered[s.head..]| == |s.producer.data[s.producer.published..]|;
  }

  /** A piece that has been copied completely is live once it is published. */
  lemma CopiedIsLive(buf: seq<byte>, tail: nat, live: seq<byte>, head: nat, piece: seq<byte>)
    requires |buf| == SIZE && Holds(buf, tail, live) && head == tail + |live| && |live| + |piece| <= SIZE
    requires head % SIZE + |piece| <= SIZE && forall k :: 0 <= k < |piece| ==> buf[head % SIZE + k] == piece[k]
    ensures Holds(buf, tail, live + piece)
  {
    StoreAppends(buf, buf, tail, head, live, piece);
  }

  lemma PublishHeadKeeps(s: State)
    requires Inv(s) && Can(s, PublishHead)
    ensures Inv(Do(s, PublishHead))
  {
    hide Holds;
    var t, p, n := Do(s, PublishHead), s.producer, InPiece(s);
    SpaceLeft(s);
    var piece := p.data[p.published..p.published + n];
    PieceOffered(s, piece);
    CopiedIsLive(s.buf, s.tail, s.offered[s.tail..s.head], s.head, piece);
    assert t.offered[t.tail..t.head] == s.offered[s.tail..s.head] + piece;
    RestOffered(s, n);
    ConsumerSees(s, t);
  }

  lemma RestOffered(s: State, n: nat)
    requires Inv(s) && s.producer.Storing? && n == InPiece(s) && s.head + n <= |s.offered|
    ensures s.offered[s.head + n..] == s.producer.data[s.producer.published + n..]
  {
    hide Holds;
    assert s.offered[s.head + n..] == s.offered[s.head..][n..];
    assert s.producer.data[s.producer.published + n..] == s.producer.data[s.producer.published..][n..];
  }

  lemma PieceOffered(s: State, piece: seq<byte>)
    requires Inv(s) && s.producer.Storing?
    requires piece == s.producer.data[s.producer.published..s.producer.published + InPiece(s)]
    requires forall k :: 0 <= k < InPiece(s) ==> k in s.producer.copied
    ensures s.head + |piece| <= |s.offered| && s.offered[s.head..s.head + |piece|] == piece
    ensures forall k :: 0 <= k < |piece| ==> s.buf[s.head % SIZE + k] == piece[k]
  {
    hide Holds;
    SpaceLeft(s);
    assert s.offered[s.head..s.head + |piece|] == s.offered[s.head..][..|piece|];
    assert piece == s.producer.data[s.producer.published..][..|piece|];
    forall k | 0 <= k < |piece|
      ensures s.buf[s.head % SIZE + k] == piece[k]
    {
      assert k in s.producer.copied;
    }
  }

  lemma StartDequeueKeeps(s: State, len: nat, keep: bool)
    requires Inv(s) && Can(s, StartDequeue(len, keep))
    ensures Inv(Do(s, StartDequeue(len, keep)))
  {
  }

  lemma CountDataKeeps(s: State)
    requires Inv(s) && Can(s, CountData)
    ensures Inv(Do(s, CountData))
  {
    hide Holds;
  }

  /** What is read through the read pointer is one piece of live bytes. */
  lemma DrainKeeps(s: State, n: nat)
    requires Inv(s) && Can(s, Drain(n))
    ensures Inv(Do(s, Drain(n))) && OutPiece(Do(s, Drain(n))) == n
  {
    hide Holds;
  }

  /** Reading at a live position. */
  lemma LiveAt(s: State, at: nat)
    requires |s.buf| == SIZE && Counters(s) && s.tail <= at < s.head
    ensures s.buf[at % SIZE] == s.offered[at]
  {
    assert s.buf[(s.tail + (at - s.tail)) % |s.buf|] == s.offered[s.tail..s.head][at - s.tail];
  }

  lemma CopyOutKeeps(s: State, k: nat)
    requires Inv(s) && Can(s, CopyOut(k))
    ensures Inv(Do(s, CopyOut(k)))
  {
    hide Holds;
    var at := From(s) + k;
    ModAdd(From(s), k, SIZE);
    LiveAt(s, at);
    assert Base(s) + (s.consumer.done + k) == at;
  }

  lemma PublishTailKeeps(s: State)
    requires Inv(s) && Can(s, PublishTail)
    ensures Inv(Do(s, PublishTail))
  {
    hide Holds;
    var t := Do(s, PublishTail);
    if !s.consumer.keep {
      DropFront(s.buf, s.tail, s.offered[s.tail..s.head], OutPiece(s));
      assert t.offered[t.tail..t.head] == s.offered[s.tail..s.head][OutPiece(s)..];
    }
    assert Base(t) == Base(s);
  }

  /** A finished call returns the next bytes of the stream, whatever the producer did
      meanwhile. */
  lemma DequeueReturnsNext(s: State)
    requires Inv(s) && Can(s, EndDequeue)
    ensures Output(s.consumer) == s.offered[|s.taken|..|s.taken| + s.consumer.len]
    ensures !s.consumer.keep ==> s.tail == |s.taken| + s.consumer.len
    ensures s.consumer.keep ==> s.tail == |s.taken|
  {
  }

  lemma EndDequeueKeeps(s: State)
    requires Inv(s) && Can(s, EndDequeue)
    ensures Inv(Do(s, EndDequeue))
  {
    hide Holds;
    DequeueReturnsNext(s);
    var t := Do(s, EndDequeue);
    assert t.taken == t.offered[..t.tail];
  }

  lemma StepKeeps(s: State, step: Step)
    requires Inv(s) && Can(s, step)
    ensures Inv(Do(s, step))
  {
    hide Inv;
    hide Can;
    hide Do;
    match step {
      case StartEnqueue(data) => StartEnqueueKeeps(s, data);
      case CountFree => CountFreeKeeps(s);
      case Fill(data) => FillKeeps(s, data);
      case CopyIn(k) => CopyInKeeps(s, k);
      case PublishHead => PublishHeadKeeps(s);
      case EndEnqueue => EndEnqueueKeeps(s);
      case StartDequeue(len, keep) => StartDequeueKeeps(s, len, keep);
      case CountData => CountDataKeeps(s);
      case Drain(n) => DrainKeeps(s, n);
      case CopyOut(k) => CopyOutKeeps(s, k);
      case PublishTail => PublishTailKeeps(s);
      case EndDequeue => EndDequeueKeeps(s);
    }
  }

  lemma EndEnqueueKeeps(s: State)
    requires Inv(s) && Can(s, EndEnqueue)
    ensures Inv(Do(s, EndEnqueue))
  {
    assert s.producer.data[s.producer.published..] == [];
  }

  // ---------------------------------------------------------------- runs

  ghost predicate Run(s: State, steps: seq<Step>, t: State)
    decreases |steps|
  {
    if |steps| == 0 then t == s
    else Typed(s) && Can(s, steps[0]) && Run(Do(s, steps[0]), steps[1..], t)
  }

  lemma {:induction false} RunKeeps(s: State, steps: seq<Step>, t: State)
    requires Inv(s) && Run(s, steps, t)
    ensures Inv(t)
    decreases |steps|
  {
    hide Inv;
    hide Can;
    hide Do;
    if |steps| == 0 {
    } else {
      StepKeeps(s, steps[0]);
      RunKeeps(Do(s, steps[0]), steps[1..], t);
    }
  }

  /** In every state that any interleaving can reach, the counters are at most a buffer apart,
      the bytes between them are exactly the published and unreleased part of the stream, and
      what the consumer has been given is a prefix of what the producer put in. */
  lemma RingIsFifo(buf: seq<byte>, steps: seq<Step>, t: State)
    requires |buf| == SIZE && Run(Empty(buf), steps, t)
    ensures 0 <= t.head - t.tail <= SIZE && t.head <= |t.offered|
    ensures forall i :: t.tail <= i < t.head ==> |t.buf| == SIZE && t.buf[i % SIZE] == t.offered[i]
    ensures t.taken <= t.offered
    ensures Typed(t) && Can(t, EndDequeue) ==>
              |t.taken| + t.consumer.len <= |t.offered| &&
              Output(t.consumer) == t.offered[|t.taken|..|t.taken| + t.consumer.len]
  {
    EmptyInv(buf);
    RunKeeps(Empty(buf), steps, t);
    forall i | t.tail <= i < t.head
      ensures t.buf[i % SIZE] == t.offered[i]
    {
      assert t.offered[t.tail..t.head][i - t.tail] == t.offered[i];
      assert t.buf[(t.tail + (i - t.tail)) % |t.buf|] == t.offered[t.tail..t.head][i - t.tail];
    }
    if Typed(t) && Can(t, EndDequeue) {
      DequeueReturnsNext(t);
    }
  }
}
