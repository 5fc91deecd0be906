/** The client proxy's packet queue: the receiver thread stores a packet in the ring and then
    counts it; the decoder thread pops a packet only while the count is positive. */
module PacketCounter {
  import opened Bytes
  import opened Ring
  import Steps = RingSteps

  /** `sizeof(struct data_pkt)`: channel and data length. */
  const HEADER := 8

  function DataLen(header: seq<byte>): nat
    requires |header| == HEADER
  {
    FromBigEndian(header[4..8])
  }

  /** A packet as `_on_client_recv` gets it: the header and as much data as it announces. */
  predicate WellFormed(pkt: seq<byte>) { HEADER <= |pkt| <= SIZE && |pkt| == HEADER + DataLen(pkt[..HEADER]) }

  /** The receiver: idle, inside `enqueue_data`, or about to add one to the count. */
  datatype Receiver = Idle | Enqueuing | Counting

  /** The decoder: between two packets, inside the first `dequeue_data`, after it, inside the
      second one, about to subtract one, or having seen a `dequeue_data` fail. */
  datatype Decoder =
    | Between | InHeader | GotHeader(header: seq<byte>) | InBody(header: seq<byte>) | GotPacket(pkt: seq<byte>) | Failed

  datatype System = System(
    ring: Steps.State, count: int, receiver: Receiver, decoder: Decoder,
    received: seq<seq<byte>>, decoded: seq<seq<byte>>)

  datatype Event =
    | Receive(pkt: seq<byte>) | EndReceive | Count
    | Look | HeaderRead | AskBody | BodyRead | Uncount
    | Inside(step: Steps.Step)

  predicate Internal(step: Steps.Step) { step.CopyIn? || step.PublishHead? || step.CopyOut? || step.PublishTail? }

  /** An enqueue that finds no room changes nothing and is tried again, so only its success is
      an event. */
  ghost predicate Can(s: System, e: Event)
    requires Steps.Typed(s.ring)
  {
    match e
    case Receive(pkt) => s.receiver == Idle && WellFormed(pkt) && Steps.Can(s.ring, Steps.StartEnqueue(pkt))
    case EndReceive => s.receiver == Enqueuing && Steps.Can(s.ring, Steps.EndEnqueue)
    case Count => s.receiver == Counting
    case Look => s.decoder == Between && s.count > 0
    case HeaderRead => s.decoder == InHeader && Steps.Can(s.ring, Steps.EndDequeue) && s.ring.consumer.len == HEADER
    case AskBody => s.decoder.GotHeader? && |s.decoder.header| == HEADER
    case BodyRead => s.decoder.InBody? && Steps.Can(s.ring, Steps.EndDequeue)
    case Uncount => s.decoder.GotPacket?
    case Inside(step) => Internal(step) && Steps.Can(s.ring, step)
  }

  /** A call of `dequeue_data` fails when fewer bytes are there. */
  ghost function Ask(s: System, len: nat, next: Decoder): System
    requires Steps.Typed(s.ring)
  {
    if Steps.Can(s.ring, Steps.StartDequeue(len, false))
    then s.(ring := Steps.Do(s.ring, Steps.StartDequeue(len, false)), decoder := next)
    else s.(decoder := Failed)
  }

  ghost function Do(s: System, e: Event): System
    requires Steps.Typed(s.ring) && Can(s, e)
  {
    match e
    case Receive(pkt) =>
      s.(ring := Steps.Do(s.ring, Steps.StartEnqueue(pkt)), receiver := Enqueuing, received := s.received + [pkt])
    case EndReceive => s.(ring := Steps.Do(s.ring, Steps.EndEnqueue), receiver := Counting)
    case Count => s.(count := s.count + 1, receiver := Idle)
    case Look => Ask(s, HEADER, InHeader)
    case HeaderRead =>
      s.(ring := Steps.Do(s.ring, Steps.EndDequeue), decoder := GotHeader(Steps.Output(s.ring.consumer)))
    case AskBody => Ask(s, DataLen(s.decoder.header), InBody(s.decoder.header))
    case BodyRead =>
      s.(ring := Steps.Do(s.ring, Steps.EndDequeue),
         decoder := GotPacket(s.decoder.header + Steps.Output(s.ring.consumer)))
    case Uncount => s.(count := s.count - 1, decoder := Between, decoded := s.decoded + [s.decoder.pkt])
    case Inside(step) => s.(ring := Steps.Do(s.ring, step))
  }

  // ---------------------------------------------------------------- concatenated packets

  function Flat(ps: seq<seq<byte>>): seq<byte> {
    if |ps| == 0 then [] else Flat(ps[..|ps| - 1]) + ps[|ps| - 1]
  }

  lemma FlatSnoc(ps: seq<seq<byte>>, p: seq<byte>)
    ensures Flat(ps + [p]) == Flat(ps) + p
  {
    assert (ps + [p])[..|ps|] == ps;
  }

  lemma {:induction false} FlatPrefix(ps: seq<seq<byte>>, m: nat)
    requires m <= |ps|
    ensures Flat(ps[..m]) <= Flat(ps)
    decreases |ps|
  {
    if m == |ps| {
      assert ps[..m] == ps;
    } else {
      var init := ps[..|ps| - 1];
      FlatPrefix(init, m);
      assert init[..m] == ps[..m];
    }
  }

  lemma FlatNext(ps: seq<seq<byte>>, d: nat)
    requires d < |ps|
    ensures Flat(ps[..d + 1]) == Flat(ps[..d]) + ps[d]
  {
    hide Flat;
    assert ps[..d + 1] == ps[..d] + [ps[d]];
    FlatSnoc(ps[..d], ps[d]);
  }

  /** Where packet `d` lies in the stream. */
  lemma FlatAt(ps: seq<seq<byte>>, d: nat, m: nat)
    requires d < m <= |ps|
    ensures Flat(ps[..d]) + ps[d] <= Flat(ps[..m]) <= Flat(ps)
  {
    hide Flat;
    FlatPrefix(ps, m);
    FlatPrefix(ps[..m], d + 1);
    FlatNext(ps, d);
    assert ps[..m][..d + 1] == ps[..d + 1];
  }

  lemma SliceOf(stream: seq<byte>, before: seq<byte>, pkt: seq<byte>, i: nat, j: nat)
    requires before + pkt <= stream && i <= j <= |pkt|
    ensures stream[|before| + i..|before| + j] == pkt[i..j]
  {
    assert stream[..|before + pkt|] == before + pkt;
    assert stream[|before| + i..|before| + j] == stream[..|before + pkt|][|before| + i..|before| + j];
  }

  // ---------------------------------------------------------------- the invariant

  /** Packets that have been counted. */
  function Counted(s: System): int { |s.received| - (if s.receiver == Idle then 0 else 1) }

  /** The packet that the decoder works on. */
  function Current(s: System): seq<byte>
    requires |s.decoded| < |s.received|
  {
    s.received[|s.decoded|]
  }

  ghost predicate ReceiverOk(s: System) {
    && Counted(s) >= 0
    && (forall p :: p in s.received ==> WellFormed(p))
    && (if s.receiver == Enqueuing then s.ring.producer.Storing? else s.ring.producer.Ready?)
    && s.ring.offered == Flat(s.received)
    && |Flat(s.received[..Counted(s)])| <= s.ring.head
  }

  ghost predicate DecoderOk(s: System) {
    && |s.decoded| <= Counted(s) <= |s.received|
    && s.decoded == s.received[..|s.decoded|]
    && s.count == Counted(s) - |s.decoded|
    && (s.decoder != Between ==> s.count > 0)
    && (if s.decoder.InHeader? || s.decoder.InBody? then s.ring.consumer.Loading? else s.ring.consumer.Waiting?)
    && (s.ring.consumer.Loading? ==> !s.ring.consumer.keep)
    && DecoderAt(s)
  }

  /** How far into the current packet the decoder is. */
  ghost predicate DecoderAt(s: System)
    requires |s.decoded| <= |s.received| && (s.decoder != Between ==> |s.decoded| < |s.received|)
  {
    var before := Flat(s.received[..|s.decoded|]);
    match s.decoder
    case Between => s.ring.taken == before
    case InHeader => s.ring.taken == before && s.ring.consumer.Loading? && s.ring.consumer.len == HEADER
    case GotHeader(h) => HEADER <= |Current(s)| && h == Current(s)[..HEADER] && s.ring.taken == before + h
    case InBody(h) => HEADER <= |Current(s)| && h == Current(s)[..HEADER] && s.ring.taken == before + h
                      && s.ring.consumer.Loading? && s.ring.consumer.len == DataLen(h)
    case GotPacket(p) => p == Current(s) && s.ring.taken == before + p
    case Failed => false
  }

  ghost predicate Inv(s: System) { Steps.Inv(s.ring) && ReceiverOk(s) && DecoderOk(s) }

  ghost function Start(buf: seq<byte>): System { System(Steps.Empty(buf), 0, Idle, Between, [], []) }

  lemma StartInv(buf: seq<byte>)
    requires |buf| == SIZE
    ensures Inv(Start(buf))
  {
    Steps.EmptyInv(buf);
  }

  // ---------------------------------------------------------------- the steps keep it

  lemma ReceiveKeeps(s: System, pkt: seq<byte>)
    requires Inv(s) && Can(s, Receive(pkt))
    ensures Inv(Do(s, Receive(pkt)))
  {
    hide Steps.Inv;
    hide Flat;
    hide WellFormed;
    Steps.StepKeeps(s.ring, Steps.StartEnqueue(pkt));
    var t := Do(s, Receive(pkt));
    FlatSnoc(s.received, pkt);
    assert t.received[..Counted(t)] == s.received[..Counted(s)];
    assert t.received[..|t.decoded|] == s.received[..|s.decoded|];
  }

  lemma EndReceiveKeeps(s: System)
    requires Inv(s) && Can(s, EndReceive)
    ensures Inv(Do(s, EndReceive))
  {
    hide Steps.Inv;
    hide Flat;
    hide WellFormed;
    Steps.StepKeeps(s.ring, Steps.EndEnqueue);
  }

  lemma CountKeeps(s: System)
    requires Inv(s) && Can(s, Count)
    ensures Inv(Do(s, Count))
  {
    hide Steps.Inv;
    hide Flat;
    hide WellFormed;
    AllPublished(s.ring);
    assert s.received[..|s.received|] == s.received;
  }

  lemma AllPublished(r: Steps.State)
    requires Steps.Inv(r) && r.producer.Ready?
    ensures |r.offered| == r.head
  {
  }

  lemma TakenIsTail(r: Steps.State)
    requires Steps.Inv(r) && r.consumer.Waiting?
    ensures |r.taken| == r.tail
  {
  }

  /** While a packet is counted and not yet popped, all its bytes are in the ring. */
  lemma CountedIsThere(s: System)
    requires Inv(s) && s.count > 0
    ensures |s.decoded| < |s.received| && WellFormed(Current(s))
    ensures |Flat(s.received[..|s.decoded|])| + |Current(s)| <= s.ring.head
    ensures Flat(s.received[..|s.decoded|]) + Current(s) <= s.ring.offered
  {
    hide Steps.Inv;
    hide Flat;
    hide WellFormed;
    FlatAt(s.received, |s.decoded|, Counted(s));
    assert Current(s) in s.received;
  }

  /** Both dequeues of a pop find their bytes. */
  lemma AskSucceeds(s: System, len: nat)
    requires Inv(s) && s.ring.consumer.Waiting? && s.count > 0
    requires s.decoder == Between || s.decoder.GotHeader?
    requires len == if s.decoder.GotHeader? then DataLen(s.decoder.header) else HEADER
    ensures Steps.Can(s.ring, Steps.StartDequeue(len, false))
  {
    hide Flat;
    hide Steps.Inv;
    CountedIsThere(s);
    TakenIsTail(s.ring);
  }

  lemma LookKeeps(s: System)
    requires Inv(s) && Can(s, Look)
    ensures Inv(Do(s, Look))
  {
    hide WellFormed;
    hide Flat;
    hide Steps.Inv;
    AskSucceeds(s, HEADER);
    Steps.StepKeeps(s.ring, Steps.StartDequeue(HEADER, false));
  }

  lemma AskBodyKeeps(s: System)
    requires Inv(s) && Can(s, AskBody)
    ensures Inv(Do(s, AskBody))
  {
    hide WellFormed;
    hide Flat;
    hide Steps.Inv;
    AskSucceeds(s, DataLen(s.decoder.header));
    Steps.StepKeeps(s.ring, Steps.StartDequeue(DataLen(s.decoder.header), false));
  }

  /** The end of a `dequeue_data`, as the decoder sees it. */
  lemma DequeueEnds(r: Steps.State)
    requires Steps.Inv(r) && Steps.Can(r, Steps.EndDequeue) && !r.consumer.keep
    ensures var out := Steps.Output(r.consumer);
            && |r.taken| + r.consumer.len <= |r.offered|
            && out == r.offered[|r.taken|..|r.taken| + r.consumer.len]
            && Steps.Inv(Steps.Do(r, Steps.EndDequeue))
            && Steps.Do(r, Steps.EndDequeue) == r.(consumer := Steps.Waiting, taken := r.taken + out)
  {
    Steps.DequeueReturnsNext(r);
    Steps.EndDequeueKeeps(r);
  }

  /** What a dequeue at the start, or behind the header, of a packet returns. */
  lemma ReadsPart(stream: seq<byte>, before: seq<byte>, pkt: seq<byte>, from: nat, to: nat, taken: seq<byte>,
      out: seq<byte>)
    requires before + pkt <= stream && from <= to <= |pkt| && taken == before + pkt[..from]
    requires |taken| + (to - from) <= |stream| && out == stream[|taken|..|taken| + (to - from)]
    ensures out == pkt[from..to]
  {
    SliceOf(stream, before, pkt, from, to);
  }

  /** The bytes that the two dequeues of a pop return. */
  lemma PopReads(s: System)
    requires Inv(s) && s.count > 0 && s.ring.consumer.Loading? && Steps.Can(s.ring, Steps.EndDequeue)
    ensures var out, pkt := Steps.Output(s.ring.consumer), Current(s);
            && HEADER <= |pkt|
            && (s.decoder == InHeader ==> out == pkt[..HEADER])
            && (s.decoder.InBody? ==> out == pkt[HEADER..])
  {
    hide Steps.Do;
    hide Steps.Can;
    hide Steps.Inv;
    hide Flat;
    hide WellFormed;
    hide DataLen;
    hide Steps.Output;
    CountedIsThere(s);
    PacketSize(Current(s));
    DequeueEnds(s.ring);
    var before, pkt, r := Flat(s.received[..|s.decoded|]), Current(s), s.ring;
    if s.decoder.InHeader? {
      assert before + pkt[..0] == before;
      ReadsPart(r.offered, before, pkt, 0, HEADER, r.taken, Steps.Output(r.consumer));
    } else {
      ReadsPart(r.offered, before, pkt, HEADER, |pkt|, r.taken, Steps.Output(r.consumer));
    }
  }

  lemma HeaderReadKeeps(s: System)
    requires Inv(s) && Can(s, HeaderRead)
    ensures Inv(Do(s, HeaderRead))
  {
    hide DataLen;
    hide WellFormed;
    hide Flat;
    hide Steps.Output;
    hide Steps.Do;
    hide Steps.Inv;
    PopReads(s);
    DequeueEnds(s.ring);
  }

  lemma PacketSize(pkt: seq<byte>)
    requires WellFormed(pkt)
    ensures HEADER <= |pkt| == HEADER + DataLen(pkt[..HEADER])
  {
  }

  lemma BodyReadKeeps(s: System)
    requires Inv(s) && Can(s, BodyRead)
    ensures Inv(Do(s, BodyRead))
  {
    hide DataLen;
    hide WellFormed;
    hide Flat;
    hide Steps.Output;
    hide Steps.Do;
    hide Steps.Inv;
    PopReads(s);
    DequeueEnds(s.ring);
    Rejoin(Flat(s.received[..|s.decoded|]), Current(s), s.decoder.header, Steps.Output(s.ring.consumer));
  }

  lemma Rejoin(before: seq<byte>, pkt: seq<byte>, header: seq<byte>, body: seq<byte>)
    requires HEADER <= |pkt| && header == pkt[..HEADER] && body == pkt[HEADER..]
    ensures header + body == pkt && before + header + body == before + pkt
  {
  }

  lemma UncountKeeps(s: System)
    requires Inv(s) && Can(s, Uncount)
    ensures Inv(Do(s, Uncount))
  {
    hide WellFormed;
    hide Flat;
    assert Steps.Typed(s.ring);
    var t := Do(s, Uncount);
    assert t.received[..|t.decoded|] == s.received[..|s.decoded|] + [Current(s)];
    FlatSnoc(s.received[..|s.decoded|], Current(s));
  }

  lemma InsideKeeps(s: System, step: Steps.Step)
    requires Inv(s) && Can(s, Inside(step))
    ensures Inv(Do(s, Inside(step)))
  {
    Steps.StepKeeps(s.ring, step);
    InternalKeeps(s.ring, step);
    RingMoves(s, Do(s, Inside(step)));
  }

  /** Neither thread notices a ring that only moves bytes. */
  lemma RingMoves(s: System, t: System)
    requires ReceiverOk(s) && DecoderOk(s) && t == s.(ring := t.ring)
    requires t.ring.offered == s.ring.offered && t.ring.taken == s.ring.taken && t.ring.head >= s.ring.head
    requires t.ring.producer.Storing? <==> s.ring.producer.Storing?
    requires t.ring.producer.Ready? <==> s.ring.producer.Ready?
    requires t.ring.consumer.Loading? <==> s.ring.consumer.Loading?
    requires t.ring.consumer.Waiting? <==> s.ring.consumer.Waiting?
    requires s.ring.consumer.Loading? ==>
               t.ring.consumer.len == s.ring.consumer.len && t.ring.consumer.keep == s.ring.consumer.keep
    ensures ReceiverOk(t) && DecoderOk(t)
  {
    hide Flat;
    hide WellFormed;
    hide DataLen;
    assert DecoderAt(t);
  }

  /** What the inner steps leave alone. */
  lemma InternalKeeps(r: Steps.State, step: Steps.Step)
    requires Steps.Typed(r) && Internal(step) && Steps.Can(r, step)
    ensures var t := Steps.Do(r, step);
            && t.offered == r.offered && t.taken == r.taken && t.head >= r.head
            && (t.producer.Storing? <==> r.producer.Storing?) && (t.producer.Ready? <==> r.producer.Ready?)
            && (t.consumer.Loading? <==> r.consumer.Loading?) && (t.consumer.Waiting? <==> r.consumer.Waiting?)
            && (r.consumer.Loading? ==> t.consumer.len == r.consumer.len && t.consumer.keep == r.consumer.keep)
  {
  }

  lemma EventKeeps(s: System, e: Event)
    requires Inv(s) && Can(s, e)
    ensures Inv(Do(s, e))
  {
    hide Inv;
    hide Can;
    hide Do;
    match e {
      case Receive(pkt) => ReceiveKeeps(s, pkt);
      case EndReceive => EndReceiveKeeps(s);
      case Count => CountKeeps(s);
      case Look => LookKeeps(s);
      case HeaderRead => HeaderReadKeeps(s);
      case AskBody => AskBodyKeeps(s);
      case BodyRead => BodyReadKeeps(s);
      case Uncount => UncountKeeps(s);
      case Inside(step) => InsideKeeps(s, step);
    }
  }

  ghost predicate Run(s: System, events: seq<Event>, t: System)
    decreases |events|
  {
    if |events| == 0 then t == s
    else Steps.Typed(s.ring) && Can(s, events[0]) && Run(Do(s, events[0]), events[1..], t)
  }

  lemma {:induction false} RunKeeps(s: System, events: seq<Event>, t: System)
    requires Inv(s) && Run(s, events, t)
    ensures Inv(t)
    decreases |events|
  {
    hide Inv;
    hide Can;
    hide Do;
    if |events| == 0 {
    } else {
      EventKeeps(s, events[0]);
      RunKeeps(Do(s, events[0]), events[1..], t);
    }
  }

  /** In every interleaving the count never exceeds the number of complete packets in the
      ring, no dequeue of a pop fails, and the packets popped are exactly the oldest ones
      received, in order. */
  lemma PopsWholePackets(buf: seq<byte>, events: seq<Event>, t: System)
    requires |buf| == SIZE && Run(Start(buf), events, t)
    ensures t.decoder != Failed
    ensures t.decoded <= t.received
    ensures 0 <= t.count <= |t.received| - |t.decoded|
    ensures |Flat(t.received[..|t.decoded| + t.count])| <= t.ring.head
    ensures t.decoder.GotPacket? ==> |t.decoded| < |t.received| && t.decoder.pkt == t.received[|t.decoded|]
  {
    hide Steps.Inv;
    hide Flat;
    hide WellFormed;
    StartInv(buf);
    RunKeeps(Start(buf), events, t);
  }
}
