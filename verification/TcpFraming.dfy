/** Length-prefixed packets from the server to one client: one sending thread, a send ring
    that is drained in pieces, a byte stream, and a client that receives in pieces. */
module TcpFraming {
  import opened Bytes
  import opened Ring

  const BUFLEN := 4 * 1024 * 1024

  /** `tcp_send_data_safe`: between two packets, or with the length queued and the payload
      still to be queued. */
  datatype Sender = Idle | LengthQueued(pkt: seq<byte>)

  /** `_tcp_recv_pkt`: what has arrived of the length, or of the payload; or exited because a
      length was too big. */
  datatype Client = WantLength(got: seq<byte>) | WantBody(len: nat, got: seq<byte>) | Exited

  /** `ring` is the content of the send queue, which starts at position `tail`; `sent` are the
      packets given to `tcp_send_data_safe`, `frames` counts the frames the client is through
      with. */
  datatype Link = Link(
    sender: Sender, ring: seq<byte>, tail: nat, stream: seq<byte>, client: Client,
    sent: seq<seq<byte>>, delivered: seq<seq<byte>>, frames: nat)

  datatype Event =
    | QueueLength(pkt: seq<byte>) | QueueBody
    | Transmit(n: nat)
    | Arrive(n: nat)

  /** `queue_get_end_data_count` for this content. */
  function EndCount(l: Link): nat {
    if SIZE - l.tail % SIZE < |l.ring| then SIZE - l.tail % SIZE else |l.ring|
  }

  /** How much `_tcp_recv_all` still asks for. */
  function Wanted(c: Client): int {
    match c
    case WantLength(got) => 4 - |got|
    case WantBody(len, got) => len - |got|
    case Exited => 0
  }

  /** Enqueueing succeeds when there is room; an empty payload is never queued, because
      `enqueue_data` then returns 0, which the sender takes for a full ring. */
  predicate Can(l: Link, e: Event) {
    match e
    case QueueLength(pkt) => l.sender == Idle && |pkt| <= BUFLEN && |l.ring| + 4 <= SIZE
    case QueueBody => l.sender.LengthQueued? && 0 < |l.sender.pkt| && |l.ring| + |l.sender.pkt| <= SIZE
    case Transmit(n) => 0 < n <= EndCount(l)
    case Arrive(n) => 0 < n <= Wanted(l.client) && n <= |l.stream|
  }

  function Do(l: Link, e: Event): Link
    requires Can(l, e)
  {
    match e
    case QueueLength(pkt) =>
      l.(ring := l.ring + BigEndian(|pkt|), sender := LengthQueued(pkt), sent := l.sent + [pkt])
    case QueueBody => l.(ring := l.ring + l.sender.pkt, sender := Idle)
    case Transmit(n) => l.(ring := l.ring[n..], tail := l.tail + n, stream := l.stream + l.ring[..n])
    case Arrive(n) => Received(l.(stream := l.stream[n..]), l.stream[..n])
  }

  /** The client after `data` has arrived. */
  function Received(l: Link, data: seq<byte>): Link
    requires 0 < |data| <= Wanted(l.client)
  {
    match l.client
    case WantLength(got) =>
      var all := got + data;
      if |all| < 4 then l.(client := WantLength(all))
      else
        var len := FromBigEndian(all);
        if len > BUFLEN then l.(client := Exited)
        else if len > 0 then l.(client := WantBody(len, []))
        else l.(client := WantLength([]), frames := l.frames + 1)
    case WantBody(len, got) =>
      var all := got + data;
      if |all| < len then l.(client := WantBody(len, all))
      else l.(client := WantLength([]), delivered := l.delivered + [all], frames := l.frames + 1)
  }

  // ---------------------------------------------------------------- frames

  function Frame(pkt: seq<byte>): seq<byte>
    requires |pkt| <= BUFLEN
  {
    BigEndian(|pkt|) + pkt
  }

  predicate Sizes(ps: seq<seq<byte>>) { forall p :: p in ps ==> |p| <= BUFLEN }

  function Frames(ps: seq<seq<byte>>): seq<byte>
    requires Sizes(ps)
  {
    if |ps| == 0 then []
    else
      assert ps[|ps| - 1] in ps;
      Frames(ps[..|ps| - 1]) + Frame(ps[|ps| - 1])
  }

  /** The packets that the callback is to be given. */
  function NonEmpty(ps: seq<seq<byte>>): seq<seq<byte>> {
    if |ps| == 0 then []
    else if ps[|ps| - 1] == [] then NonEmpty(ps[..|ps| - 1])
    else NonEmpty(ps[..|ps| - 1]) + [ps[|ps| - 1]]
  }

  lemma FramesSnoc(ps: seq<seq<byte>>, p: seq<byte>)
    requires Sizes(ps) && |p| <= BUFLEN
    ensures Sizes(ps + [p]) && Frames(ps + [p]) == Frames(ps) + Frame(p)
    ensures NonEmpty(ps + [p]) == if p == [] then NonEmpty(ps) else NonEmpty(ps) + [p]
  {
    assert (ps + [p])[..|ps|] == ps;
  }

  lemma {:induction false} PrefixOf(ps: seq<seq<byte>>, m: nat)
    requires Sizes(ps) && m <= |ps|
    ensures Sizes(ps[..m]) && Frames(ps[..m]) <= Frames(ps) && NonEmpty(ps[..m]) <= NonEmpty(ps)
    decreases |ps|
  {
    if m == |ps| {
      assert ps[..m] == ps;
    } else {
      var init := ps[..|ps| - 1];
      PrefixOf(init, m);
      assert init[..m] == ps[..m];
    }
  }

  lemma FrameNext(ps: seq<seq<byte>>, f: nat)
    requires Sizes(ps) && f < |ps|
    ensures Sizes(ps[..f]) && |ps[f]| <= BUFLEN
    ensures Frames(ps[..f]) + Frame(ps[f]) <= Frames(ps)
    ensures NonEmpty(ps[..f + 1]) == if ps[f] == [] then NonEmpty(ps[..f]) else NonEmpty(ps[..f]) + [ps[f]]
  {
    hide Frames;
    hide NonEmpty;
    PrefixOf(ps, f);
    PrefixOf(ps, f + 1);
    assert ps[f] in ps;
    FramesSnoc(ps[..f], ps[f]);
    assert ps[..f + 1] == ps[..f] + [ps[f]];
  }

  // ---------------------------------------------------------------- the invariant

  /** All bytes queued so far. */
  function Queued(l: Link): seq<byte>
    requires Sizes(l.sent) && (l.sender.LengthQueued? ==> |l.sent| > 0 && |l.sender.pkt| <= BUFLEN)
  {
    match l.sender
    case Idle => Frames(l.sent)
    case LengthQueued(pkt) => Frames(l.sent[..|l.sent| - 1]) + BigEndian(|pkt|)
  }

  /** What the client has of its current frame. */
  function Part(c: Client): seq<byte>
    requires c.WantBody? ==> c.len <= BUFLEN
  {
    match c
    case WantLength(got) => got
    case WantBody(len, got) => BigEndian(len) + got
    case Exited => []
  }

  ghost predicate SenderOk(l: Link) {
    && Sizes(l.sent)
    && (l.sender.LengthQueued? ==> |l.sent| > 0 && l.sender.pkt == l.sent[|l.sent| - 1] && |l.sender.pkt| <= BUFLEN)
  }

  ghost predicate ClientOk(l: Link)
    requires Sizes(l.sent)
  {
    && l.frames <= |l.sent|
    && l.delivered == NonEmpty(l.sent[..l.frames])
    && match l.client
       case WantLength(got) => |got| < 4
       case WantBody(len, got) => l.frames < |l.sent| && 0 < len == |l.sent[l.frames]| && |got| < len <= BUFLEN
       case Exited => false
  }

  /** Every queued byte is in the finished frames, in the client's part of the current frame,
      in the stream or in the ring, in this order. */
  ghost predicate Conserved(l: Link)
    requires SenderOk(l) && ClientOk(l)
  {
    && Sizes(l.sent[..l.frames])
    && Queued(l) == Frames(l.sent[..l.frames]) + Part(l.client) + l.stream + l.ring
  }

  ghost predicate Inv(l: Link) { SenderOk(l) && ClientOk(l) && Conserved(l) }

  function Start(): Link { Link(Idle, [], 0, [], WantLength([]), [], [], 0) }

  /** What is queued is a prefix of the frames of all packets, and all of it if no payload is
      outstanding. */
  lemma QueuedIsPrefix(l: Link)
    requires SenderOk(l)
    ensures Queued(l) <= Frames(l.sent)
    ensures l.sender == Idle || |l.sender.pkt| == 0 ==> Queued(l) == Frames(l.sent)
  {
    hide Frames;
    hide NonEmpty;
    hide BigEndian;
    if l.sender.LengthQueued? {
      var init := l.sent[..|l.sent| - 1];
      PrefixOf(l.sent, |init|);
      FramesSnoc(init, l.sender.pkt);
      assert l.sent == init + [l.sender.pkt];
      Append(Frames(init), BigEndian(|l.sender.pkt|), l.sender.pkt);
    }
  }

  lemma QueueLengthKeeps(l: Link, pkt: seq<byte>)
    requires Inv(l) && Can(l, QueueLength(pkt))
    ensures Inv(Do(l, QueueLength(pkt)))
  {
    hide Frames;
    hide NonEmpty;
    hide BigEndian;
    var t := Do(l, QueueLength(pkt));
    assert t.sent[..|t.sent| - 1] == l.sent;
    assert t.sent[..t.frames] == l.sent[..l.frames];
    Append(Frames(l.sent[..l.frames]) + Part(l.client) + l.stream, l.ring, BigEndian(|pkt|));
  }

  lemma Append(a: seq<byte>, b: seq<byte>, c: seq<byte>)
    ensures a + b + c == a + (b + c)
  {
  }

  lemma QueueBodyKeeps(l: Link)
    requires Inv(l) && Can(l, QueueBody)
    ensures Inv(Do(l, QueueBody))
  {
    hide Frames;
    hide NonEmpty;
    hide BigEndian;
    var init, pkt := l.sent[..|l.sent| - 1], l.sender.pkt;
    PrefixOf(l.sent, |init|);
    FramesSnoc(init, pkt);
    assert l.sent == init + [pkt];
    Append(Frames(init), BigEndian(|pkt|), pkt);
    Append(Frames(l.sent[..l.frames]) + Part(l.client) + l.stream, l.ring, pkt);
  }

  lemma TransmitKeeps(l: Link, n: nat)
    requires Inv(l) && Can(l, Transmit(n))
    ensures Inv(Do(l, Transmit(n)))
  {
    hide Frames;
    hide NonEmpty;
    hide BigEndian;
    var before := Frames(l.sent[..l.frames]) + Part(l.client);
    assert before + l.stream + l.ring == before + (l.stream + l.ring[..n]) + l.ring[n..];
  }

  /** The next bytes that the client has or will get are those of the next frame. */
  lemma NextFrame(l: Link)
    requires Inv(l) && |Part(l.client) + l.stream| > 0
    ensures l.frames < |l.sent| && |l.sent[l.frames]| <= BUFLEN
    ensures var have, frame := Part(l.client) + l.stream, Frame(l.sent[l.frames]);
            |have| <= |frame| ==> have <= frame
    ensures var have, frame := Part(l.client) + l.stream, Frame(l.sent[l.frames]);
            |have| >= |frame| ==> frame <= have
  {
    hide Frames;
    hide NonEmpty;
    hide BigEndian;
    QueuedIsPrefix(l);
    var done, have := Frames(l.sent[..l.frames]), Part(l.client) + l.stream;
    assert done + have <= Frames(l.sent) by {
      assert done + have == Queued(l)[..|done + have|];
    }
    assert l.sent[..|l.sent|] == l.sent;
    assert l.frames < |l.sent|;
    FrameNext(l.sent, l.frames);
    SamePrefix(done, have, Frame(l.sent[l.frames]), Frames(l.sent));
  }

  lemma SamePrefix(done: seq<byte>, a: seq<byte>, b: seq<byte>, all: seq<byte>)
    requires done + a <= all && done + b <= all
    ensures |a| <= |b| ==> a <= b
    ensures |b| <= |a| ==> b <= a
  {
    assert a == all[|done|..|done| + |a|] by { assert (done + a)[|done|..] == a; }
    assert b == all[|done|..|done| + |b|] by { assert (done + b)[|done|..] == b; }
  }

  /** With four bytes of a frame the client knows the packet's size. */
  lemma LengthKnown(pkt: seq<byte>, all: seq<byte>, rest: seq<byte>)
    requires |pkt| <= BUFLEN && |all| == 4
    requires all + rest <= Frame(pkt) || Frame(pkt) <= all + rest
    ensures all == BigEndian(|pkt|) && FromBigEndian(all) == |pkt|
  {
    hide FromBigEndian;
    hide BigEndian;
    assert all == (all + rest)[..4];
    assert BigEndian(|pkt|) == Frame(pkt)[..4];
  }

  lemma ArriveKeeps(l: Link, n: nat)
    requires Inv(l) && Can(l, Arrive(n))
    ensures Inv(Do(l, Arrive(n)))
  {
    hide Frames;
    hide NonEmpty;
    NextFrame(l);
    if l.client.WantLength? {
      LengthArrives(l, n);
    } else {
      BodyArrives(l, n);
    }
  }

  lemma LengthArrives(l: Link, n: nat)
    requires Inv(l) && Can(l, Arrive(n)) && l.client.WantLength?
    ensures Inv(Do(l, Arrive(n)))
  {
    hide Frames;
    hide NonEmpty;
    hide BigEndian;
    hide FromBigEndian;
    NextFrame(l);
    var all, rest := l.client.got + l.stream[..n], l.stream[n..];
    assert l.client.got + l.stream == all + rest;
    var before := Frames(l.sent[..l.frames]);
    assert before + l.client.got + l.stream + l.ring == before + all + rest + l.ring;
    if |all| == 4 {
      var pkt := l.sent[l.frames];
      LengthKnown(pkt, all, rest);
      FrameNext(l.sent, l.frames);
      if |pkt| == 0 {
        EmptyFrame(l.sent, l.frames);
        assert before + all + rest + l.ring == (before + all) + [] + rest + l.ring;
      } else {
        assert BigEndian(|pkt|) + [] == all;
      }
    }
  }

  lemma EmptyFrame(ps: seq<seq<byte>>, f: nat)
    requires Sizes(ps) && f < |ps| && ps[f] == []
    ensures Sizes(ps[..f]) && Sizes(ps[..f + 1]) && Frames(ps[..f + 1]) == Frames(ps[..f]) + BigEndian(0)
  {
    hide Frames;
    hide BigEndian;
    PrefixOf(ps, f);
    FramesSnoc(ps[..f], []);
    assert ps[..f + 1] == ps[..f] + [[]];
    assert BigEndian(0) + [] == BigEndian(0);
  }

  lemma BodyArrives(l: Link, n: nat)
    requires Inv(l) && Can(l, Arrive(n)) && l.client.WantBody?
    ensures Inv(Do(l, Arrive(n)))
  {
    hide Frames;
    hide NonEmpty;
    hide BigEndian;
    hide FromBigEndian;
    NextFrame(l);
    var pkt, head := l.sent[l.frames], BigEndian(l.client.len);
    var all, rest := l.client.got + l.stream[..n], l.stream[n..];
    var before := Frames(l.sent[..l.frames]);
    assert before + (head + l.client.got) + l.stream + l.ring == before + (head + all) + rest + l.ring;
    if |all| == l.client.len {
      WholeBody(pkt, head, l.client.got, l.stream, all, rest);
      FullFrame(l.sent, l.frames);
      assert before + (head + all) + rest + l.ring == (before + Frame(pkt)) + [] + rest + l.ring;
    }
  }

  lemma WholeBody(pkt: seq<byte>, head: seq<byte>, got: seq<byte>, stream: seq<byte>, all: seq<byte>, rest: seq<byte>)
    requires |pkt| <= BUFLEN && head == BigEndian(|pkt|) && |all| == |pkt| && all + rest == got + stream
    requires Frame(pkt) <= head + got + stream || head + got + stream <= Frame(pkt)
    ensures all == pkt
  {
    hide BigEndian;
    assert head + got + stream == head + (got + stream) && head + all + rest == head + (all + rest);
    assert (head + all + rest)[|head|..|head| + |all|] == all;
    assert Frame(pkt)[|head|..] == pkt;
  }

  lemma FullFrame(ps: seq<seq<byte>>, f: nat)
    requires Sizes(ps) && f < |ps| && ps[f] != []
    ensures Sizes(ps[..f]) && Sizes(ps[..f + 1]) && |ps[f]| <= BUFLEN
    ensures Frames(ps[..f + 1]) == Frames(ps[..f]) + Frame(ps[f])
    ensures NonEmpty(ps[..f + 1]) == NonEmpty(ps[..f]) + [ps[f]]
  {
    hide Frames;
    hide NonEmpty;
    hide BigEndian;
    FrameNext(ps, f);
    PrefixOf(ps, f);
    FramesSnoc(ps[..f], ps[f]);
    assert ps[..f + 1] == ps[..f] + [ps[f]];
  }

  lemma EventKeeps(l: Link, e: Event)
    requires Inv(l) && Can(l, e)
    ensures Inv(Do(l, e))
  {
    hide Inv;
    hide Can;
    hide Do;
    match e {
      case QueueLength(pkt) => QueueLengthKeeps(l, pkt);
      case QueueBody => QueueBodyKeeps(l);
      case Transmit(n) => TransmitKeeps(l, n);
      case Arrive(n) => ArriveKeeps(l, n);
    }
  }

  predicate Run(l: Link, events: seq<Event>, t: Link)
    decreases |events|
  {
    if |events| == 0 then t == l else Can(l, events[0]) && Run(Do(l, events[0]), events[1..], t)
  }

  lemma {:induction false} RunKeeps(l: Link, events: seq<Event>, t: Link)
    requires Inv(l) && Run(l, events, t)
    ensures Inv(t)
    decreases |events|
  {
    hide Inv;
    hide Can;
    hide Do;
    if |events| == 0 {
    } else {
      EventKeeps(l, events[0]);
      RunKeeps(Do(l, events[0]), events[1..], t);
    }
  }

  /** For every schedule of partial sends and receives: the client never exits, its callback
      has been given a prefix of the non-empty packets, and all of them once nothing is left on
      the way. */
  lemma ServerToClient(events: seq<Event>, t: Link)
    requires Run(Start(), events, t)
    ensures t.client != Exited
    ensures t.delivered <= NonEmpty(t.sent)
    ensures t.sender == Idle && t.ring == [] && t.stream == [] && t.client == WantLength([]) ==>
              t.delivered == NonEmpty(t.sent)
  {
    hide NonEmpty;
    hide Frames;
    hide BigEndian;
    StartInv();
    RunKeeps(Start(), events, t);
    PrefixOf(t.sent, t.frames);
    if t.sender == Idle && t.ring == [] && t.stream == [] && t.client == WantLength([]) {
      NothingLeft(t);
    }
  }

  lemma StartInv()
    ensures Inv(Start())
  {
  }

  lemma NothingLeft(t: Link)
    requires Inv(t) && t.sender == Idle && t.ring == [] && t.stream == [] && t.client == WantLength([])
    ensures t.delivered == NonEmpty(t.sent)
  {
    hide NonEmpty;
    hide Frames;
    if t.frames < |t.sent| {
      FrameNext(t.sent, t.frames);
    } else {
      assert t.sent[..t.frames] == t.sent;
    }
  }

  /** An empty packet stops the sender for good: its payload is never queued, and no other
      packet can be started. */
  lemma {:induction false} EmptyPacketBlocks(l: Link, events: seq<Event>, t: Link)
    requires l.sender == LengthQueued([]) && Run(l, events, t)
    ensures t.sender == LengthQueued([]) && t.sent == l.sent
    decreases |events|
  {
    if |events| == 0 {
    } else {
      EmptyPacketBlocks(Do(l, events[0]), events[1..], t);
    }
  }

  ghost predicate Unblocks(l: Link, events: seq<Event>) {
    exists t :: Run(l, events, t) && t.sender == Idle
  }

  /** Transmitting all that can be reached until the ring is empty, then queueing the payload. */
  function Drain(l: Link): (events: seq<Event>)
    decreases |l.ring|
  {
    if |l.ring| == 0 then [QueueBody]
    else [Transmit(EndCount(l))] + Drain(Do(l, Transmit(EndCount(l))))
  }

  lemma {:induction false} DrainQueues(l: Link)
    requires l.sender.LengthQueued? && 0 < |l.sender.pkt| <= BUFLEN
    ensures Unblocks(l, Drain(l))
    decreases |l.ring|
  {
    var events := Drain(l);
    if |l.ring| == 0 {
      var t := Do(l, QueueBody);
      assert Run(t, events[1..], t);
      assert Run(l, events, t);
    } else {
      var m := Do(l, Transmit(EndCount(l)));
      DrainQueues(m);
      var t :| Run(m, Drain(m), t) && t.sender == Idle;
      assert events[1..] == Drain(m);
      assert Run(l, events, t);
    }
  }

  /** A pending payload can always still be queued, whatever is in the ring, if and only if it
      is not empty. */
  lemma SenderUnblocksIff(l: Link)
    requires l.sender.LengthQueued? && |l.sender.pkt| <= BUFLEN
    ensures (exists events :: Unblocks(l, events)) <==> l.sender.pkt != []
  {
    if l.sender.pkt == [] {
      forall events, t | Run(l, events, t)
        ensures t.sender != Idle
      {
        EmptyPacketBlocks(l, events, t);
      }
    } else {
      DrainQueues(l);
    }
  }
}
