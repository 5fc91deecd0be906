/** End-to-end delivery for the system as it runs: 32-bit sequence numbers, and a network
    that carries bytes, which are read out of a larger receive buffer. */
module KcpBytes {
  import opened Circular
  import opened KcpState
  import opened KcpCodec
  import opened KcpMessages
  import opened KcpSystem
  import opened KcpWire
  import opened KcpWrapSystem
  import KcpEndToEnd
  import S = KcpSpec

  datatype ByteNode = ByteNode(ep: Endpoint, out: seq<seq<byte>>, sent: seq<Message>, got: seq<Message>)

  datatype ByteSystem = ByteSystem(left: ByteNode, right: ByteNode)

  /** `memory` is what the receive buffer holds behind a datagram that is delivered. */
  datatype ByteEvent = ByteEvent(event: Event, memory: seq<byte>)

  /** A delivery hands the bytes to `ikcp_input`; one into a buffer that ends too early for
      what the reader may touch is not a step. */
  function ByteNodeStep(me: ByteNode, network: seq<seq<byte>>, act: Action, memory: seq<byte>): ByteNode
    requires 0 < me.ep.cfg.mss
  {
    match act
    case Send(msg) =>
      var (snd, ret) := S.Send(me.ep.cfg.mss, me.ep.snd, msg, |msg|);
      me.(ep := me.ep.(snd := snd), sent := if ret >= 0 then me.sent + [msg] else me.sent)
    case Recv(len) =>
      var r := S.Recv(Wrap32, me.ep, len);
      me.(ep := r.ep, got := if r.ret >= 0 && len >= 0 then me.got + [r.data] else me.got)
    case Deliver(i) =>
      if i < |network| && Room(network[i] + memory, 0, |network[i]|) then
        var r := ReadDatagram(me.ep.cfg.conv, network[i] + memory, |network[i]|);
        me.(ep := S.Input(Wrap32, me.ep, r.ps, r.ret == 0))
      else me
    case Update(now) =>
      var (ep, out) := S.Update(Wrap32, me.ep, now);
      me.(ep := ep, out := me.out + EncodeEach(out))
    case Flush =>
      var (ep, out) := S.Flush(Wrap32, me.ep);
      me.(ep := ep, out := me.out + EncodeEach(out))
  }

  function ByteStep(sys: ByteSystem, ev: ByteEvent): ByteSystem
    requires 0 < sys.left.ep.cfg.mss && 0 < sys.right.ep.cfg.mss
  {
    if ev.event.atLeft then sys.(left := ByteNodeStep(sys.left, sys.right.out, ev.event.act, ev.memory))
    else sys.(right := ByteNodeStep(sys.right, sys.left.out, ev.event.act, ev.memory))
  }

  lemma ByteStepKeepsConfig(me: ByteNode, network: seq<seq<byte>>, act: Action, memory: seq<byte>)
    requires 0 < me.ep.cfg.mss
    ensures ByteNodeStep(me, network, act, memory).ep.cfg == me.ep.cfg
  {
    match act {
      case Deliver(i) =>
        if i < |network| && Room(network[i] + memory, 0, |network[i]|) {
          var r := ReadDatagram(me.ep.cfg.conv, network[i] + memory, |network[i]|);
          S.OnPacketsKeepsConfig(Wrap32, S.InState(me.ep, false, 0), r.ps);
        }
      case _ =>
    }
  }

  function ByteRun(sys: ByteSystem, events: seq<ByteEvent>): ByteSystem
    requires 0 < sys.left.ep.cfg.mss && 0 < sys.right.ep.cfg.mss
    decreases |events|
  {
    if |events| == 0 then sys
    else
      ByteStepKeepsConfig(sys.left, sys.right.out, events[0].event.act, events[0].memory);
      ByteStepKeepsConfig(sys.right, sys.left.out, events[0].event.act, events[0].memory);
      ByteRun(ByteStep(sys, events[0]), events[1..])
  }

  // ---------------------------------------------------------------- segments and bytes

  function NodeBytes(n: Node): ByteNode { ByteNode(n.ep, EncodeEach(n.out), n.sent, n.got) }

  function SystemBytes(sys: System): ByteSystem { ByteSystem(NodeBytes(sys.left), NodeBytes(sys.right)) }

  function Plain(events: seq<ByteEvent>): (evs: seq<Event>)
    ensures |evs| == |events| && forall i :: 0 <= i < |events| ==> evs[i] == events[i].event
  {
    seq(|events|, i requires 0 <= i < |events| => events[i].event)
  }

  /** Datagrams that the header loop reads exactly, with room for it in the buffer. */
  ghost predicate Readable11(ds: seq<Datagram>, memory: seq<byte>) {
    forall d :: d in ds ==> 1 <= |d| <= 11 && Room(EncodeAll(d) + memory, 0, |EncodeAll(d)|)
  }

  lemma EncodeEachAppend(ds: seq<Datagram>, es: seq<Datagram>)
    ensures EncodeEach(ds + es) == EncodeEach(ds) + EncodeEach(es)
  {
  }

  /** A step on bytes is the step on segments. */
  lemma StepOnBytes(conv: int, me: Node, network: seq<Datagram>, act: Action, memory: seq<byte>)
    requires NodeEncodable(conv, me) && AllOnWire(conv, network) && Readable11(network, memory)
    ensures ByteNodeStep(NodeBytes(me), EncodeEach(network), act, memory) ==
      NodeBytes(NodeStep(Wrap32, me, network, act))
  {
    match act {
      case Deliver(i) =>
        if i < |network| {
          assert network[i] in network;
          DatagramRoundTrip(conv, network[i], memory);
        }
      case Update(now) => EncodeEachAppend(me.out, S.Update(Wrap32, me.ep, now).1);
      case Flush => EncodeEachAppend(me.out, S.Flush(Wrap32, me.ep).1);
      case _ =>
    }
  }

  lemma {:induction false} NetworkGrows(sys: System, events: seq<Event>)
    requires Runnable(sys)
    ensures sys.left.out <= Run(Wrap32, sys, events).left.out && sys.right.out <= Run(Wrap32, sys, events).right.out
    decreases |events|
  {
    if |events| == 0 {
    } else {
      StepKeepsConfig(Wrap32, sys.left, sys.right.out, events[0].act);
      StepKeepsConfig(Wrap32, sys.right, sys.left.out, events[0].act);
      NetworkGrows(Step(Wrap32, sys, events[0]), events[1..]);
    }
  }

  /** All that is ever emitted is readable behind the memory of every event. */
  ghost predicate AllReadable(end: System, events: seq<ByteEvent>) {
    forall ev :: ev in events ==> Readable11(end.left.out, ev.memory) && Readable11(end.right.out, ev.memory)
  }

  lemma ReadableBefore(ds: seq<Datagram>, es: seq<Datagram>, memory: seq<byte>)
    requires ds <= es && Readable11(es, memory)
    ensures Readable11(ds, memory)
  {
    assert forall d :: d in ds ==> d in es;
  }

  lemma {:induction false} RunOnBytes(conv: int, sys: System, events: seq<ByteEvent>)
    requires Runnable(sys) && NodeEncodable(conv, sys.left) && NodeEncodable(conv, sys.right)
    requires forall ev :: ev in events ==> ProperEvent(ev.event)
    requires AllReadable(Run(Wrap32, sys, Plain(events)), events)
    ensures ByteRun(SystemBytes(sys), events) == SystemBytes(Run(Wrap32, sys, Plain(events)))
    decreases |events|
  {
    hide Readable11;
    hide NodeEncodable;
    hide NodeStep;
    hide ByteNodeStep;
    if |events| == 0 {
    } else {
      var ev, end := events[0], Run(Wrap32, sys, Plain(events));
      assert ev in events && Plain(events)[1..] == Plain(events[1..]);
      NetworkGrows(sys, Plain(events));
      ReadableBefore(sys.left.out, end.left.out, ev.memory);
      ReadableBefore(sys.right.out, end.right.out, ev.memory);
      EncodableWire(conv, sys.left);
      EncodableWire(conv, sys.right);
      if ev.event.atLeft {
        StepOnBytes(conv, sys.left, sys.right.out, ev.event.act, ev.memory);
        NodeStepEncodable(conv, sys.left, sys.right.out, ev.event.act);
      } else {
        StepOnBytes(conv, sys.right, sys.left.out, ev.event.act, ev.memory);
        NodeStepEncodable(conv, sys.right, sys.left.out, ev.event.act);
      }
      StepKeepsConfig(Wrap32, sys.left, sys.right.out, ev.event.act);
      StepKeepsConfig(Wrap32, sys.right, sys.left.out, ev.event.act);
      RunOnBytes(conv, Step(Wrap32, sys, ev.event), events[1..]);
    }
  }

  lemma EncodableWire(conv: int, n: Node)
    requires NodeEncodable(conv, n)
    ensures AllOnWire(conv, n.out)
  {
  }

  /** Two endpoints as they are configured before first use, with encodable numbers. */
  ghost predicate ByteStart(sys: System) {
    && Start(sys) && Word(sys.left.ep.cfg.conv)
    && sys.left.ep.cfg.mss < HALF && sys.right.ep.cfg.mss < HALF
  }

  /** End to end on bytes and 32-bit numbers, across any number of wraps: if no emitted
      datagram has more than eleven segments, and numbers are delivered while within reach,
      each side has returned a prefix of the messages that the other accepted. */
  lemma BytesEndToEnd(sys: System, events: seq<ByteEvent>)
    requires ByteStart(sys) && NearRun(sys, Plain(events))
    requires forall ev :: ev in events ==> ProperEvent(ev.event)
    requires AllReadable(Run(Wrap32, sys, Plain(events)), events)
    ensures var end := ByteRun(SystemBytes(sys), events);
            end.right.got <= end.left.sent && end.left.got <= end.right.sent
  {
    hide NearRun;
    hide ByteRun;
    hide Run;
    hide Plain;
    RunOnBytes(sys.left.ep.cfg.conv, sys, events);
    WrappedEndToEnd(sys, Plain(events));
  }

  // ---------------------------------------------------------------- a small mtu

  /** What a node has emitted respects its mtu. */
  ghost predicate Sized(n: Node) {
    && n.ep.cfg.mss == n.ep.cfg.mtu - OVERHEAD
    && forall d :: d in n.out ==> 0 < |d| && S.WireSize(d) <= n.ep.cfg.mtu + 2
  }

  lemma FlushSized(e: Endpoint)
    requires Encodable(e) && e.cfg.mss == e.cfg.mtu - OVERHEAD
    ensures forall d :: d in S.Flush(Wrap32, e).1 ==> 0 < |d| && S.WireSize(d) <= e.cfg.mtu + 2
  {
    if e.clock.updated {
      var ps := S.FlushPackets(Wrap32, e);
      FlushedDataFits(e);
      PackKeepsOrder(e.cfg.mtu, ps, []);
      PackRespectsMtu(e.cfg.mtu, ps, []);
    }
  }

  lemma NodeStepSized(conv: int, me: Node, network: seq<Datagram>, act: Action)
    requires NodeEncodable(conv, me) && Sized(me) && (act.Update? ==> Word(act.now))
    ensures Sized(NodeStep(Wrap32, me, network, act))
  {
    StepKeepsConfig(Wrap32, me, network, act);
    match act {
      case Update(now) => FlushSized(me.ep.(clock := S.Tick(me.ep.cfg.interval, me.ep.clock, now).0));
      case Flush => FlushSized(me.ep);
      case _ =>
    }
  }

  lemma {:induction false} RunSized(conv: int, sys: System, events: seq<Event>)
    requires Runnable(sys) && NodeEncodable(conv, sys.left) && NodeEncodable(conv, sys.right)
    requires Sized(sys.left) && Sized(sys.right) && forall ev :: ev in events ==> ProperEvent(ev)
    ensures var end := Run(Wrap32, sys, events); Sized(end.left) && Sized(end.right)
    ensures var end := Run(Wrap32, sys, events);
            end.left.ep.cfg == sys.left.ep.cfg && end.right.ep.cfg == sys.right.ep.cfg
    decreases |events|
  {
    hide NodeEncodable;
    hide Sized;
    hide NodeStep;
    if |events| == 0 {
    } else {
      var ev := events[0];
      assert ev in events;
      EncodableWire(conv, sys.left);
      EncodableWire(conv, sys.right);
      StepKeepsConfig(Wrap32, sys.left, sys.right.out, ev.act);
      StepKeepsConfig(Wrap32, sys.right, sys.left.out, ev.act);
      if ev.atLeft {
        NodeStepEncodable(conv, sys.left, sys.right.out, ev.act);
        NodeStepSized(conv, sys.left, sys.right.out, ev.act);
      } else {
        NodeStepEncodable(conv, sys.right, sys.left.out, ev.act);
        NodeStepSized(conv, sys.right, sys.left.out, ev.act);
      }
      RunSized(conv, Step(Wrap32, sys, ev), events[1..]);
    }
  }

  lemma {:induction false} SegmentsCost(d: Datagram)
    ensures S.WireSize(d) >= HEADER * |d|
  {
    if |d| == 0 {
    } else {
      SegmentsCost(d[..|d| - 1]);
      assert d == d[..|d| - 1] + [d[|d| - 1]];
      WireSizeOfMore(d[..|d| - 1], d[|d| - 1]);
    }
  }

  lemma SmallIsReadable(n: Node, memory: seq<byte>)
    requires Sized(n) && n.ep.cfg.mtu <= 309 && |memory| >= HEADER
    ensures Readable11(n.out, memory)
  {
    forall d | d in n.out
      ensures 1 <= |d| <= 11 && Room(EncodeAll(d) + memory, 0, |EncodeAll(d)|)
    {
      SegmentsCost(d);
      EncodedLength(d);
    }
  }

  /** With an mtu of at most 309 no datagram can hold twelve segments: end-to-end delivery on
      bytes then needs nothing of the network or the datagrams, only 26 bytes of memory behind
      each datagram, for runs below 2^31 segments. */
  lemma SmallMtuEndToEnd(sys: System, events: seq<ByteEvent>)
    requires ByteStart(sys) && Sized(sys.left) && Sized(sys.right)
    requires sys.left.ep.cfg.mtu <= 309 && sys.right.ep.cfg.mtu <= 309
    requires forall ev :: ev in events ==> ProperEvent(ev.event) && |ev.memory| >= HEADER
    requires Short(Run(Unbounded, sys, Plain(events)))
    ensures var end := ByteRun(SystemBytes(sys), events);
            end.right.got <= end.left.sent && end.left.got <= end.right.sent
  {
    hide Readable11;
    hide ByteRun;
    hide Run;
    hide Plain;
    hide NodeStep;
    var conv, end := sys.left.ep.cfg.conv, Run(Wrap32, sys, Plain(events));
    RunSized(conv, sys, Plain(events));
    forall ev | ev in events
      ensures Readable11(end.left.out, ev.memory) && Readable11(end.right.out, ev.memory)
    {
      SmallIsReadable(end.left, ev.memory);
      SmallIsReadable(end.right, ev.memory);
    }
    KcpEndToEnd.StartIsOk(sys);
    ShortRunsAreNear(sys, Plain(events));
    BytesEndToEnd(sys, events);
  }
}
