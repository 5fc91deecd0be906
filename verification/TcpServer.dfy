/** The server's side of a connection: bytes are received straight into the ring, and frames
    are handed out straight from it. */
module TcpServer {
  import opened Bytes
  import opened Ring
  import opened TcpFraming
  import opened TcpClient

  /** The length as the C code sees it, in an `int`. */
  function SignedLength(bs: seq<byte>): int
    requires |bs| == 4
  {
    var n := FromBigEndian(bs);
    if n >= 0x8000_0000 then n - 0x1_0000_0000 else n
  }

  /** Is there a frame with a positive length, complete, at the front? */
  predicate Complete(s: seq<byte>) { |s| > 4 && SignedLength(s[..4]) > 0 && |s| >= 4 + SignedLength(s[..4]) }

  function FrameSize(s: seq<byte>): nat
    requires Complete(s)
  {
    4 + SignedLength(s[..4])
  }

  /** The payloads of the complete frames at the front, and what is left after them. */
  function Payloads(s: seq<byte>): seq<seq<byte>>
    decreases |s|
  {
    if !Complete(s) then [] else [s[4..FrameSize(s)]] + Payloads(s[FrameSize(s)..])
  }

  function Left(s: seq<byte>): seq<byte>
    decreases |s|
  {
    if !Complete(s) then s else Left(s[FrameSize(s)..])
  }

  /** No frame, and no length field that is looked at, crosses the end of the buffer: `s` lies
      in the ring from position `at` on. */
  ghost predicate Unbroken(at: nat, s: seq<byte>)
    decreases |s|
  {
    && (|s| > 4 ==> at % SIZE + 4 <= SIZE)
    && (Complete(s) ==> at % SIZE + FrameSize(s) <= SIZE && Unbroken(at + FrameSize(s), s[FrameSize(s)..]))
  }

  /** An unbroken frame lies in one piece at the ring's tail. */
  lemma FrameInRing(buf: seq<byte>, tail: nat, s: seq<byte>)
    requires |buf| == SIZE && Ring.Holds(buf, tail, s) && Unbroken(tail, s)
    ensures |s| > 4 ==> tail % SIZE + 4 <= SIZE && buf[tail % SIZE..tail % SIZE + 4] == s[..4]
    ensures Complete(s) ==>
              && tail % SIZE + FrameSize(s) <= SIZE
              && buf[tail % SIZE + 4..tail % SIZE + FrameSize(s)] == s[4..FrameSize(s)]
  {
    hide Ring.Holds;
    var at := tail % SIZE;
    if |s| > 4 {
      LoadIs(buf, tail, s, 4);
    }
    if Complete(s) {
      var n := FrameSize(s);
      LoadIs(buf, tail, s, n);
      assert buf[at + 4..at + n] == buf[at..at + n][4..];
      assert s[..n][4..] == s[4..n];
    }
  }

  class Connection {
    const recvQueue: DataQueue
    const sendQueue: DataQueue
    /** What `server_on_pkg` has been given. */
    var delivered: seq<seq<byte>>
    var removed: bool

    ghost predicate Valid()
      reads this, recvQueue, recvQueue.buffer, sendQueue, sendQueue.buffer
    {
      && recvQueue.Valid() && sendQueue.Valid()
      && recvQueue != sendQueue && recvQueue.buffer != sendQueue.buffer
    }

    constructor ()
      ensures Valid() && fresh(recvQueue) && fresh(recvQueue.buffer) && fresh(sendQueue) && fresh(sendQueue.buffer)
      ensures recvQueue.contents == [] && recvQueue.tail == 0 && sendQueue.contents == []
      ensures delivered == [] && !removed
    {
      recvQueue := new DataQueue();
      sendQueue := new DataQueue();
      delivered, removed := [], false;
    }

    /** `_check_recv_pkt`: hands out the first frame if it is complete. */
    method CheckRecvPkt() returns (ret: int)
      requires Valid() && Unbroken(recvQueue.tail, recvQueue.contents)
      modifies `delivered, recvQueue`tail, recvQueue`contents
      ensures Valid() && ret == if Complete(old(recvQueue.contents)) then 0 else -1
      ensures ret == 0 ==>
                && delivered == old(delivered) + [old(recvQueue.contents)[4..FrameSize(old(recvQueue.contents))]]
                && recvQueue.contents == old(recvQueue.contents)[FrameSize(old(recvQueue.contents))..]
                && recvQueue.tail == old(recvQueue.tail) + FrameSize(old(recvQueue.contents))
      ensures ret == -1 ==>
                && delivered == old(delivered)
                && recvQueue.contents == old(recvQueue.contents) && recvQueue.tail == old(recvQueue.tail)
    {
      hide SignedLength;
      hide Holds;
      hide Unbroken;
      var at := recvQueue.tail % SIZE;
      ghost var s := recvQueue.contents;
      FrameInRing(recvQueue.buffer[..], recvQueue.tail, s);
      if recvQueue.head - recvQueue.tail > 4 {
        assert recvQueue.buffer[at..at + 4] == recvQueue.buffer[..][at..at + 4];
        var len := SignedLength(recvQueue.buffer[at..at + 4]);
        if len > 0 {
          if recvQueue.head - recvQueue.tail >= 4 + len {
            assert Complete(s) && FrameSize(s) == 4 + len;
            assert recvQueue.buffer[at + 4..at + 4 + len] == recvQueue.buffer[..][at + 4..at + 4 + len];
            delivered := delivered + [recvQueue.buffer[at + 4..at + 4 + len]];
            var _ := recvQueue.TailPointForward(4 + len);
            return 0;
          }
        }
      }
      return -1;
    }

    /** `_callback_recvdata`: one `recv` through the write pointer, then every complete frame.
        A full ring asks for 0 bytes, which reads as a closed connection. */
    method CallbackRecvData(sock: Socket) returns (ghost taken: seq<byte>)
      requires Valid() && !removed && Unbroken(recvQueue.tail, recvQueue.contents + sock.input)
      modifies this, sock`input, sock`results, recvQueue, recvQueue.buffer
      ensures Valid() && old(sock.input) == taken + sock.input
      ensures exists n ::
                && sock.results == old(sock.results) + [n]
                && (removed <==> n == 0) && |taken| == if n > 0 then n else 0
      ensures removed ==> taken == [] && delivered == old(delivered)
      ensures |old(recvQueue.contents)| == SIZE ==> removed || taken == []
      ensures !removed ==>
                && delivered == old(delivered) + Payloads(old(recvQueue.contents) + taken)
                && recvQueue.contents == Left(old(recvQueue.contents) + taken)
                && Unbroken(recvQueue.tail, recvQueue.contents + sock.input)
    {
      ghost var before, all := recvQueue.contents, sock.input;
      var room := recvQueue.EndFreeCount();
      var ret, data := sock.Recv(room);
      taken := data;
      assert sock.results == old(sock.results) + [ret];
      assert all == taken + sock.input;
      if ret == 0 {
        removed := true;
        return;
      }
      if ret > 0 {
        recvQueue.WriteDirect(data);
      }
      assert before + [] == before;
      assert recvQueue.contents == before + taken;
      assert before + all == recvQueue.contents + sock.input;
      DeliverAll(sock);
    }

    /** `while (_check_recv_pkt(ev) == 0);` */
    method DeliverAll(sock: Socket)
      requires Valid() && Unbroken(recvQueue.tail, recvQueue.contents + sock.input)
      modifies `delivered, recvQueue`tail, recvQueue`contents
      ensures Valid() && delivered == old(delivered) + Payloads(old(recvQueue.contents))
      ensures recvQueue.contents == Left(old(recvQueue.contents))
      ensures Unbroken(recvQueue.tail, recvQueue.contents + sock.input)
    {
      hide Payloads;
      hide Left;
      hide Complete;
      hide FrameSize;
      hide Holds;
      ghost var s := recvQueue.contents;
      var ret := 0;
      assert delivered + Payloads(s) == old(delivered) + Payloads(s);
      while ret == 0
        invariant Valid() && Unbroken(recvQueue.tail, recvQueue.contents + sock.input)
        invariant delivered + Payloads(recvQueue.contents) == old(delivered) + Payloads(s)
        invariant Left(recvQueue.contents) == Left(s)
        invariant ret == 0 || ret == -1
        invariant ret == -1 ==> !Complete(recvQueue.contents)
        decreases |recvQueue.contents|, ret
      {
        ghost var c, d := recvQueue.contents, delivered;
        UnbrokenFront(recvQueue.tail, c, sock.input);
        PayloadsStep(c);
        ret := CheckRecvPkt();
        if ret == 0 {
          assert d + ([c[4..FrameSize(c)]] + Payloads(recvQueue.contents)) == delivered + Payloads(recvQueue.contents);
        }
      }
      PayloadsStep(recvQueue.contents);
      assert delivered + [] == delivered;
    }

    /** `tcp_send_data_unsafe`: refused, or both parts of the frame queued at once. For an
        empty packet the length is queued and the call waits for ever, which `blocked` says. */
    method TcpSendDataUnsafe(pkt: seq<byte>) returns (ret: int, blocked: bool)
      requires Valid() && |pkt| < 0xffff_fffc
      modifies sendQueue`head, sendQueue`contents, sendQueue.buffer
      ensures Valid() && ret == if SIZE - |old(sendQueue.contents)| < |pkt| + 4 then -1 else 0
      ensures blocked <==> ret == 0 && pkt == []
      ensures sendQueue.contents ==
              if ret == 0 then old(sendQueue.contents) + (BigEndian(|pkt|) + pkt) else old(sendQueue.contents)
    {
      hide Holds;
      hide BigEndian;
      ghost var before := sendQueue.contents;
      if SIZE + sendQueue.tail - sendQueue.head < |pkt| + 4 {
        return -1, false;
      }
      var n := sendQueue.EnqueueData(BigEndian(|pkt|));
      n := sendQueue.EnqueueData(pkt);
      Append(before, BigEndian(|pkt|), pkt);
      return 0, n == 0;
    }

    /** `_callback_senddata`: one `send` through the read pointer. */
    method CallbackSendData(sock: Socket) returns (n: int)
      requires Valid() && !removed && |sendQueue.contents| > 0
      modifies `removed, sendQueue`tail, sendQueue`contents, sock`output, sock`results
      ensures Valid() && (removed <==> n == 0) && sock.results == old(sock.results) + [n]
      ensures n <= 0 ==> sendQueue.contents == old(sendQueue.contents) && sock.output == old(sock.output)
      ensures n > 0 ==>
                && n <= |old(sendQueue.contents)|
                && sendQueue.contents == old(sendQueue.contents)[n..]
                && sock.output == old(sock.output) + old(sendQueue.contents)[..n]
    {
      var count := sendQueue.EndDataCount();
      var at := sendQueue.tail % SIZE;
      ghost var s := sendQueue.contents;
      n := sock.Send(sendQueue.buffer[at..at + count]);
      if n == 0 {
        removed := true;
        return;
      }
      if n > 0 {
        assert s[..count][..n] == s[..n];
        var _ := sendQueue.TailPointForward(n);
      }
    }
  }

  lemma PayloadsStep(s: seq<byte>)
    ensures Complete(s) ==>
              && 4 < FrameSize(s) <= |s|
              && Payloads(s) == [s[4..FrameSize(s)]] + Payloads(s[FrameSize(s)..])
              && Left(s) == Left(s[FrameSize(s)..])
    ensures !Complete(s) ==> Payloads(s) == [] && Left(s) == s
  {
  }

  /** A frame that is complete stays the first frame when more arrives. */
  lemma CompleteStays(s: seq<byte>, more: seq<byte>)
    requires Complete(s)
    ensures Complete(s + more) && FrameSize(s + more) == FrameSize(s)
    ensures (s + more)[4..FrameSize(s)] == s[4..FrameSize(s)]
    ensures (s + more)[FrameSize(s)..] == s[FrameSize(s)..] + more
  {
    hide SignedLength;
    assert (s + more)[..4] == s[..4];
  }

  lemma UnbrokenFront(at: nat, s: seq<byte>, more: seq<byte>)
    requires Unbroken(at, s + more)
    ensures Unbroken(at, s)
    ensures Complete(s) ==> Unbroken(at + FrameSize(s), s[FrameSize(s)..] + more)
    decreases |s|
  {
    if Complete(s) {
      CompleteStays(s, more);
      UnbrokenFront(at + FrameSize(s), s[FrameSize(s)..], more);
    }
  }

  /** How the stream is cut into chunks does not matter: handing out what is complete and
      keeping the rest gives the same payloads as looking at everything at once. */
  lemma {:induction false} ChunksDoNotMatter(s: seq<byte>, more: seq<byte>)
    ensures Payloads(s + more) == Payloads(s) + Payloads(Left(s) + more)
    ensures Left(s + more) == Left(Left(s) + more)
    decreases |s|
  {
    if Complete(s) {
      CompleteStays(s, more);
      ChunksDoNotMatter(s[FrameSize(s)..], more);
    } else {
      assert [] + Payloads(s + more) == Payloads(s + more);
    }
  }

  /** The concatenation of chunks. */
  function Joined(chunks: seq<seq<byte>>): seq<byte> {
    if |chunks| == 0 then [] else chunks[0] + Joined(chunks[1..])
  }

  /** What a connection hands out over a whole run of callbacks. */
  function HandedOut(left: seq<byte>, chunks: seq<seq<byte>>): seq<seq<byte>>
    decreases |chunks|
  {
    if |chunks| == 0 then []
    else Payloads(left + chunks[0]) + HandedOut(Left(left + chunks[0]), chunks[1..])
  }

  lemma {:induction false} AnyChunking(left: seq<byte>, chunks: seq<seq<byte>>)
    requires !Complete(left)
    ensures HandedOut(left, chunks) == Payloads(left + Joined(chunks))
    decreases |chunks|
  {
    hide Left;
    hide Payloads;
    hide Complete;
    hide FrameSize;
    PayloadsStep(left);
    if |chunks| == 0 {
      assert left + [] == left;
    } else {
      var s, rest := left + chunks[0], Joined(chunks[1..]);
      LeftIsIncomplete(s);
      AnyChunking(Left(s), chunks[1..]);
      ChunksDoNotMatter(s, rest);
      assert s + rest == left + Joined(chunks);
    }
  }

  lemma {:induction false} LeftIsIncomplete(s: seq<byte>)
    ensures !Complete(Left(s))
    decreases |s|
  {
    if Complete(s) {
      LeftIsIncomplete(s[FrameSize(s)..]);
    }
  }

  /** The frames of packets, from the front. */
  function FramesForward(packets: seq<seq<byte>>): seq<byte>
    requires Sizes(packets)
  {
    if |packets| == 0 then []
    else
      assert packets[0] in packets;
      Frame(packets[0]) + FramesForward(packets[1..])
  }

  /** Whether the first frame of a stream is complete in a prefix of it, and which it is. */
  lemma FrontFrame(p: seq<byte>, more: seq<byte>, s: seq<byte>)
    requires |p| <= BUFLEN && s <= Frame(p) + more
    ensures Complete(s) <==> p != [] && |s| >= |Frame(p)|
    ensures Complete(s) ==> FrameSize(s) == |Frame(p)| && s[4..FrameSize(s)] == p
  {
    hide FromBigEndian;
    hide BigEndian;
    if |s| > 4 {
      assert s[..4] == (Frame(p) + more)[..4] == BigEndian(|p|);
    }
    if |s| >= |Frame(p)| {
      assert s[4..|Frame(p)|] == (Frame(p) + more)[4..|Frame(p)|] == p;
    }
  }

  /** A frame of length zero, or one above 2^31 - 1, is never passed: nothing behind it is
      handed out, however much arrives. */
  lemma BadLengthBlocks(s: seq<byte>, more: seq<byte>)
    requires |s| >= 4 && SignedLength(s[..4]) <= 0
    ensures Payloads(s + more) == [] && Left(s + more) == s + more
  {
    assert (s + more)[..4] == s[..4];
  }

  /** The packets before the first empty one. */
  function Before(packets: seq<seq<byte>>): seq<seq<byte>> {
    if |packets| == 0 || packets[0] == [] then [] else [packets[0]] + Before(packets[1..])
  }

  lemma {:induction false} BeforeIsAll(packets: seq<seq<byte>>)
    ensures Before(packets) <= packets
    ensures Before(packets) == packets <==> forall p :: p in packets ==> p != []
  {
    if |packets| == 0 {
    } else if packets[0] == [] {
      assert packets[0] in packets;
    } else {
      var rest := packets[1..];
      BeforeIsAll(rest);
      assert packets == [packets[0]] + rest && Before(packets)[1..] == Before(rest);
      assert forall p :: p in packets <==> p == packets[0] || p in rest;
    }
  }

  lemma SizesOfRest(packets: seq<seq<byte>>)
    requires Sizes(packets) && |packets| > 0
    ensures |packets[0]| <= BUFLEN && Sizes(packets[1..])
    ensures FramesForward(packets) == Frame(packets[0]) + FramesForward(packets[1..])
  {
    assert packets[0] in packets;
  }

  /** What is handed out of a prefix of the client's frames is a prefix of the packets before
      the first empty one, and all of them once its frame is reached. */
  lemma {:induction false} PayloadsOfFrames(packets: seq<seq<byte>>, s: seq<byte>)
    requires Sizes(packets) && s <= FramesForward(packets)
    ensures Payloads(s) <= Before(packets)
    ensures s == FramesForward(packets) ==> Payloads(s) == Before(packets)
    decreases |packets|
  {
    hide Payloads;
    hide Complete;
    hide FrameSize;
    hide FramesForward;
    hide Frame;
    if |packets| == 0 {
      NoFrames(s);
    } else {
      SizesOfRest(packets);
      PayloadsStep(s);
      var p, more := packets[0], FramesForward(packets[1..]);
      FrontFrame(p, more, s);
      if p != [] && |s| >= |Frame(p)| {
        var t := s[|Frame(p)|..];
        RestOfFrames(Frame(p), more, s);
        PayloadsOfFrames(packets[1..], t);
      }
    }
  }

  lemma NoFrames(s: seq<byte>)
    requires s <= FramesForward([])
    ensures Payloads(s) == []
  {
  }

  lemma RestOfFrames(frame: seq<byte>, more: seq<byte>, s: seq<byte>)
    requires s <= frame + more && |s| >= |frame|
    ensures s[|frame|..] <= more
    ensures s == frame + more ==> s[|frame|..] == more
  {
    assert (frame + more)[|frame|..] == more;
  }

  /** Whatever the chunks, a connection that receives a prefix of the frames of packets hands
      out a prefix of these packets; with the whole stream it has handed out the packets before
      the first empty one, which are all of them if and only if none is empty. */
  lemma ClientToServer(packets: seq<seq<byte>>, chunks: seq<seq<byte>>)
    requires Sizes(packets) && Joined(chunks) <= FramesForward(packets)
    ensures HandedOut([], chunks) <= packets
    ensures Joined(chunks) == FramesForward(packets) ==>
              && HandedOut([], chunks) == Before(packets)
              && (HandedOut([], chunks) == packets <==> forall p :: p in packets ==> p != [])
  {
    AnyChunking([], chunks);
    assert [] + Joined(chunks) == Joined(chunks);
    PayloadsOfFrames(packets, Joined(chunks));
    BeforeIsAll(packets);
  }

  // ---------------------------------------------------------------- the end of the ring

  /** Frame by frame from position `at` on: none crosses the end of the buffer, up to the first
      empty packet, of which only the length field is looked at. */
  predicate NoStraddle(at: nat, packets: seq<seq<byte>>)
    decreases |packets|
  {
    if |packets| == 0 then true
    else if packets[0] == [] then |packets| > 1 ==> at % SIZE + 4 <= SIZE
    else at % SIZE + 4 + |packets[0]| <= SIZE && NoStraddle(at + 4 + |packets[0]|, packets[1..])
  }

  /** The reader's guard on a stream of frames, in terms of the packets. */
  lemma {:induction false} UnbrokenIsNoStraddle(at: nat, packets: seq<seq<byte>>)
    requires Sizes(packets)
    ensures Unbroken(at, FramesForward(packets)) <==> NoStraddle(at, packets)
    decreases |packets|
  {
    hide Complete;
    hide FrameSize;
    hide FramesForward;
    if |packets| == 0 {
      NoFramesUnbroken(at);
    } else {
      SizesOfRest(packets);
      var p, more := packets[0], FramesForward(packets[1..]);
      var s := Frame(p) + more;
      FrontFrame(p, more, s);
      FramesLength(packets[1..]);
      if p != [] {
        RestOfFrames(Frame(p), more, s);
        UnbrokenIsNoStraddle(at + 4 + |p|, packets[1..]);
      }
    }
  }

  lemma NoFramesUnbroken(at: nat)
    ensures Unbroken(at, FramesForward([]))
  {
  }

  lemma FramesLength(packets: seq<seq<byte>>)
    requires Sizes(packets)
    ensures |FramesForward(packets)| > 0 <==> |packets| > 0
  {
    if |packets| > 0 {
      SizesOfRest(packets);
    }
  }

  /** An input that breaks the guard: of three packets of the largest size the third crosses
      the end of the buffer. */
  lemma ThirdPacketStraddles(p: seq<byte>)
    requires |p| == BUFLEN
    ensures Sizes([p, p, p]) && !Unbroken(0, FramesForward([p, p, p]))
  {
    var packets := [p, p, p];
    UnbrokenIsNoStraddle(0, packets);
    assert packets[1..] == [p, p] && packets[1..][1..] == [p];
    assert !NoStraddle(8 * 1024 * 1024 + 8, [p]);
    assert !NoStraddle(4 * 1024 * 1024 + 4, [p, p]);
  }

  // ---------------------------------------------------------------- runs of a connection

  /** A fresh connection that is called back any number of times while frames that do not
      cross the end of the ring come in: it hands out a prefix of the packets, and once
      everything has been received the packets before the first empty one. */
  method Serve(sock: Socket, rounds: nat, ghost packets: seq<seq<byte>>) returns (c: Connection)
    requires Sizes(packets) && sock.input == FramesForward(packets) && NoStraddle(0, packets)
    modifies sock`input, sock`results
    ensures c.delivered <= packets
    ensures !c.removed && sock.input == [] ==>
              && c.delivered == Before(packets)
              && (c.delivered == packets <==> forall p :: p in packets ==> p != [])
  {
    hide NoStraddle;
    hide Complete;
    hide Holds;
    hide Payloads;
    hide Left;
    hide Unbroken;
    hide FramesForward;
    hide Before;
    c := new Connection();
    ghost var stream := sock.input;
    ghost var taken: seq<byte> := [];
    UnbrokenIsNoStraddle(0, packets);
    NothingYet(stream);
    for i := 0 to rounds
      invariant c.Valid() && fresh(c) && fresh(c.recvQueue) && fresh(c.recvQueue.buffer)
      invariant stream == taken + sock.input && c.delivered == Payloads(taken)
      invariant !c.removed ==> c.recvQueue.contents == Left(taken)
      invariant !c.removed ==> Unbroken(c.recvQueue.tail, c.recvQueue.contents + sock.input)
    {
      if c.removed {
        break;
      }
      ghost var more := c.CallbackRecvData(sock);
      ChunksDoNotMatter(taken, more);
      assert taken + more + sock.input == taken + (more + sock.input);
      if c.removed {
        assert more == [] && taken + more == taken;
      }
      taken := taken + more;
    }
    PayloadsOfFrames(packets, taken);
    BeforeIsAll(packets);
  }

  lemma NothingYet(stream: seq<byte>)
    ensures Payloads([]) == [] && Left([]) == [] && [] + stream == stream
  {
  }
}
