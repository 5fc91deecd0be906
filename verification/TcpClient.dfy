/** The client's socket loops: partial receives and sends, and packets over them. */
module TcpClient {
  import opened Bytes
  import opened TcpFraming

  /** A connected stream socket: what the peer has sent and is not yet received, what has been
      sent, and what each call has returned. Each call moves as many bytes as it likes, or
      fails. */
  class Socket {
    var input: seq<byte>
    var output: seq<byte>
    var results: seq<int>

    constructor (incoming: seq<byte>)
      ensures input == incoming && output == [] && results == []
    {
      input, output, results := incoming, [], [];
    }

    /** `recv`: a count from 1 to `len`, or an error or the end. */
    method Recv(len: nat) returns (n: int, data: seq<byte>)
      modifies this`input, this`results
      ensures results == old(results) + [n]
      ensures n <= 0 ==> input == old(input) && data == []
      ensures n > 0 ==> n <= len && n <= |old(input)| && data == old(input)[..n] && input == old(input)[n..]
    {
      n :| n <= 0 || (n <= len && n <= |input|);
      results := results + [n];
      data := if n <= 0 then [] else input[..n];
      input := input[|data|..];
    }

    /** `send`. */
    method Send(data: seq<byte>) returns (n: int)
      modifies this`output, this`results
      ensures results == old(results) + [n]
      ensures n <= 0 ==> output == old(output)
      ensures n > 0 ==> n <= |data| && output == old(output) + data[..n]
    {
      n :| n <= |data|;
      results := results + [n];
      if n > 0 {
        output := output + data[..n];
      }
    }
  }

  /** Between two states of a socket every call has moved something. */
  predicate AllMoved(before: seq<int>, after: seq<int>) {
    before <= after && forall i :: |before| <= i < |after| ==> after[i] > 0
  }

  /** The last call, and no other in between, has failed or found the end. */
  predicate LastFailed(before: seq<int>, after: seq<int>) {
    |before| < |after| && after[|after| - 1] <= 0 && AllMoved(before, after[..|after| - 1])
  }

  lemma MovedThenFailed(a: seq<int>, b: seq<int>, c: seq<int>)
    requires AllMoved(a, b) && LastFailed(b, c)
    ensures LastFailed(a, c)
  {
    var d := c[..|c| - 1];
    assert a <= d;
    forall i | |a| <= i < |d| ensures d[i] > 0 {
      if i < |b| {
        assert d[i] == b[i];
      }
    }
  }

  lemma MovedTwice(a: seq<int>, b: seq<int>, c: seq<int>)
    requires AllMoved(a, b) && AllMoved(b, c)
    ensures AllMoved(a, c)
  {
    forall i | |a| <= i < |c| ensures c[i] > 0 {
      if i < |b| {
        assert c[i] == b[i];
      }
    }
  }

  /** `_tcp_recv_all`: the next `len` bytes of the stream; or, as soon as and only if a call
      fails, a prefix of them and an error. */
  method RecvAll(sock: Socket, buf: array<byte>, len: nat) returns (ret: int)
    requires len <= buf.Length
    modifies sock`input, sock`results, buf
    ensures ret == 0 || ret == -1
    ensures ret == 0 ==> AllMoved(old(sock.results), sock.results)
    ensures ret == -1 ==> LastFailed(old(sock.results), sock.results)
    ensures ret == 0 ==>
              len <= |old(sock.input)| && buf[..len] == old(sock.input)[..len] && sock.input == old(sock.input)[len..]
    ensures ret == -1 ==> exists k :: 0 <= k < len && k <= |old(sock.input)| && sock.input == old(sock.input)[k..]
  {
    var sum: nat, left: nat := 0, len;
    ghost var all := sock.input;
    while left > 0
      invariant sum + left == len && sum <= |all| && sock.input == all[sum..]
      invariant buf[..sum] == all[..sum]
      invariant AllMoved(old(sock.results), sock.results)
    {
      ghost var before := sock.results;
      var n, data := sock.Recv(left);
      assert sock.results[..|before|] == before;
      if n <= 0 {
        return -1;
      }
      forall k | 0 <= k < n {
        buf[sum + k] := data[k];
      }
      assert all[sum..][n..] == all[sum + n..] && all[sum..][..n] == all[sum..sum + n];
      assert all[..sum + n] == all[..sum] + all[sum..sum + n];
      sum, left := sum + n, left - n;
    }
    return 0;
  }

  /** Less than one frame of the stream has been taken. */
  ghost predicate CutShort(before: seq<byte>, after: seq<byte>) {
    exists k :: && 0 <= k <= |before| && after == before[k..]
                && (k < 4 || k < 4 + FromBigEndian(before[..4]))
  }

  class Receiver {
    const buf: array<byte>
    /** What the callback has been given. */
    var delivered: seq<seq<byte>>

    constructor ()
      ensures buf.Length == BUFLEN && fresh(buf) && delivered == []
    {
      buf := new byte[BUFLEN](_ => 0);
      delivered := [];
    }

    /** `_tcp_recv_pkt`; -2 stands for the exit on a packet that is too big. */
    method RecvPkt(sock: Socket) returns (ret: int)
      requires buf.Length == BUFLEN
      modifies sock`input, sock`results, buf, `delivered
      ensures ret == -1 ==>
                && LastFailed(old(sock.results), sock.results)
                && CutShort(old(sock.input), sock.input)
      ensures ret != -1 ==> AllMoved(old(sock.results), sock.results)
      ensures ret == 0 ==>
                && 4 <= |old(sock.input)|
                && var len := FromBigEndian(old(sock.input)[..4]);
                && len <= BUFLEN && 4 + len <= |old(sock.input)| && sock.input == old(sock.input)[4 + len..]
                && delivered == if len == 0 then old(delivered) else old(delivered) + [old(sock.input)[4..4 + len]]
      ensures ret == -1 ==> delivered == old(delivered)
      ensures ret == -2 ==>
                |old(sock.input)| >= 4 && FromBigEndian(old(sock.input)[..4]) > BUFLEN && delivered == old(delivered)
      ensures ret in {0, -1, -2}
    {
      ghost var all := sock.input;
      ret := RecvAll(sock, buf, 4);
      if ret == -1 {
        return -1;
      }
      ghost var between := sock.results;
      var len := FromBigEndian(buf[..4]);
      if len > BUFLEN {
        return -2;
      }
      if len > 0 {
        ret := RecvAll(sock, buf, len);
        if ret == -1 {
          MovedThenFailed(old(sock.results), between, sock.results);
          ghost var k :| 0 <= k < len && k <= |all[4..]| && sock.input == all[4..][k..];
          assert sock.input == all[4 + k..];
          return -1;
        }
        MovedTwice(old(sock.results), between, sock.results);
        assert all[4..][..len] == all[4..4 + len];
        delivered := delivered + [buf[..len]];
      }
      return 0;
    }

    /** `_recv_thread`: it stops when, and only when, a call on the connection fails. As long as
        the stream consists of frames, what the callback gets are the packets in them; if
        nothing of a stream of whole frames is left, it has got all that are not empty. */
    method RecvThread(sock: Socket, ghost packets: seq<seq<byte>>)
      requires buf.Length == BUFLEN && delivered == []
      requires Sizes(packets) && sock.input <= Frames(packets)
      modifies sock`input, sock`results, buf, `delivered
      ensures delivered <= NonEmpty(packets)
      ensures LastFailed(old(sock.results), sock.results)
      ensures old(sock.input) == Frames(packets) && sock.input == [] ==> delivered == NonEmpty(packets)
    {
      hide NonEmpty;
      hide Frames;
      hide FromBigEndian;
      hide Sizes;
      ghost var f := 0;
      NothingDone(packets, sock.input);
      while true
        invariant f <= |packets| && delivered == NonEmpty(packets[..f])
        invariant Sizes(packets[..f]) && Frames(packets[..f]) + sock.input <= Frames(packets)
        invariant |Frames(packets[..f])| + |sock.input| == |old(sock.input)|
        invariant AllMoved(old(sock.results), sock.results)
        decreases |sock.input|
      {
        ghost var all, results := sock.input, sock.results;
        var ret := RecvPkt(sock);
        if |all| >= 4 {
          FirstFrame(packets, f, all);
        }
        if ret != 0 {
          MovedThenFailed(old(sock.results), results, sock.results);
          if |old(sock.input)| == |Frames(packets)| && sock.input == [] {
            AtTheEnd(packets, f, all, sock.input);
          }
          break;
        }
        MovedTwice(old(sock.results), results, sock.results);
        FrameDone(packets, f, all);
        FramesLonger(packets, f);
        f := f + 1;
      }
      PrefixOf(packets, f);
    }
  }

  lemma FramesLonger(packets: seq<seq<byte>>, f: nat)
    requires Sizes(packets) && f < |packets|
    ensures Sizes(packets[..f]) && Sizes(packets[..f + 1])
    ensures |Frames(packets[..f + 1])| == |Frames(packets[..f])| + 4 + |packets[f]|
  {
    hide Frames;
    FramePiece(packets, f);
  }

  /** A read cut short that leaves nothing of whole frames was at their end. */
  lemma AtTheEnd(packets: seq<seq<byte>>, f: nat, all: seq<byte>, left: seq<byte>)
    requires Sizes(packets) && f <= |packets| && Sizes(packets[..f])
    requires Frames(packets[..f]) + all <= Frames(packets)
    requires |Frames(packets[..f])| + |all| == |Frames(packets)| && CutShort(all, left) && left == []
    ensures packets[..f] == packets
  {
    hide Frames;
    hide FromBigEndian;
    if f < |packets| {
      FramePiece(packets, f);
      PrefixOf(packets, f + 1);
      assert |Frames(packets[..f + 1])| <= |Frames(packets)|;
      assert |all| >= 4 + |packets[f]|;
      FirstFrame(packets, f, all);
    }
  }

  /** The bytes at hand start with the next frame, as far as they go. */
  lemma NothingDone(packets: seq<seq<byte>>, input: seq<byte>)
    requires Sizes(packets) && input <= Frames(packets)
    ensures NonEmpty(packets[..0]) == [] && Sizes(packets[..0])
    ensures |Frames(packets[..0])| == 0 && Frames(packets[..0]) + input <= Frames(packets)
  {
    assert packets[..0] == [];
    assert Frames([]) + input == input;
  }

  lemma FirstFrame(packets: seq<seq<byte>>, f: nat, all: seq<byte>)
    requires Sizes(packets) && f <= |packets| && Sizes(packets[..f]) && |all| >= 4
    requires Frames(packets[..f]) + all <= Frames(packets)
    ensures f < |packets| && |packets[f]| <= BUFLEN && FromBigEndian(all[..4]) == |packets[f]|
    ensures 4 + |packets[f]| <= |all| ==> all[4..4 + |packets[f]|] == packets[f]
  {
    hide Frames;
    hide NonEmpty;
    hide BigEndian;
    hide FromBigEndian;
    assert packets[..|packets|] == packets;
    assert f < |packets|;
    FrameNext(packets, f);
    SamePrefix(Frames(packets[..f]), all, Frame(packets[f]), Frames(packets));
    assert all == all[..4] + all[4..];
    LengthKnown(packets[f], all[..4], all[4..]);
    if 4 + |packets[f]| <= |all| {
      assert Frame(packets[f])[4..] == packets[f];
      assert all[..4 + |packets[f]|] == Frame(packets[f]);
      assert all[4..4 + |packets[f]|] == all[..4 + |packets[f]|][4..];
    }
  }

  lemma FrameDone(packets: seq<seq<byte>>, f: nat, all: seq<byte>)
    requires Sizes(packets) && f < |packets| && Sizes(packets[..f]) && |packets[f]| <= BUFLEN
    requires Frames(packets[..f]) + all <= Frames(packets) && 4 + |packets[f]| <= |all|
    ensures Sizes(packets[..f + 1]) && Frames(packets[..f + 1]) + all[4 + |packets[f]|..] <= Frames(packets)
    ensures NonEmpty(packets[..f + 1]) ==
            if packets[f] == [] then NonEmpty(packets[..f]) else NonEmpty(packets[..f]) + [packets[f]]
  {
    hide Frames;
    hide NonEmpty;
    hide BigEndian;
    FrameNext(packets, f);
    FramePiece(packets, f);
    SamePrefix(Frames(packets[..f]), all, Frame(packets[f]), Frames(packets));
    MovePrefix(Frames(packets[..f]), Frame(packets[f]), all, Frames(packets));
  }

  lemma FramePiece(packets: seq<seq<byte>>, f: nat)
    requires Sizes(packets) && f < |packets|
    ensures Sizes(packets[..f]) && Sizes(packets[..f + 1]) && |packets[f]| <= BUFLEN
    ensures Frames(packets[..f + 1]) == Frames(packets[..f]) + Frame(packets[f])
  {
    hide Frames;
    hide NonEmpty;
    hide BigEndian;
    PrefixOf(packets, f);
    assert packets[f] in packets;
    FramesSnoc(packets[..f], packets[f]);
    assert packets[..f + 1] == packets[..f] + [packets[f]];
  }

  lemma MovePrefix(done: seq<byte>, frame: seq<byte>, all: seq<byte>, whole: seq<byte>)
    requires frame <= all && done + all <= whole
    ensures done + frame + all[|frame|..] <= whole
  {
    assert done + frame + all[|frame|..] == done + all;
  }

  /** `_tcp_send_all`: all of the data and its count; or, as soon as and only if a call fails,
      a prefix and -1. */
  method SendAll(sock: Socket, data: seq<byte>) returns (ret: int)
    modifies sock`output, sock`results
    ensures ret == |data| || ret == -1
    ensures ret == |data| ==> AllMoved(old(sock.results), sock.results)
    ensures ret == -1 ==> LastFailed(old(sock.results), sock.results)
    ensures ret == |data| ==> sock.output == old(sock.output) + data
    ensures ret == -1 ==> exists k :: 0 <= k <= |data| && sock.output == old(sock.output) + data[..k]
  {
    var sum: nat, left: nat := 0, |data|;
    ghost var before := sock.output;
    while left > 0
      invariant sum + left == |data| && sock.output == before + data[..sum]
      invariant AllMoved(old(sock.results), sock.results)
    {
      ghost var results := sock.results;
      var n := sock.Send(data[sum..]);
      assert sock.results[..|results|] == results;
      if n <= 0 {
        return -1;
      }
      assert data[..sum + n] == data[..sum] + data[sum..][..n];
      sum, left := sum + n, left - n;
    }
    assert data[..sum] == data;
    return sum;
  }

  /** `_tcp_send_pkt`. */
  method SendPkt(sock: Socket, data: seq<byte>) returns (ret: int)
    requires |data| < 0x1_0000_0000
    modifies sock`output, sock`results
    ensures ret == 0 || ret == -1
    ensures ret == 0 ==> AllMoved(old(sock.results), sock.results)
    ensures ret == -1 ==> LastFailed(old(sock.results), sock.results)
    ensures ret == 0 ==> sock.output == old(sock.output) + BigEndian(|data|) + data
  {
    ret := SendAll(sock, BigEndian(|data|));
    if ret != 4 {
      return -1;
    }
    ghost var between := sock.results;
    ret := SendAll(sock, data);
    if ret != |data| {
      MovedThenFailed(old(sock.results), between, sock.results);
      return -1;
    }
    MovedTwice(old(sock.results), between, sock.results);
    return 0;
  }
}
