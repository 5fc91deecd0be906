/** What every operation keeps at one endpoint, whatever datagrams arrive. */
module KcpInvariants {
  import opened Circular
  import opened KcpState
  import opened KcpSpec
  import opened KcpWindows

  function SentSns(buf: seq<Sent>): (sns: seq<int>)
    ensures |sns| == |buf|
    ensures forall i :: 0 <= i < |buf| ==> sns[i] == buf[i].pkt.sn
  {
    seq(|buf|, i requires 0 <= i < |buf| => buf[i].pkt.sn)
  }

  function PacketSns(buf: seq<Packet>): (sns: seq<int>)
    ensures |sns| == |buf|
    ensures forall i :: 0 <= i < |buf| ==> sns[i] == buf[i].sn
  {
    seq(|buf|, i requires 0 <= i < |buf| => buf[i].sn)
  }

  ghost predicate ConfigOk(cfg: Config) {
    && 0 < cfg.mss
    && 0 < cfg.sndWnd < HALF / 2
    && WND_RCV <= cfg.rcvWnd < HALF / 2
    && cfg.fastResend < HALF
  }

  // ---------------------------------------------------------------- sender

  /** `snd_buf` increases strictly inside [snd_una, snd_nxt), starts at `snd_una`, and the
      span of unacknowledged numbers never exceeds `snd_wnd`. */
  ghost predicate SenderOk(a: Arith, sndWnd: int, s: Sender) {
    && Stored(a, s.nxt)
    && Within(a, s.una, Off(a, s.una, s.nxt), SentSns(s.buf))
    && 0 <= Off(a, s.una, s.nxt) <= sndWnd
    && s.una == (if |s.buf| > 0 then s.buf[0].pkt.sn else s.nxt)
  }

  /** Dropping segments from `snd_buf` and re-reading `snd_una` keeps the invariant, and
      moves `snd_una` forward, never past `snd_nxt`. */
  lemma ShrinkKeepsSender(a: Arith, sndWnd: int, s: Sender, i: nat, j: nat)
    requires i <= j <= |s.buf| && sndWnd < HALF
    requires SenderOk(a, sndWnd, s)
    ensures var t := Shrink(s.(buf := s.buf[..i] + s.buf[j..]));
            && SenderOk(a, sndWnd, t)
            && t.nxt == s.nxt
            && Off(a, s.una, t.una) + Off(a, t.una, t.nxt) == Off(a, s.una, s.nxt)
            && 0 <= Off(a, s.una, t.una)
  {
    var buf := s.buf[..i] + s.buf[j..];
    WithoutSlice(a, s.una, Off(a, s.una, s.nxt), SentSns(s.buf), i, j);
    assert SentSns(buf) == SentSns(s.buf)[..i] + SentSns(s.buf)[j..];
    Restart(a, s.una, s.nxt, SentSns(buf), Shrink(s.(buf := buf)).una);
  }

  lemma DropBelowIsSuffix(a: Arith, buf: seq<Sent>, una: int) returns (k: nat)
    ensures k <= |buf| && DropBelow(a, buf, una) == buf[k..]
    ensures forall i :: 0 <= i < k ==> Diff(a, una, buf[i].pkt.sn) > 0
    ensures k < |buf| ==> Diff(a, una, buf[k].pkt.sn) <= 0
  {
    if |buf| > 0 && Diff(a, una, buf[0].pkt.sn) > 0 {
      k := DropBelowIsSuffix(a, buf[1..], una);
      forall i | 0 <= i < k + 1 ensures Diff(a, una, buf[i].pkt.sn) > 0 {
        if i > 0 { assert buf[i] == buf[1..][i - 1]; }
      }
      k := k + 1;
    } else {
      k := 0;
    }
  }

  /** Cutting a slice out of the tail leaves the head. */
  lemma SliceOfTail(buf: seq<Sent>, i: nat, j: nat)
    requires |buf| > 0 && i <= j < |buf|
    ensures [buf[0]] + (buf[1..][..i] + buf[1..][j..]) == buf[..i + 1] + buf[j + 1..]
  {
    assert buf[..i + 1] == [buf[0]] + buf[1..][..i];
    assert buf[1..][j..] == buf[j + 1..];
  }

  lemma RemoveSnIsSlice(a: Arith, buf: seq<Sent>, sn: int) returns (i: nat, j: nat)
    ensures i <= j <= |buf| && RemoveSn(a, buf, sn) == buf[..i] + buf[j..]
    ensures i < j ==> j == i + 1 && buf[i].pkt.sn == sn
  {
    hide Diff;
    if |buf| > 0 && sn == buf[0].pkt.sn {
      i, j := 0, 1;
    } else if |buf| > 0 && Diff(a, sn, buf[0].pkt.sn) >= 0 {
      i, j := RemoveSnIsSlice(a, buf[1..], sn);
      SliceOfTail(buf, i, j);
      i, j := i + 1, j + 1;
    } else {
      i, j := 0, 0;
    }
  }

  lemma CountSkipsKeepsSns(a: Arith, buf: seq<Sent>, sn: int)
    ensures |CountSkips(a, buf, sn)| == |buf|
    ensures forall i :: 0 <= i < |buf| ==> CountSkips(a, buf, sn)[i].pkt == buf[i].pkt
  {
    if |buf| > 0 && Diff(a, sn, buf[0].pkt.sn) >= 0 {
      CountSkipsKeepsSns(a, buf[1..], sn);
    }
  }

  lemma ParseUnaKeepsSender(a: Arith, sndWnd: int, s: Sender, una: int)
    requires SenderOk(a, sndWnd, s) && sndWnd < HALF
    ensures var t := Shrink(s.(buf := DropBelow(a, s.buf, una)));
            SenderOk(a, sndWnd, t) && t.nxt == s.nxt && Advanced(a, s, t)
  {
    var k := DropBelowIsSuffix(a, s.buf, una);
    assert s.buf[..0] + s.buf[k..] == s.buf[k..];
    ShrinkKeepsSender(a, sndWnd, s, 0, k);
  }

  lemma ParseAckKeepsSender(a: Arith, sndWnd: int, s: Sender, sn: int)
    requires SenderOk(a, sndWnd, s) && sndWnd < HALF
    ensures var t := Shrink(ParseAck(a, s, sn));
            SenderOk(a, sndWnd, t) && t.nxt == s.nxt && Advanced(a, s, t)
  {
    hide Off;
    hide SenderOk;
    hide InFlight;
    hide RemoveSn;
    hide Shrink;
    if InFlight(a, s, sn) {
      var i, j := RemoveSnIsSlice(a, s.buf, sn);
      ShrinkKeepsSender(a, sndWnd, s, i, j);
    } else {
      assert s.buf[..0] + s.buf[0..] == s.buf;
      ShrinkKeepsSender(a, sndWnd, s, 0, 0);
    }
  }

  lemma ParseFastackKeepsSender(a: Arith, sndWnd: int, s: Sender, sn: int)
    requires SenderOk(a, sndWnd, s)
    ensures SenderOk(a, sndWnd, ParseFastack(a, s, sn))
  {
    CountSkipsKeepsSns(a, s.buf, sn);
    assert SentSns(CountSkips(a, s.buf, sn)) == SentSns(s.buf);
  }

  /** `snd_una` has moved from `s` to `t` towards the same `snd_nxt`. */
  ghost predicate Advanced(a: Arith, s: Sender, t: Sender) {
    && 0 <= Off(a, s.una, t.una)
    && Off(a, s.una, t.una) + Off(a, t.una, t.nxt) == Off(a, s.una, t.nxt)
  }

  /** An acknowledgement in flight counts one skip for exactly the segments numbered before
      it, although the loop only compares with one segment at a time and stops early. */
  lemma FastackCountsEarlier(a: Arith, sndWnd: int, s: Sender, sn: int, k: nat)
    requires SenderOk(a, sndWnd, s) && sndWnd < HALF && Stored(a, sn) && 0 <= Off(a, s.una, sn) < Off(a, s.una, s.nxt)
    requires k < |s.buf|
    ensures |CountSkips(a, s.buf, sn)| == |s.buf|
    ensures CountSkips(a, s.buf, sn)[k] ==
            if Off(a, s.una, s.buf[k].pkt.sn) < Off(a, s.una, sn)
            then s.buf[k].(fastack := U32(s.buf[k].fastack + 1)) else s.buf[k]
  {
    SkipsUpTo(a, s.una, Off(a, s.una, s.nxt), s.buf, sn, k);
  }

  /** The comparison with the first segment, in terms of distances from the base. */
  lemma FirstCompared(a: Arith, base: int, limit: int, buf: seq<Sent>, sn: int)
    requires Within(a, base, limit, SentSns(buf)) && limit < HALF && |buf| > 0
    requires Stored(a, sn) && 0 <= Off(a, base, sn) < limit
    ensures Diff(a, sn, buf[0].pkt.sn) == Off(a, base, sn) - Off(a, base, buf[0].pkt.sn)
    ensures sn == buf[0].pkt.sn <==> Off(a, base, sn) == Off(a, base, buf[0].pkt.sn)
    ensures forall k :: 0 < k < |buf| ==> Off(a, base, buf[0].pkt.sn) < Off(a, base, buf[k].pkt.sn)
    ensures Within(a, base, limit, SentSns(buf[1..]))
  {
    var sns := SentSns(buf);
    assert sns[0] == buf[0].pkt.sn;
    DiffInWindow(a, base, sn, sns[0]);
    if Off(a, base, sn) == Off(a, base, sns[0]) {
      SameOff(a, base, sn, sns[0]);
    }
    forall k | 0 < k < |buf|
      ensures Off(a, base, buf[0].pkt.sn) < Off(a, base, buf[k].pkt.sn)
    {
      assert Off(a, base, sns[0]) < Off(a, base, sns[k]);
    }
    WithoutSlice(a, base, limit, sns, 0, 1);
    assert SentSns(buf[1..]) == sns[..0] + sns[1..];
  }

  lemma {:induction false} SkipsUpTo(a: Arith, base: int, limit: int, buf: seq<Sent>, sn: int, k: nat)
    requires Within(a, base, limit, SentSns(buf)) && limit < HALF && k < |buf|
    requires Stored(a, sn) && 0 <= Off(a, base, sn) < limit
    ensures |CountSkips(a, buf, sn)| == |buf|
    ensures CountSkips(a, buf, sn)[k] ==
            if Off(a, base, buf[k].pkt.sn) < Off(a, base, sn) then
              buf[k].(fastack := U32(buf[k].fastack + 1))
            else buf[k]
    decreases |buf|
  {
    hide Within;
    hide Off;
    hide Diff;
    hide U32;
    CountSkipsKeepsSns(a, buf, sn);
    FirstCompared(a, base, limit, buf, sn);
    if k == 0 {
    } else {
      SkipsUpTo(a, base, limit, buf[1..], sn, k - 1);
    }
  }

  /** The test for room in the window, on distances from `snd_una`. */
  lemma RoomLeft(a: Arith, sndWnd: int, s: Sender, cwnd: int)
    requires SenderOk(a, sndWnd, s) && 0 <= cwnd <= sndWnd < HALF
    requires Diff(a, s.nxt, Norm(a, s.una + cwnd)) < 0
    ensures 0 <= Off(a, s.una, s.nxt) < cwnd
  {
    OffOfSum(a, s.una, cwnd);
    NormPlus(a, s.una + cwnd, 0);
    DiffInWindow(a, s.una, s.nxt, Norm(a, s.una + cwnd));
  }

  lemma {:induction false} AdmitKeepsSender(a: Arith, x: Flusher, sndWnd: int, s: Sender, cwnd: int)
    requires SenderOk(a, sndWnd, s) && 0 <= cwnd <= sndWnd < HALF
    ensures SenderOk(a, sndWnd, Admit(a, x, s, cwnd))
    ensures Admit(a, x, s, cwnd).una == s.una
    decreases |s.queue|
  {
    hide SenderOk;
    hide Diff;
    hide Norm;
    hide Off;
    var limit := Norm(a, s.una + cwnd);
    if Diff(a, s.nxt, limit) < 0 && |s.queue| > 0 {
      var n := Off(a, s.una, s.nxt);
      RoomLeft(a, sndWnd, s, cwnd);
      var f := s.queue[0];
      var p := Packet(x.cfg.conv, CMD_PUSH, f.frg, x.wnd, x.now, s.nxt, x.rcvNxt, f.data);
      var t := s.(nxt := Norm(a, s.nxt + 1), queue := s.queue[1..],
                  buf := s.buf + [Sent(p, x.now, x.rto, 0, 0)]);
      NumberedNext(a, sndWnd, s, t, n);
      AdmitKeepsSender(a, x, sndWnd, t, cwnd);
    }
  }

  /** Numbering one more segment while the window has room. */
  lemma NumberedNext(a: Arith, sndWnd: int, s: Sender, t: Sender, n: int)
    requires SenderOk(a, sndWnd, s) && n == Off(a, s.una, s.nxt) < sndWnd < HALF
    requires t.una == s.una && t.nxt == Norm(a, s.nxt + 1)
    requires |t.buf| == |s.buf| + 1 && t.buf[..|s.buf|] == s.buf && t.buf[|s.buf|].pkt.sn == s.nxt
    ensures SenderOk(a, sndWnd, t)
  {
    NextOff(a, s.una, s.nxt);
    AppendLargestWider(a, s.una, n, SentSns(s.buf), s.nxt);
    assert SentSns(t.buf) == SentSns(s.buf) + [s.nxt] by {
      forall i | 0 <= i < |s.buf|
        ensures t.buf[i] == s.buf[i]
      {
        assert t.buf[i] == t.buf[..|s.buf|][i];
      }
    }
  }

  lemma AppendLargestWider(a: Arith, base: int, n: int, sns: seq<int>, x: int)
    requires Within(a, base, n, sns) && Stored(a, x) && Off(a, base, x) == n && 0 <= n
    ensures Within(a, base, n + 1, sns + [x])
  {
  }

  lemma NextOff(a: Arith, base: int, sn: int)
    requires 0 <= Off(a, base, sn) < HALF
    ensures Off(a, base, Norm(a, sn + 1)) == Off(a, base, sn) + 1
    ensures Stored(a, Norm(a, sn + 1))
  {
    if a.Wrap32? {
      var i, j := (sn - base) / MODULUS, (sn + 1) / MODULUS;
      assert U32(sn + 1) - base == Off(a, base, sn) + 1 + MODULUS * (i - j);
      U32Shift(Off(a, base, sn) + 1, i - j);
    }
  }

  // ---------------------------------------------------------------- receiver

  /** `rcv_queue` holds consecutive numbers ending just below `rcv_nxt`. */
  ghost predicate QueueOk(a: Arith, r: Receiver) {
    forall i :: 0 <= i < |r.queue| ==> r.queue[i].sn == Norm(a, r.nxt - |r.queue| + i)
  }

  /** `rcv_buf` increases strictly inside the receive window, and the queue fits it. */
  ghost predicate ReceiverOk(a: Arith, rcvWnd: int, r: Receiver) {
    && Within(a, r.nxt, rcvWnd, PacketSns(r.buf))
    && QueueOk(a, r)
    && |r.queue| <= rcvWnd
  }

  /** Nothing deliverable is held back in `rcv_buf`. */
  ghost predicate Settled(rcvWnd: int, r: Receiver) {
    |r.buf| > 0 && r.buf[0].sn == r.nxt ==> |r.queue| >= rcvWnd
  }

  /** Insertion adds the new number and nothing else. */
  lemma {:induction false} InsertContents(a: Arith, buf: seq<Packet>, p: Packet)
    ensures forall q :: q in Insert(a, buf, p) ==> q in buf || q == p
    ensures forall q :: q in buf ==> q in Insert(a, buf, p)
    ensures exists q :: q in Insert(a, buf, p) && q.sn == p.sn
    decreases |buf|
  {
    if |buf| == 0 {
      assert p in Insert(a, buf, p);
    } else {
      var init, last := buf[..|buf| - 1], buf[|buf| - 1];
      assert buf == init + [last];
      if last.sn == p.sn {
        assert last in buf;
      } else if Diff(a, p.sn, last.sn) > 0 {
        assert p in buf + [p];
      } else {
        InsertContents(a, init, p);
        var q :| q in Insert(a, init, p) && q.sn == p.sn;
        assert q in Insert(a, buf, p);
      }
    }
  }

  /** A number beyond the last goes behind it. */
  lemma AppendedKeepsOrder(a: Arith, base: int, limit: int, buf: seq<Packet>, p: Packet)
    requires Within(a, base, limit, PacketSns(buf)) && limit < HALF && |buf| > 0
    requires Stored(a, p.sn) && Off(a, base, buf[|buf| - 1].sn) < Off(a, base, p.sn) < limit
    ensures Within(a, base, limit, PacketSns(buf + [p]))
  {
    hide Off;
    var sns := PacketSns(buf);
    forall i | 0 <= i < |buf| ensures Off(a, base, sns[i]) < Off(a, base, p.sn) {
      assert i < |buf| - 1 ==> Off(a, base, sns[i]) < Off(a, base, sns[|buf| - 1]);
    }
    AppendLargest(a, base, limit, sns, p.sn);
    assert PacketSns(buf + [p]) == sns + [p.sn];
  }

  /** What is inserted before the last number keeps everything before it. */
  lemma InsertedStaysBelow(a: Arith, base: int, limit: int, buf: seq<Packet>, ins: seq<Packet>, p: Packet)
    requires Within(a, base, limit, PacketSns(buf)) && |buf| > 0
    requires Off(a, base, p.sn) < Off(a, base, buf[|buf| - 1].sn)
    requires forall q :: q in ins ==> q in buf[..|buf| - 1] || q == p
    ensures forall i :: 0 <= i < |ins| ==> Off(a, base, PacketSns(ins)[i]) < Off(a, base, buf[|buf| - 1].sn)
  {
    hide Off;
    var init, sns := buf[..|buf| - 1], PacketSns(buf);
    forall i | 0 <= i < |ins| ensures Off(a, base, PacketSns(ins)[i]) < Off(a, base, buf[|buf| - 1].sn) {
      assert ins[i] in ins;
      if ins[i] in init {
        var k :| 0 <= k < |init| && init[k] == ins[i];
        assert Off(a, base, sns[k]) < Off(a, base, sns[|init|]);
      }
    }
  }

  lemma {:induction false} InsertKeepsOrder(a: Arith, base: int, limit: int, buf: seq<Packet>, p: Packet)
    requires Within(a, base, limit, PacketSns(buf)) && limit < HALF
    requires Stored(a, p.sn) && 0 <= Off(a, base, p.sn) < limit
    ensures Within(a, base, limit, PacketSns(Insert(a, buf, p)))
    decreases |buf|
  {
    hide PacketSns;
    if |buf| > 0 {
      var init, last := buf[..|buf| - 1], buf[|buf| - 1];
      var sns := PacketSns(buf);
      assert sns[|init|] == last.sn;
      DiffInWindow(a, base, p.sn, last.sn);
      if Off(a, base, p.sn) == Off(a, base, last.sn) { SameOff(a, base, p.sn, last.sn); }
      if last.sn != p.sn && Diff(a, p.sn, last.sn) > 0 {
        AppendedKeepsOrder(a, base, limit, buf, p);
      } else if last.sn != p.sn {
        WithoutSlice(a, base, limit, sns, |init|, |buf|);
        assert PacketSns(init) == sns[..|init|] + sns[|buf|..];
        InsertKeepsOrder(a, base, limit, init, p);
        var ins := Insert(a, init, p);
        InsertContents(a, init, p);
        InsertedStaysBelow(a, base, limit, buf, ins, p);
        AppendLargest(a, base, limit, PacketSns(ins), last.sn);
        assert PacketSns(ins + [last]) == PacketSns(ins) + [last.sn];
      }
    } else {
      assert PacketSns([p]) == [p.sn];
    }
  }

  lemma {:induction false} MoveReadyKeepsReceiver(a: Arith, rcvWnd: int, r: Receiver)
    requires ReceiverOk(a, rcvWnd, r) && 0 < rcvWnd < HALF
    ensures ReceiverOk(a, rcvWnd, MoveReady(a, rcvWnd, r))
    ensures Settled(rcvWnd, MoveReady(a, rcvWnd, r))
    decreases |r.buf|
  {
    if |r.buf| > 0 && r.buf[0].sn == r.nxt && |r.queue| < rcvWnd {
      var t := r.(nxt := Norm(a, r.nxt + 1), queue := r.queue + [r.buf[0]], buf := r.buf[1..]);
      MoveOneKeepsReceiver(a, rcvWnd, r, t);
      MoveReadyKeepsReceiver(a, rcvWnd, t);
    }
  }

  lemma MoveOneKeepsReceiver(a: Arith, rcvWnd: int, r: Receiver, t: Receiver)
    requires ReceiverOk(a, rcvWnd, r) && 0 < rcvWnd < HALF
    requires |r.buf| > 0 && r.buf[0].sn == r.nxt && |r.queue| < rcvWnd
    requires t == r.(nxt := Norm(a, r.nxt + 1), queue := r.queue + [r.buf[0]], buf := r.buf[1..])
    ensures ReceiverOk(a, rcvWnd, t)
  {
    hide QueueOk;
    hide PacketSns;
    var sns := PacketSns(r.buf);
    assert PacketSns(t.buf) == sns[1..];
    MoveOneKeepsQueue(a, r, t);
    assert Off(a, r.nxt, sns[0]) == 0;
    assert Within(a, r.nxt, rcvWnd, sns[1..]);
    Rebase(a, r.nxt, rcvWnd, sns[1..], 1);
  }

  lemma MoveOneKeepsQueue(a: Arith, r: Receiver, t: Receiver)
    requires QueueOk(a, r) && |r.buf| > 0 && r.buf[0].sn == r.nxt
    requires t == r.(nxt := Norm(a, r.nxt + 1), queue := r.queue + [r.buf[0]], buf := r.buf[1..])
    requires Norm(a, r.nxt) == r.nxt
    ensures QueueOk(a, t)
  {
    forall i | 0 <= i < |t.queue| ensures t.queue[i].sn == Norm(a, t.nxt - |t.queue| + i) {
      NormPlus(a, r.nxt + 1, i - |t.queue|);
      if i == |r.queue| { assert t.queue[i] == r.buf[0]; } else { assert t.queue[i] == r.queue[i]; }
    }
  }

  lemma ParseDataKeepsReceiver(a: Arith, rcvWnd: int, r: Receiver, p: Packet)
    requires ReceiverOk(a, rcvWnd, r) && 0 < rcvWnd < HALF && Stored(a, p.sn)
    requires Settled(rcvWnd, r)
    ensures ReceiverOk(a, rcvWnd, ParseData(a, rcvWnd, r, p))
    ensures Settled(rcvWnd, ParseData(a, rcvWnd, r, p))
  {
    hide Insert;
    hide MoveReady;
    var limit := Norm(a, r.nxt + rcvWnd);
    if Diff(a, p.sn, limit) < 0 && Diff(a, p.sn, r.nxt) >= 0 {
      InReceiveWindow(a, rcvWnd, r.nxt, p.sn);
      InsertKeepsOrder(a, r.nxt, rcvWnd, r.buf, p);
      MoveReadyKeepsReceiver(a, rcvWnd, r.(buf := Insert(a, r.buf, p)));
    }
  }

  /** The two window tests of `ikcp_parse_data` hold exactly for members of the window. */
  lemma InReceiveWindow(a: Arith, rcvWnd: int, nxt: int, sn: int)
    requires Stored(a, nxt) && Stored(a, sn) && 0 < rcvWnd < HALF
    ensures (Diff(a, sn, Norm(a, nxt + rcvWnd)) < 0 && Diff(a, sn, nxt) >= 0)
       <==> 0 <= Off(a, nxt, sn) < rcvWnd
  {
    var limit := Norm(a, nxt + rcvWnd);
    OffOfSum(a, nxt, rcvWnd);
    NormPlus(a, nxt + rcvWnd, 0);
    assert Off(a, nxt, nxt) == 0;
    if a.Unbounded? || Off(a, nxt, sn) < HALF {
      DiffInWindow(a, nxt, sn, nxt);
      DiffInWindow(a, nxt, sn, limit);
    }
  }

  lemma DequeueKeepsReceiver(a: Arith, rcvWnd: int, r: Receiver, n: nat)
    requires ReceiverOk(a, rcvWnd, r) && n <= |r.queue|
    ensures ReceiverOk(a, rcvWnd, r.(queue := r.queue[n..]))
  {
    var t := r.(queue := r.queue[n..]);
    forall i | 0 <= i < |t.queue| ensures t.queue[i].sn == Norm(a, t.nxt - |t.queue| + i) {
      assert t.queue[i] == r.queue[n + i];
    }
  }

  lemma RecvKeepsReceiver(a: Arith, e: Endpoint, len: int)
    requires ReceiverOk(a, e.cfg.rcvWnd, e.rcv) && 0 < e.cfg.rcvWnd < HALF
    ensures var t := Recv(a, e, len).ep;
            && ReceiverOk(a, e.cfg.rcvWnd, t.rcv)
            && (Recv(a, e, len).ret >= 0 || Settled(e.cfg.rcvWnd, e.rcv) ==> Settled(e.cfg.rcvWnd, t.rcv))
            && t.cfg == e.cfg && t.snd == e.snd
  {
    var q := e.rcv.queue;
    if Recv(a, e, len).ret >= 0 {
      var n := if len < 0 then 0 else MergeCount(q);
      DequeueKeepsReceiver(a, e.cfg.rcvWnd, e.rcv, n);
      assert q[0..] == q;
      MoveReadyKeepsReceiver(a, e.cfg.rcvWnd, e.rcv.(queue := q[n..]));
    }
  }

  // ---------------------------------------------------------------- endpoint

  /** The invariant of one endpoint. */
  ghost predicate EndpointOk(a: Arith, e: Endpoint) {
    && ConfigOk(e.cfg)
    && SenderOk(a, e.cfg.sndWnd, e.snd)
    && ReceiverOk(a, e.cfg.rcvWnd, e.rcv)
    && Settled(e.cfg.rcvWnd, e.rcv)
    && 0 <= e.cong.cwnd && 0 <= e.cong.rmtWnd
  }

  /** Fields read from a datagram are unsigned words. */
  ghost predicate Readable(a: Arith, p: Packet) {
    Stored(a, p.sn) && 0 <= p.wnd
  }

  lemma AckKeepsSender(a: Arith, sndWnd: int, s: Sender, una: int, sn: int)
    requires SenderOk(a, sndWnd, s) && sndWnd < HALF
    ensures var s1 := Shrink(s.(buf := DropBelow(a, s.buf, una)));
            var t := Shrink(ParseAck(a, s1, sn));
            SenderOk(a, sndWnd, t) && t.nxt == s.nxt && Advanced(a, s, t)
  {
    var s1 := Shrink(s.(buf := DropBelow(a, s.buf, una)));
    ParseUnaKeepsSender(a, sndWnd, s, una);
    ParseAckKeepsSender(a, sndWnd, s1, sn);
    AdvanceTwice(a, s, s1, Shrink(ParseAck(a, s1, sn)));
  }

  lemma OnPushKeepsReceiver(a: Arith, rcvWnd: int, r: Receiver, p: Packet)
    requires ReceiverOk(a, rcvWnd, r) && Settled(rcvWnd, r) && 0 < rcvWnd < HALF && Stored(a, p.sn)
    ensures ReceiverOk(a, rcvWnd, OnPush(a, rcvWnd, r, p)) && Settled(rcvWnd, OnPush(a, rcvWnd, r, p))
  {
    ParseDataKeepsReceiver(a, rcvWnd, r.(acks := r.acks + [Ack(p.sn, p.ts)]), p);
  }

  lemma OnPacketKeepsEndpoint(a: Arith, st: InState, p: Packet)
    requires EndpointOk(a, st.ep) && Readable(a, p)
    ensures EndpointOk(a, OnPacket(a, st, p).ep)
    ensures Moved(a, st.ep, OnPacket(a, st, p).ep)
  {
    hide DropBelow;
    hide RemoveSn;
    hide Insert;
    hide MoveReady;
    ParseUnaKeepsSender(a, st.ep.cfg.sndWnd, st.ep.snd, p.una);
    if p.cmd == CMD_ACK {
      AckKeepsSender(a, st.ep.cfg.sndWnd, st.ep.snd, p.una, p.sn);
    } else if p.cmd == CMD_PUSH {
      OnPushKeepsReceiver(a, st.ep.cfg.rcvWnd, st.ep.rcv, p);
    }
  }

  /** `snd_una` never moves back, and `snd_nxt` stays where it is. */
  ghost predicate Moved(a: Arith, e: Endpoint, f: Endpoint) {
    f.cfg == e.cfg && f.snd.nxt == e.snd.nxt && Advanced(a, e.snd, f.snd)
  }

  lemma AdvanceTwice(a: Arith, s: Sender, t: Sender, u: Sender)
    requires Stored(a, s.una) && Stored(a, t.una) && Stored(a, u.una)
    requires s.nxt == t.nxt == u.nxt && Advanced(a, s, t) && Advanced(a, t, u)
    requires 0 <= Off(a, u.una, u.nxt) && Off(a, s.una, s.nxt) < HALF
    ensures Advanced(a, s, u)
  {
    if a.Wrap32? {
      var i, j := (t.una - s.una) / MODULUS, (u.una - t.una) / MODULUS;
      assert u.una - s.una == Off(a, s.una, t.una) + Off(a, t.una, u.una) + MODULUS * (i + j);
      U32Shift(Off(a, s.una, t.una) + Off(a, t.una, u.una), i + j);
    }
  }

  lemma {:induction false} OnPacketsKeepEndpoint(a: Arith, st: InState, ps: seq<Packet>)
    requires EndpointOk(a, st.ep) && (forall p :: p in ps ==> Readable(a, p))
    ensures EndpointOk(a, OnPackets(a, st, ps).ep)
    ensures Moved(a, st.ep, OnPackets(a, st, ps).ep)
    decreases |ps|
  {
    if |ps| == 0 {
      assert Off(a, st.ep.snd.una, st.ep.snd.una) == 0;
    } else {
      var st1 := OnPacket(a, st, ps[0]);
      OnPacketKeepsEndpoint(a, st, ps[0]);
      OnPacketsKeepEndpoint(a, st1, ps[1..]);
      AdvanceTwice(a, st.ep.snd, st1.ep.snd, OnPackets(a, st, ps).ep.snd);
    }
  }

  lemma GrowCwndKeepsSign(mss: int, c: Cong)
    requires 0 < mss && 0 <= c.cwnd && 0 <= c.rmtWnd
    ensures 0 <= GrowCwnd(mss, c).cwnd && GrowCwnd(mss, c).rmtWnd == c.rmtWnd
  {
  }

  lemma AdjustCwndKeepsSign(mss: int, c: Cong, resent: int, inflight: int, cwnd: int, change: bool, lost: bool)
    ensures var c1 := AdjustCwnd(mss, c, resent, inflight, cwnd, change, lost);
            1 <= c1.cwnd && c1.rmtWnd == c.rmtWnd
  {
  }

  /** Every datagram, accepted or rejected half-way, keeps the invariant; it never moves
      `snd_una` back and never touches `snd_nxt`. */
  lemma InputKeepsEndpoint(a: Arith, e: Endpoint, ps: seq<Packet>, ok: bool)
    requires EndpointOk(a, e) && (forall p :: p in ps ==> Readable(a, p))
    ensures EndpointOk(a, Input(a, e, ps, ok))
    ensures Moved(a, e, Input(a, e, ps, ok))
  {
    var st := OnPackets(a, InState(e, false, 0), ps);
    OnPacketsKeepEndpoint(a, InState(e, false, 0), ps);
    if ok && st.acked {
      ParseFastackKeepsSender(a, e.cfg.sndWnd, st.ep.snd, st.maxAck);
    }
    GrowCwndKeepsSign(e.cfg.mss, st.ep.cong);
  }

  lemma SendKeepsEndpoint(a: Arith, e: Endpoint, buffer: seq<byte>, len: int)
    requires EndpointOk(a, e) && len <= |buffer|
    ensures EndpointOk(a, e.(snd := Send(e.cfg.mss, e.snd, buffer, len).0))
  {
  }

  lemma RecvKeepsEndpoint(a: Arith, e: Endpoint, len: int)
    requires EndpointOk(a, e)
    ensures EndpointOk(a, Recv(a, e, len).ep)
  {
    RecvKeepsReceiver(a, e, len);
  }

  lemma VisitKeepsNumber(x: Flusher, buf: seq<Sent>)
    ensures SentSns(Segments(VisitAll(x, buf))) == SentSns(buf)
  {
  }

  lemma SameNumbersKeepSender(a: Arith, sndWnd: int, s: Sender, buf: seq<Sent>)
    requires SenderOk(a, sndWnd, s) && SentSns(buf) == SentSns(s.buf)
    ensures SenderOk(a, sndWnd, s.(buf := buf))
  {
    if |buf| > 0 {
      assert buf[0].pkt.sn == SentSns(buf)[0] == SentSns(s.buf)[0];
    }
  }

  lemma FlushKeepsSender(a: Arith, e: Endpoint)
    requires EndpointOk(a, e)
    ensures SenderOk(a, e.cfg.sndWnd, Flushed(a, e).snd)
    ensures Flushed(a, e).snd.una == e.snd.una
  {
    var x, cwnd := FlusherOf(e), Window(e);
    AdmitKeepsSender(a, x, e.cfg.sndWnd, e.snd, cwnd);
    var s := Admit(a, x, e.snd, cwnd);
    VisitKeepsNumber(x, s.buf);
    SameNumbersKeepSender(a, e.cfg.sndWnd, s, Segments(VisitAll(x, s.buf)));
  }

  lemma FlushKeepsEndpoint(a: Arith, e: Endpoint)
    requires EndpointOk(a, e)
    ensures EndpointOk(a, Flush(a, e).0)
    ensures Flush(a, e).0.snd.una == e.snd.una
    ensures Flush(a, e).0.rcv == e.rcv.(acks := if e.clock.updated then [] else e.rcv.acks)
    ensures Flush(a, e).0.cfg == e.cfg
  {
    if e.clock.updated {
      FlushKeepsSender(a, e);
      var s, vs := Admit(a, FlusherOf(e), e.snd, Window(e)), FlushVisits(a, e);
      AdjustCwndKeepsSign(e.cfg.mss, e.cong, FlusherOf(e).Resent(), Norm(a, s.nxt - s.una), Window(e),
                          AnyFast(vs), Timeouts(vs) > 0);
    }
  }

  lemma UpdateKeepsEndpoint(a: Arith, e: Endpoint, current: int)
    requires EndpointOk(a, e)
    ensures EndpointOk(a, Update(a, e, current).0)
    ensures Update(a, e, current).0.snd.una == e.snd.una
    ensures Update(a, e, current).0.rcv.nxt == e.rcv.nxt
    ensures Update(a, e, current).0.cfg == e.cfg
  {
    FlushKeepsEndpoint(a, e.(clock := Tick(e.cfg.interval, e.clock, current).0));
  }

  /** The lists are bounded by the configured windows. */
  lemma ListsFitWindows(a: Arith, e: Endpoint)
    requires EndpointOk(a, e)
    ensures |e.snd.buf| <= e.cfg.sndWnd
    ensures |e.rcv.buf| <= e.cfg.rcvWnd && |e.rcv.queue| <= e.cfg.rcvWnd
  {
    NoLongerThanWindow(a, e.snd.una, Off(a, e.snd.una, e.snd.nxt), SentSns(e.snd.buf));
    NoLongerThanWindow(a, e.rcv.nxt, e.cfg.rcvWnd, PacketSns(e.rcv.buf));
  }
}
