/** Scheduling: what `ikcp_check` promises about `ikcp_update`, and what a flush leaves
    scheduled. */
module KcpTimers {
  import opened Circular
  import opened KcpState
  import opened KcpSpec

  /** How long after `current` the value returned by `ikcp_check` lies. */
  function Delay(e: Endpoint, current: int): int {
    TimeDiff(Check(e, current), current)
  }

  lemma {:induction false} SoonestBelowAll(buf: seq<Sent>, current: int, i: nat)
    requires i < |buf|
    ensures Soonest(buf, current) <= TimeDiff(buf[i].resendts, current)
  {
    if i >= |buf| - 1 {
    } else {
      SoonestBelowAll(buf[..|buf| - 1], current, i);
    }
  }

  lemma {:induction false} SoonestIsReached(buf: seq<Sent>, current: int)
    ensures Soonest(buf, current) == 0x7fff_ffff
         || exists i :: 0 <= i < |buf| && Soonest(buf, current) == TimeDiff(buf[i].resendts, current)
  {
    if |buf| == 0 {
    } else {
      SoonestIsReached(buf[..|buf| - 1], current);
      if Soonest(buf, current) != 0x7fff_ffff && Soonest(buf, current) != TimeDiff(buf[|buf| - 1].resendts, current) {
        var i :| 0 <= i < |buf| - 1
              && Soonest(buf[..|buf| - 1], current) == TimeDiff(buf[..|buf| - 1][i].resendts, current);
        assert buf[i] == buf[..|buf| - 1][i];
      }
    }
  }

  /** A clock reading moved by `d` is nearer to, or farther from, any other by `d`. */
  lemma TimeDiffShift(x: int, now: int, d: int)
    requires -HALF <= TimeDiff(x, now) - d < HALF
    ensures TimeDiff(x, U32(now + d)) == TimeDiff(x, now) - d
  {
    var q, r := (now + d) / MODULUS, (x - now) / MODULUS;
    var t := U32(x - now) - d;
    assert x - U32(now + d) == t + MODULUS * (q + r);
    U32Shift(t, q + r);
    if U32(x - now) >= HALF {
      assert U32(t) == U32(t - MODULUS) by { U32Shift(t, -1); }
    }
  }

  lemma TimeDiffOpposite(x: int, y: int)
    ensures TimeDiff(y, x) == if TimeDiff(x, y) == -HALF then -HALF else -TimeDiff(x, y)
  {
    var q := (x - y) / MODULUS;
    assert y - x == -U32(x - y) + MODULUS * (-q);
    U32Shift(-U32(x - y), -q);
    if U32(x - y) != 0 { U32Shift(-U32(x - y), 1); }
  }

  lemma TimeDiffZero(x: int, d: int)
    requires -HALF <= d < HALF
    ensures TimeDiff(U32(x + d), x) == d
  {
    var q := (x + d) / MODULUS;
    assert U32(x + d) - x == d + MODULUS * (-q);
    U32Shift(d, -q);
    if d < 0 { U32Shift(d, 1); }
  }

  /** The three ways `ikcp_check` can answer. */
  lemma CheckCases(e: Endpoint, current: int)
    requires Word(current) && 0 < e.cfg.interval < HALF
    ensures 0 <= Delay(e, current) <= e.cfg.interval
    ensures Check(e, current) == U32(current + Delay(e, current))
    ensures Delay(e, current) > 0 ==>
              && e.clock.updated
              && -10000 <= TimeDiff(current, e.clock.tsFlush) < 0
              && !AnyDue(e.snd.buf, current)
              && Delay(e, current) ==
                Min(Min(Soonest(e.snd.buf, current), TimeDiff(e.clock.tsFlush, current)), e.cfg.interval)
    ensures Delay(e, current) == 0 ==>
              !e.clock.updated || AnyDue(e.snd.buf, current)
              || TimeDiff(current, e.clock.tsFlush) >= 0 || TimeDiff(current, e.clock.tsFlush) < -10000
  {
    TimeDiffZero(current, 0);
    if e.clock.updated && -10000 <= TimeDiff(current, e.clock.tsFlush) < 0 && !AnyDue(e.snd.buf, current) {
      TimeDiffOpposite(current, e.clock.tsFlush);
      var w := Min(Min(Soonest(e.snd.buf, current), TimeDiff(e.clock.tsFlush, current)), e.cfg.interval);
      SoonestIsReached(e.snd.buf, current);
      assert 0 < w;
      TimeDiffZero(current, w);
    }
  }

  /** Before the time that `ikcp_check` returns, `ikcp_update` does not flush and no
      buffered segment falls due; the wait is at most one interval. */
  lemma CheckIsSafe(e: Endpoint, current: int, k: int)
    requires Word(current) && 0 < e.cfg.interval < HALF
    requires 0 <= k < Delay(e, current)
    ensures Delay(e, current) <= e.cfg.interval
    ensures !Tick(e.cfg.interval, e.clock, U32(current + k)).1
    ensures !AnyDue(e.snd.buf, U32(current + k))
  {
    CheckCases(e, current);
    var w := Delay(e, current);
    TimeDiffOpposite(current, e.clock.tsFlush);
    TimeDiffShift(e.clock.tsFlush, current, k);
    TimeDiffOpposite(e.clock.tsFlush, U32(current + k));
    forall i | 0 <= i < |e.snd.buf| ensures TimeDiff(e.snd.buf[i].resendts, U32(current + k)) > 0 {
      SoonestBelowAll(e.snd.buf, current, i);
      TimeDiffShift(e.snd.buf[i].resendts, current, k);
    }
  }

  /** The answer is also not late: unless it is cut short to one interval, `ikcp_update`
      flushes at that time or a segment is due then. */
  lemma CheckIsTight(e: Endpoint, current: int)
    requires Word(current) && 0 < e.cfg.interval < HALF
    requires Delay(e, current) < e.cfg.interval
    ensures Tick(e.cfg.interval, e.clock, Check(e, current)).1 || AnyDue(e.snd.buf, Check(e, current))
  {
    CheckCases(e, current);
    var w, buf := Delay(e, current), e.snd.buf;
    TimeDiffZero(current, 0);
    if w > 0 {
      TimeDiffOpposite(current, e.clock.tsFlush);
      TimeDiffShift(e.clock.tsFlush, current, w);
      if w == TimeDiff(e.clock.tsFlush, current) {
        TimeDiffOpposite(e.clock.tsFlush, Check(e, current));
      } else {
        SoonestIsReached(buf, current);
        var i :| 0 <= i < |buf| && w == TimeDiff(buf[i].resendts, current);
        TimeDiffShift(buf[i].resendts, current, w);
        assert TimeDiff(buf[i].resendts, Check(e, current)) <= 0;
      }
    }
  }

  // ---------------------------------------------------------------- ikcp_update

  /** Exactly when an update flushes, and when it will next: the first one does, one whose time
      has come, and one so far from that time that it is given up.  The next time is strictly
      ahead by at most an interval, on the old beat if that was missed by less than one. */
  lemma TickExactly(interval: int, c: Clock, now: int)
    requires Word(now) && Word(c.tsFlush) && 0 < interval < HALF
    ensures var (t, due) := Tick(interval, c, now);
            var late := TimeDiff(now, c.tsFlush);
            && t.updated && t.current == now
            && (due <==> !c.updated || late >= 0 || late < -10000)
            && (!due ==> t.tsFlush == c.tsFlush && -10000 <= TimeDiff(now, t.tsFlush) < 0)
            && (due ==> TimeDiff(t.tsFlush, now) ==
                        if c.updated && 0 <= late < Min(interval, 10000) then interval - late else interval)
  {
    var late := TimeDiff(now, c.tsFlush);
    TimeDiffZero(now, 0);
    TimeDiffZero(now, interval);
    TimeDiffOpposite(now, U32(now + interval));
    TimeDiffOpposite(now, c.tsFlush);
    if 0 <= late < 10000 {
      BeatAfter(c.tsFlush, now, interval, late);
    }
  }

  lemma LateIs(ts: int, now: int, late: int)
    requires Word(now) && Word(ts) && late == TimeDiff(now, ts) && 0 <= late
    ensures now == U32(ts + late)
  {
    var q := (now - ts) / MODULUS;
    assert now == ts + late + MODULUS * q;
    U32Shift(ts + late, q);
  }

  /** The next beat, seen from a time at or after the last one. */
  lemma BeatAfter(ts: int, now: int, interval: int, late: int)
    requires Word(now) && Word(ts) && 0 < interval < HALF && late == TimeDiff(now, ts) && 0 <= late < 10000
    ensures TimeDiff(now, U32(ts + interval)) == late - interval
    ensures late < interval ==> TimeDiff(U32(ts + interval), now) == interval - late
  {
    hide U32;
    LateIs(ts, now, late);
    WrappedDistanceIsTrue(ts + late, ts + interval);
    WrappedDistanceIsTrue(ts + interval, ts + late);
  }

  /** One update on the true clock, of which the 32-bit times are the low bits: the flush that
      is due at `beat` happens at the first update from then on. */
  lemma UpdateOnBeat(interval: int, c: Clock, beat: int, now: int)
    requires 0 < interval <= 10000 && c.updated && c.tsFlush == U32(beat)
    requires beat - 10000 <= now < beat + interval
    ensures var (t, due) := Tick(interval, c, U32(now));
            t.updated && (due <==> beat <= now) && t.tsFlush == U32(if due then beat + interval else beat)
  {
    WrappedDistanceIsTrue(now, beat);
    TickExactly(interval, c, U32(now));
    U32Plus(beat, interval);
    WrappedDistanceIsTrue(now, beat + interval);
  }

  /** How many of the updates at the given times flush, and the clock after them. */
  function Updates(interval: int, c: Clock, times: seq<int>): (Clock, nat)
    decreases |times|
  {
    if |times| == 0 then (c, 0)
    else
      var (t, due) := Tick(interval, c, U32(times[0]));
      var (u, n) := Updates(interval, t, times[1..]);
      (u, n + if due then 1 else 0)
  }

  /** Each update follows the one before by less than an interval. */
  ghost predicate Often(interval: int, from: int, times: seq<int>)
    decreases |times|
  {
    |times| > 0 ==> from <= times[0] < from + interval && Often(interval, times[0], times[1..])
  }

  /** Updates that come more often than the interval flush exactly once for each interval that
      passes, without drifting, across any number of wraps of the clock. */
  lemma {:induction false} FlushesKeepPace(interval: int, c: Clock, beat: int, from: int, times: seq<int>)
    requires 0 < interval <= 10000 && c.updated && c.tsFlush == U32(beat)
    requires from < beat <= from + interval && Often(interval, from, times)
    ensures var (t, n) := Updates(interval, c, times);
            var last := if |times| == 0 then from else times[|times| - 1];
            && t.updated && t.tsFlush == U32(beat + n * interval)
            && last < beat + n * interval <= last + interval
    decreases |times|
  {
    hide Tick;
    if |times| == 0 {
    } else {
      UpdateOnBeat(interval, c, beat, times[0]);
      var (t, due) := Tick(interval, c, U32(times[0]));
      var beat1 := if due then beat + interval else beat;
      FlushesKeepPace(interval, t, beat1, times[0], times[1..]);
      var n := Updates(interval, t, times[1..]).1;
      assert (n + 1) * interval == n * interval + interval;
    }
  }

  // ---------------------------------------------------------------- after a flush

  /** A time `d` ahead on the 32-bit clock is later than now exactly when `d` is less than
      half of the circle. */
  lemma AheadIff(now: int, d: int)
    requires Word(now)
    ensures TimeDiff(U32(now + d), now) > 0 <==> 0 < U32(d) < HALF
  {
    U32Minus(now + d, now);
  }

  lemma BackoffIsWord(x: Flusher, rto: int)
    ensures U32(Backoff(x, rto)) == Backoff(x, rto)
  {
  }

  /** What a visit adds to the clock for the next transmission, in the order of its branches,
      is less than half of the circle; a segment left alone is not exactly half of it away. */
  predicate InTime(x: Flusher, s: Sent) {
    if s.xmit == 0 then 0 < U32(x.rto + x.RtoMin()) < HALF
    else if TimeDiff(x.now, s.resendts) >= 0 then 0 < Backoff(x, s.rto) < HALF
    else if s.fastack >= x.Resent() && (Signed(U32(s.xmit)) <= x.cfg.fastLimit || x.cfg.fastLimit <= 0) then
      0 < U32(s.rto) < HALF
    else TimeDiff(x.now, s.resendts) != -HALF
  }

  /** First sending, timeout, fast resend and waiting leave the segment due later than now
      exactly when the delay they add does not pass half of the 32-bit circle. */
  lemma VisitSchedules(x: Flusher, s: Sent)
    requires Word(x.now) && 0 <= s.xmit < MODULUS
    ensures TimeDiff(Visit(x, s).seg.resendts, x.now) > 0 <==> InTime(x, s)
    ensures Visit(x, s).seg.xmit >= 1 <==> s.xmit < MODULUS - 1 || !Visit(x, s).send
  {
    hide Signed;
    hide TimeDiff;
    hide Backoff;
    BackoffIsWord(x, s.rto);
    assert s.xmit < MODULUS - 1 ==> U32(s.xmit + 1) == s.xmit + 1;
    if s.xmit == 0 {
      AheadIff(x.now, x.rto + x.RtoMin());
    } else if TimeDiff(x.now, s.resendts) >= 0 {
      AheadIff(x.now, Backoff(x, s.rto));
    } else if Visit(x, s).send {
      AheadIff(x.now, s.rto);
    } else {
      TimeDiffOpposite(x.now, s.resendts);
    }
  }

  /** A retransmission record whose timeout may still double. */
  predicate Schedulable(now: int, s: Sent) {
    && 0 < s.rto < 0x4000_0000
    && 0 <= s.xmit < MODULUS - 1
    && TimeDiff(now, s.resendts) > -HALF
  }

  lemma BackoffGrows(x: Flusher, rto: int)
    requires 0 < rto < 0x4000_0000 && 0 < x.rto < 0x4000_0000
    ensures rto <= Backoff(x, rto) < HALF
  {
    assert U32(rto) == rto && Signed(rto) == rto;
    assert 0 <= Quot(rto, 2) <= rto && 0 <= Quot(x.rto, 2) <= x.rto;
    var step :=
      if x.cfg.nodelay == 0 then Max(rto, x.rto)
      else if x.cfg.nodelay < 2 then Quot(rto, 2)
      else Quot(x.rto, 2);
    assert U32(rto + step) == rto + step;
  }

  lemma SchedulableInTime(x: Flusher, s: Sent)
    requires 0 < x.rto < 0x4000_0000 && Schedulable(x.now, s)
    ensures InTime(x, s)
  {
    BackoffGrows(x, s.rto);
    assert 0 <= x.RtoMin() <= x.rto;
  }

  lemma {:induction false} AdmitCounts(a: Arith, x: Flusher, s: Sender, cwnd: int)
    requires forall y :: y in s.buf ==> Word(y.xmit)
    ensures forall y :: y in Admit(a, x, s, cwnd).buf ==> Word(y.xmit)
    decreases |s.queue|
  {
    if Diff(a, s.nxt, Norm(a, s.una + cwnd)) < 0 && |s.queue| > 0 {
      var f := s.queue[0];
      var p := Packet(x.cfg.conv, CMD_PUSH, f.frg, x.wnd, x.now, s.nxt, x.rcvNxt, f.data);
      var t := s.(nxt := Norm(a, s.nxt + 1), queue := s.queue[1..], buf := s.buf + [Sent(p, x.now, x.rto, 0, 0)]);
      AdmitCounts(a, x, t, cwnd);
    }
  }

  lemma {:induction false} AdmitSchedulable(a: Arith, x: Flusher, s: Sender, cwnd: int)
    requires Word(x.now) && 0 < x.rto < 0x4000_0000
    requires forall y :: y in s.buf ==> Schedulable(x.now, y)
    ensures forall y :: y in Admit(a, x, s, cwnd).buf ==> Schedulable(x.now, y)
    decreases |s.queue|
  {
    if Diff(a, s.nxt, Norm(a, s.una + cwnd)) < 0 && |s.queue| > 0 {
      var f := s.queue[0];
      var p := Packet(x.cfg.conv, CMD_PUSH, f.frg, x.wnd, x.now, s.nxt, x.rcvNxt, f.data);
      var t := s.(nxt := Norm(a, s.nxt + 1), queue := s.queue[1..], buf := s.buf + [Sent(p, x.now, x.rto, 0, 0)]);
      TimeDiffZero(x.now, 0);
      AdmitSchedulable(a, x, t, cwnd);
    }
  }

  /** What a flush leaves in `snd_buf` is due later than now exactly when each segment that it
      visits is given a delay below half of the circle. */
  lemma FlushSchedulesExactly(a: Arith, e: Endpoint)
    requires Word(e.clock.current)
    requires forall s :: s in e.snd.buf ==> Word(s.xmit)
    ensures (forall s :: s in Flushed(a, e).snd.buf ==> TimeDiff(s.resendts, e.clock.current) > 0)
       <==> forall s :: s in Admit(a, FlusherOf(e), e.snd, Window(e)).buf ==> InTime(FlusherOf(e), s)
  {
    var x := FlusherOf(e);
    var buf := Admit(a, x, e.snd, Window(e)).buf;
    var after := Flushed(a, e).snd.buf;
    AdmitCounts(a, x, e.snd, Window(e));
    assert after == Segments(VisitAll(x, buf));
    forall i | 0 <= i < |buf|
      ensures TimeDiff(after[i].resendts, e.clock.current) > 0 <==> InTime(x, buf[i])
      ensures after[i] in after && buf[i] in buf
    {
      VisitSchedules(x, buf[i]);
    }
  }

  /** After a flush every segment in `snd_buf` has been sent at least once and is
      scheduled strictly later than the flush, as long as timeouts can double. */
  lemma FlushSchedulesAll(a: Arith, e: Endpoint)
    requires Word(e.clock.current) && 0 < e.rtt.rto < 0x4000_0000
    requires forall s :: s in e.snd.buf ==> Schedulable(e.clock.current, s)
    ensures forall s :: s in Flushed(a, e).snd.buf ==>
              s.xmit >= 1 && TimeDiff(s.resendts, e.clock.current) > 0
  {
    var x := FlusherOf(e);
    AdmitSchedulable(a, x, e.snd, Window(e));
    var buf := Admit(a, x, e.snd, Window(e)).buf;
    forall s | s in Flushed(a, e).snd.buf
      ensures s.xmit >= 1 && TimeDiff(s.resendts, e.clock.current) > 0
    {
      var i :| 0 <= i < |buf| && s == Segments(VisitAll(x, buf))[i];
      assert buf[i] in buf;
      SchedulableInTime(x, buf[i]);
      VisitSchedules(x, buf[i]);
    }
  }

  /** The estimator keeps the retransmission timeout between its bounds. */
  lemma RtoStaysBounded(cfg: Config, r: Rtt, rtt: int)
    ensures Min(cfg.minRto, RTO_MAX) <= UpdateAck(cfg, r, rtt).rto <= RTO_MAX
  {
  }

  /** The first sample becomes the estimate, with half of it as deviation.  After that the
      smoothed round-trip time moves an eighth of the way to the sample, to within one unit
      and not below one, and stays between the two; the deviation moves a quarter of the way
      to the new distance. */
  lemma EstimateTracks(cfg: Config, r: Rtt, rtt: int)
    requires 0 <= r.srtt && 0 <= r.rttval && 0 <= rtt
    ensures var t, delta := UpdateAck(cfg, r, rtt), if rtt < r.srtt then r.srtt - rtt else rtt - r.srtt;
            && (r.srtt == 0 ==> t.srtt == rtt && rtt - 2 < 2 * t.rttval <= rtt)
            && (r.srtt > 0 ==>
                && Max(Min(r.srtt, rtt), 1) <= t.srtt <= Max(r.srtt, rtt)
                && rtt - r.srtt - 8 < 8 * (t.srtt - r.srtt)
                && 8 * (t.srtt - r.srtt) <= (if r.srtt == 1 && rtt == 0 then 0 else rtt - r.srtt)
                && delta - r.rttval - 4 < 4 * (t.rttval - r.rttval) <= delta - r.rttval)
            && 0 <= t.srtt && 0 <= t.rttval
  {
    var x := 7 * r.srtt + rtt;
    assert 8 * (x / 8) <= x < 8 * (x / 8) + 8;
  }

  lemma ClipCovers(minRto: int, interval: int, srtt: int, rttval: int)
    requires 0 <= srtt && 0 <= rttval && 0 <= interval
    ensures var raw := Max(minRto, U32(srtt + Max(interval, U32(4 * rttval))));
            var rto := Min(raw, RTO_MAX);
            (rto >= Min(RTO_MAX, srtt + 4 * rttval) && rto >= Min(RTO_MAX, srtt + interval))
            <==> (srtt + Max(interval, 4 * rttval) < MODULUS || raw >= RTO_MAX)
  {
    if 4 * rttval < MODULUS {
      assert U32(4 * rttval) == 4 * rttval;
      var sum := srtt + Max(interval, 4 * rttval);
      if sum < MODULUS {
        assert U32(sum) == sum;
      }
    }
  }

  /** The timeout leaves room for four deviations and for an interval, unless it is clipped,
      exactly when their sum with the smoothed time fits a word or wraps to one that the
      bounds raise to the maximum. */
  lemma TimeoutCovers(cfg: Config, r: Rtt, rtt: int)
    requires 0 <= r.srtt && 0 <= r.rttval && 0 <= rtt && 0 <= cfg.interval
    ensures var t := UpdateAck(cfg, r, rtt);
            var raw := Max(cfg.minRto, U32(t.srtt + Max(cfg.interval, U32(4 * t.rttval))));
            (t.rto >= Min(RTO_MAX, t.srtt + 4 * t.rttval) && t.rto >= Min(RTO_MAX, t.srtt + cfg.interval))
            <==> (t.srtt + Max(cfg.interval, 4 * t.rttval) < MODULUS || raw >= RTO_MAX)
  {
    hide Quot;
    EstimateTracks(cfg, r, rtt);
    var t := UpdateAck(cfg, r, rtt);
    var raw := Max(cfg.minRto, U32(t.srtt + Max(cfg.interval, U32(4 * t.rttval))));
    assert t.rto == Min(raw, RTO_MAX);
    ClipCovers(cfg.minRto, cfg.interval, t.srtt, t.rttval);
  }
}
