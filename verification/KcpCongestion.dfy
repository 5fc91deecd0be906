/** The congestion window in segments (`cwnd`) and in bytes (`incr`) stay together. */
module KcpCongestion {
  import opened Arithmetic
  import opened Circular
  import opened KcpState
  import opened KcpSpec

  /** `incr` lies strictly between `cwnd - 1` and `cwnd + 1` segments. */
  ghost predicate Band(mss: int, c: Cong) {
    && (c.cwnd - 1) * mss < c.incr < (c.cwnd + 1) * mss
    && c.ssthresh >= THRESH_MIN
    && 0 <= c.cwnd
  }

  /** No product formed while `cwnd` is at most `bound` overflows 32 bits. */
  ghost predicate Fits(mss: int, bound: int) {
    0 < mss < 0x1_0000 && 0xffff <= bound && (bound + 3) * mss < MODULUS
  }

  lemma ProductFits(mss: int, bound: int, n: int)
    requires Fits(mss, bound) && 0 <= n <= bound + 3
    ensures 0 <= n * mss < MODULUS && U32(n * mss) == n * mss
  {
    MulMonotone(n, bound + 3, mss);
    MulMonotone(0, n, mss);
  }

  lemma SquareFits(mss: int)
    requires 0 < mss < 0x1_0000
    ensures U32(mss * mss) == mss * mss
  {
    MulMonotone(mss, 0xffff, mss);
  }

  lemma ProductExceeds(x: int, y: int, q: int, incr: int)
    requires 0 < y < q && 0 < x <= incr
    ensures q * incr > x * y
  {
    MulMonotone(y + 1, q, incr);
    MulMonotone(x, incr, y + 1);
    assert x * (y + 1) == x * y + x;
  }

  /** mss * mss / incr is at most mss, and at most half of it from two segments on. */
  lemma SquareOverIncr(mss: int, incr: int)
    requires 0 < mss <= incr
    ensures 0 <= (mss * mss) / incr <= mss
    ensures 2 * mss <= incr ==> 2 * ((mss * mss) / incr) <= mss
  {
    var sq := mss * mss;
    var q := sq / incr;
    MulMonotone(0, mss, mss);
    DivMod(sq, incr);
    if q > mss {
      ProductExceeds(mss, mss, q, incr);
    }
    assert 2 * mss * mss == 2 * sq;
    if 2 * mss <= incr && 2 * q > mss {
      ProductExceeds(2 * mss, mss, 2 * q, incr);
    }
  }

  /** One avoidance step adds less than two segments in all. */
  lemma CreepBounds(mss: int, bound: int, cwnd: int, incr: int)
    requires Fits(mss, bound) && 2 <= cwnd <= bound
    requires (cwnd - 1) * mss < incr < (cwnd + 1) * mss
    ensures mss <= incr
    ensures incr <= Creep(mss, incr) <= (cwnd + 2) * mss
  {
    MulMonotone(1, cwnd - 1, mss);
    SquareFits(mss);
    ProductFits(mss, bound, cwnd + 2);
    CreepStep(mss, cwnd, incr, (mss * mss) / incr);
  }

  lemma CreepStep(mss: int, cwnd: int, incr: int, q: int)
    requires 0 < mss <= incr < (cwnd + 1) * mss && 2 <= cwnd
    requires q == (mss * mss) / incr
    ensures 0 <= q && incr + q + mss / 16 <= (cwnd + 2) * mss
  {
    SquareOverIncr(mss, incr);
    if incr >= cwnd * mss {
      MulMonotone(2, cwnd, mss);
    }
  }

  /** Rounding up to segments puts `incr` back into the band. */
  lemma SegmentedBounds(mss: int, bound: int, cwnd: int, incr: int)
    requires Fits(mss, bound) && 0 <= cwnd <= bound
    requires (cwnd + 1) * mss <= incr <= (cwnd + 2) * mss
    ensures var n := Segmented(mss, incr);
            cwnd + 1 <= n <= cwnd + 2 && (n - 1) * mss < incr <= n * mss
  {
    var x := incr + mss - 1;
    ProductFits(mss, bound, cwnd + 3);
    assert (cwnd + 3) * mss == (cwnd + 2) * mss + mss;
    var n := x / mss;
    CeilBetween(mss, x, cwnd + 1);
    MulMonotone(0, cwnd + 1, mss);
    assert U32(x) == x;
  }

  lemma CeilBetween(mss: int, x: int, k: int)
    requires 0 < mss && k * mss + mss - 1 <= x < (k + 2) * mss
    ensures var n := x / mss;
            k <= n <= k + 1 && (n - 1) * mss < x - mss + 1 <= n * mss
  {
    var n := x / mss;
    DivMod(x, mss);
    assert (n - 1) * mss == n * mss - mss;
    if n < k {
      MulMonotone(n + 1, k, mss);
    }
    if n > k + 1 {
      MulMonotone(k + 2, n, mss);
    }
  }

  lemma SlowStartBounds(mss: int, cwnd: int, incr: int)
    requires 0 < mss && 0 <= cwnd && (cwnd - 1) * mss < incr < (cwnd + 1) * mss
    ensures 0 <= incr + mss
    ensures cwnd * mss < incr + mss < (cwnd + 2) * mss
  {
    MulMonotone(0, cwnd, mss);
  }

  lemma WholeSegmentsInBand(mss: int, bound: int, n: int)
    requires Fits(mss, bound) && 0 <= n <= bound
    ensures U32(n * mss) == n * mss
    ensures (n - 1) * mss < n * mss < (n + 1) * mss
  {
    ProductFits(mss, bound, n);
  }

  /** Below the threshold one segment is added to both. */
  lemma SlowStartKeepsBand(mss: int, bound: int, c: Cong)
    requires Fits(mss, bound) && Band(mss, c) && c.cwnd <= bound && c.cwnd < c.ssthresh
    ensures OpenWindow(mss, c) == c.(cwnd := c.cwnd + 1, incr := c.incr + mss)
    ensures Band(mss, OpenWindow(mss, c))
  {
    hide Creep;
    hide Segmented;
    ProductFits(mss, bound, c.cwnd + 2);
    SlowStartBounds(mss, c.cwnd, c.incr);
    NoWrap(c.cwnd + 1, bound + 3, mss);
    assert U32(c.incr + mss) == c.incr + mss;
  }

  lemma NoWrap(n: int, limit: int, mss: int)
    requires 0 <= n <= limit && 0 < mss && limit * mss < MODULUS
    ensures U32(n) == n
  {
    MulMonotone(1, mss, limit);
  }

  /** From the threshold on, as long as the bytes do not reach the next segment. */
  lemma CreepKeepsBand(mss: int, c: Cong, incr1: int)
    requires Band(mss, c) && c.incr <= incr1 < (c.cwnd + 1) * mss
    ensures Band(mss, c.(incr := incr1))
  {
  }

  /** Otherwise the segments are counted again. */
  lemma ResegmentKeepsBand(mss: int, bound: int, c: Cong, incr1: int)
    requires Fits(mss, bound) && Band(mss, c) && c.cwnd <= bound
    requires (c.cwnd + 1) * mss <= incr1 <= (c.cwnd + 2) * mss
    ensures Band(mss, c.(cwnd := Segmented(mss, incr1), incr := incr1))
    ensures c.cwnd + 1 <= Segmented(mss, incr1) <= c.cwnd + 2
  {
    hide Segmented;
    SegmentedBounds(mss, bound, c.cwnd, incr1);
    var n := Segmented(mss, incr1);
    assert (n + 1) * mss == n * mss + mss;
  }

  lemma OpenKeepsBand(mss: int, bound: int, c: Cong)
    requires Fits(mss, bound) && Band(mss, c) && c.cwnd <= bound
    ensures Band(mss, OpenWindow(mss, c))
    ensures c.cwnd <= OpenWindow(mss, c).cwnd <= c.cwnd + 2
  {
    hide Creep;
    hide Segmented;
    hide U32;
    if c.cwnd < c.ssthresh {
      SlowStartKeepsBand(mss, bound, c);
    } else {
      CreepBounds(mss, bound, c.cwnd, c.incr);
      ProductFits(mss, bound, c.cwnd + 1);
      var incr1 := Creep(mss, c.incr);
      assert OpenWindow(mss, c) == if (c.cwnd + 1) * mss <= incr1
                                   then c.(cwnd := Segmented(mss, incr1), incr := incr1)
                                   else c.(incr := incr1);
      if (c.cwnd + 1) * mss <= incr1 {
        ResegmentKeepsBand(mss, bound, c, incr1);
      } else {
        CreepKeepsBand(mss, c, incr1);
      }
    }
  }

  /** One input keeps the band and raises `cwnd` by at most two segments. */
  lemma GrowKeepsBand(mss: int, bound: int, c: Cong)
    requires Fits(mss, bound) && Band(mss, c) && c.cwnd <= bound && 0 <= c.rmtWnd <= 0xffff
    ensures Band(mss, GrowCwnd(mss, c))
    ensures c.cwnd <= GrowCwnd(mss, c).cwnd <= c.cwnd + 2
    ensures GrowCwnd(mss, c).cwnd <= bound
  {
    if c.cwnd < c.rmtWnd {
      var c1 := OpenWindow(mss, c);
      OpenKeepsBand(mss, bound, c);
      if c1.cwnd > c1.rmtWnd {
        WholeSegmentsInBand(mss, bound, c1.rmtWnd);
        assert GrowCwnd(mss, c) == c1.(cwnd := c1.rmtWnd, incr := c1.rmtWnd * mss);
      }
    }
  }

  /** `incr` as one step of congestion avoidance leaves it: an acknowledged window adds about
      one segment and a sixteenth of one for each call. */
  ghost predicate Crept(mss: int, before: int, after: int)
    requires 0 < mss
  {
    var gain := after - before - mss / 16;
    0 <= gain && gain * before <= mss * mss < (gain + 1) * before
  }

  lemma CreepExactly(mss: int, bound: int, cwnd: int, incr: int)
    requires Fits(mss, bound) && 2 <= cwnd <= bound && (cwnd - 1) * mss < incr < (cwnd + 1) * mss
    ensures mss <= incr && Crept(mss, incr, Creep(mss, incr))
  {
    hide U32;
    CreepBounds(mss, bound, cwnd, incr);
    SquareFits(mss);
    var q := (mss * mss) / incr;
    CreepStep(mss, cwnd, incr, q);
    ProductFits(mss, bound, cwnd + 2);
    CreepIs(mss, incr, q);
    DivMod(mss * mss, incr);
    assert (mss * mss / incr + 1) * incr == mss * mss / incr * incr + incr;
  }

  lemma CreepIs(mss: int, incr: int, q: int)
    requires 0 < mss <= incr && q == (mss * mss) / incr && U32(mss * mss) == mss * mss
    requires 0 <= incr + q + mss / 16 < MODULUS
    ensures Creep(mss, incr) == incr + q + mss / 16
  {
    var x := incr + q + mss / 16;
    assert U32(x) == x;
  }

  /** How the window grows when `snd_una` has moved: not at all once it has reached the peer's;
      by a whole segment below the threshold; above it by what the bytes amount to, rounded up
      to segments when they reach the next one, and never past the peer's window. */
  lemma GrowsExactly(mss: int, bound: int, c: Cong)
    requires Fits(mss, bound) && Band(mss, c) && c.cwnd <= bound && 0 <= c.rmtWnd <= 0xffff
    ensures var t := GrowCwnd(mss, c);
            && t.ssthresh == c.ssthresh && t.rmtWnd == c.rmtWnd
            && (c.cwnd >= c.rmtWnd ==> t == c)
            && (c.cwnd < c.rmtWnd && c.cwnd < c.ssthresh ==> t.cwnd == c.cwnd + 1 && t.incr == c.incr + mss)
            && (c.cwnd < c.rmtWnd && c.cwnd >= c.ssthresh ==>
                exists raw :: Crept(mss, c.incr, raw) && Rounded(mss, c, t, raw))
  {
    hide Creep;
    hide Segmented;
    hide U32;
    hide Crept;
    if c.cwnd < c.rmtWnd {
      if c.cwnd < c.ssthresh {
        SlowStartKeepsBand(mss, bound, c);
      } else {
        CreepExactly(mss, bound, c.cwnd, c.incr);
        CreepBounds(mss, bound, c.cwnd, c.incr);
        ProductFits(mss, bound, c.cwnd + 1);
        ProductFits(mss, bound, c.rmtWnd);
        var raw := Creep(mss, c.incr);
        if (c.cwnd + 1) * mss <= raw {
          SegmentedBounds(mss, bound, c.cwnd, raw);
        }
        assert Rounded(mss, c, GrowCwnd(mss, c), raw);
      }
    }
  }

  /** The window for `raw` bytes: unchanged while they do not reach one more segment, else the
      fewest segments that hold them, cut off at the peer's window. */
  ghost predicate Rounded(mss: int, c: Cong, t: Cong, raw: int) {
    if raw < (c.cwnd + 1) * mss then t.cwnd == c.cwnd && t.incr == raw
    else
      exists n :: && (n - 1) * mss < raw <= n * mss
                  && (if n > c.rmtWnd then t.cwnd == c.rmtWnd && t.incr == c.rmtWnd * mss
                      else t.cwnd == n && t.incr == raw)
  }

  function Grown(mss: int, c: Cong, n: nat): Cong
    requires 0 < mss
  {
    if n == 0 then c else GrowCwnd(mss, Grown(mss, c, n - 1))
  }

  lemma {:induction false} GrowsSteadily(mss: int, bound: int, c: Cong, n: nat)
    requires Fits(mss, bound) && Band(mss, c) && c.cwnd <= bound && 0 <= c.rmtWnd <= 0xffff
    ensures var t := Grown(mss, c, n);
            && Band(mss, t) && c.cwnd <= t.cwnd <= bound && t.rmtWnd == c.rmtWnd
            && (t.cwnd > c.cwnd || t.cwnd >= c.rmtWnd || t.incr >= c.incr + n * (mss / 16))
  {
    hide GrowCwnd;
    hide Fits;
    if n == 0 {
    } else {
      var t := Grown(mss, c, n - 1);
      GrowsSteadily(mss, bound, c, n - 1);
      GrowKeepsBand(mss, bound, t);
      GrowsAtLeast(mss, bound, t);
      assert n * (mss / 16) == (n - 1) * (mss / 16) + mss / 16;
    }
  }

  /** One step opens the window by a segment, or adds a sixteenth of one, or is at the limit. */
  lemma GrowsAtLeast(mss: int, bound: int, c: Cong)
    requires Fits(mss, bound) && Band(mss, c) && c.cwnd <= bound && 0 <= c.rmtWnd <= 0xffff
    ensures var t := GrowCwnd(mss, c);
            && t.rmtWnd == c.rmtWnd
            && (t.cwnd > c.cwnd || t.cwnd >= c.rmtWnd || t.incr >= c.incr + mss / 16)
  {
    hide GrowCwnd;
    GrowsExactly(mss, bound, c);
    GrowKeepsBand(mss, bound, c);
  }

  /** At most 64 advancing inputs open the window by one more segment, until it is as large
      as the peer's. */
  lemma WindowOpens(mss: int, bound: int, c: Cong)
    requires Fits(mss, bound) && Band(mss, c) && c.cwnd <= bound && c.cwnd < c.rmtWnd <= 0xffff && 16 <= mss
    ensures c.cwnd < Grown(mss, c, 64).cwnd
  {
    hide Grown;
    GrowsSteadily(mss, bound, c, 64);
    assert 64 * (mss / 16) >= 2 * mss;
    assert (c.cwnd + 1) * mss == (c.cwnd - 1) * mss + 2 * mss;
  }

  lemma AdjustKeepsBand(mss: int, bound: int, c: Cong, resent: int, inflight: int, cwnd: int, change: bool, lost: bool)
    requires Fits(mss, bound) && Band(mss, c) && c.cwnd <= bound
    requires change ==> 0 <= U32(Max(inflight / 2, THRESH_MIN) + resent) <= bound
    ensures var c1 := AdjustCwnd(mss, c, resent, inflight, cwnd, change, lost);
            Band(mss, c1) && 1 <= c1.cwnd <= bound
  {
    WholeSegmentsInBand(mss, bound, if change then U32(Max(inflight / 2, THRESH_MIN) + resent) else 0);
  }
}
