/** Ordered sets of sequence numbers inside a window, in circular arithmetic. */
module KcpWindows {
  import opened Circular

  /** How far `sn` lies beyond `base`. */
  function Off(a: Arith, base: int, sn: int): int {
    Norm(a, sn - base)
  }

  /** A stored number: reduced to 32 bits under `Wrap32`. */
  predicate Stored(a: Arith, x: int) {
    Norm(a, x) == x
  }

  /** `sns` increases strictly and lies in [base, base + limit). */
  ghost predicate Within(a: Arith, base: int, limit: int, sns: seq<int>) {
    && Stored(a, base)
    && (forall i :: 0 <= i < |sns| ==> Stored(a, sns[i]) && 0 <= Off(a, base, sns[i]) < limit)
    && (forall i, j :: 0 <= i < j < |sns| ==> Off(a, base, sns[i]) < Off(a, base, sns[j]))
  }

  lemma OffOfSum(a: Arith, base: int, k: int)
    requires a.Unbounded? || 0 <= k < MODULUS
    ensures Off(a, base, Norm(a, base + k)) == k
  {
    if a.Wrap32? {
      var q := (base + k) / MODULUS;
      assert U32(base + k) - base == k + MODULUS * (-q);
      U32Shift(k, -q);
    }
  }

  /** Comparing two members of a window compares their offsets. */
  lemma DiffInWindow(a: Arith, base: int, x: int, y: int)
    requires Stored(a, x) && Stored(a, y)
    requires a.Unbounded? || -HALF <= Off(a, base, x) - Off(a, base, y) < HALF
    ensures Diff(a, x, y) == Off(a, base, x) - Off(a, base, y)
  {
    if a.Wrap32? {
      var i, j := (x - base) / MODULUS, (y - base) / MODULUS;
      assert x - y == Off(a, base, x) - Off(a, base, y) + MODULUS * (i - j);
      U32Shift(Off(a, base, x) - Off(a, base, y), i - j);
    }
  }

  lemma SameOff(a: Arith, base: int, x: int, y: int)
    requires Stored(a, x) && Stored(a, y)
    requires Off(a, base, x) == Off(a, base, y)
    ensures x == y
  {
    if a.Wrap32? {
      var i, j := (x - base) / MODULUS, (y - base) / MODULUS;
      assert x - y == MODULUS * (i - j);
    }
  }

  lemma OffAfterRebase(a: Arith, base: int, k: int, sn: int)
    requires 0 <= k <= Off(a, base, sn)
    ensures Off(a, Norm(a, base + k), sn) == Off(a, base, sn) - k
  {
    if a.Wrap32? {
      var i, j := (base + k) / MODULUS, (sn - base) / MODULUS;
      assert sn - U32(base + k) == Off(a, base, sn) - k + MODULUS * (i + j);
      U32Shift(Off(a, base, sn) - k, i + j);
    }
  }

  /** The base of a window may be advanced as far as its first member. */
  lemma Rebase(a: Arith, base: int, limit: int, sns: seq<int>, k: int)
    requires Within(a, base, limit, sns) && 0 <= k
    requires forall i :: 0 <= i < |sns| ==> k <= Off(a, base, sns[i])
    ensures Within(a, Norm(a, base + k), limit - k, sns)
  {
    forall i | 0 <= i < |sns|
      ensures Off(a, Norm(a, base + k), sns[i]) == Off(a, base, sns[i]) - k
    {
      OffAfterRebase(a, base, k, sns[i]);
    }
    NormPlus(a, base + k, 0);
  }

  lemma RebaseToMember(a: Arith, base: int, limit: int, sns: seq<int>, k: int)
    requires Within(a, base, limit, sns)
    requires |sns| > 0 && k == Off(a, base, sns[0])
    ensures Norm(a, base + k) == sns[0]
    ensures Within(a, sns[0], limit - k, sns)
    ensures Off(a, sns[0], sns[0]) == 0
  {
    NormPlus(a, 0, 0);
    assert Norm(a, base + k) == sns[0] by {
      if a.Wrap32? {
        var i := (sns[0] - base) / MODULUS;
        assert base + k == sns[0] + MODULUS * (-i);
        U32Shift(sns[0], -i);
      }
    }
    Rebase(a, base, limit, sns, k);
  }

  lemma WithoutSlice(a: Arith, base: int, limit: int, sns: seq<int>, i: nat, j: nat)
    requires Within(a, base, limit, sns) && i <= j <= |sns|
    ensures Within(a, base, limit, sns[..i] + sns[j..])
  {
    var t := sns[..i] + sns[j..];
    forall k | 0 <= k < |t| ensures t[k] == sns[if k < i then k else k + j - i] {}
  }

  lemma AppendLargest(a: Arith, base: int, limit: int, sns: seq<int>, x: int)
    requires Within(a, base, limit, sns)
    requires Stored(a, x) && 0 <= Off(a, base, x) < limit
    requires forall i :: 0 <= i < |sns| ==> Off(a, base, sns[i]) < Off(a, base, x)
    ensures Within(a, base, limit, sns + [x])
  {
  }

  /** A window that ends at `nxt` may be restarted at its first member, or at `nxt`
      itself when it is empty. */
  lemma Restart(a: Arith, una: int, nxt: int, sns: seq<int>, una1: int)
    requires Stored(a, nxt) && 0 <= Off(a, una, nxt)
    requires Within(a, una, Off(a, una, nxt), sns)
    requires una1 == if |sns| > 0 then sns[0] else nxt
    ensures Within(a, una1, Off(a, una1, nxt), sns)
    ensures Off(a, una, una1) + Off(a, una1, nxt) == Off(a, una, nxt)
    ensures 0 <= Off(a, una, una1) && 0 <= Off(a, una1, nxt)
    ensures |sns| == 0 || Off(a, una1, sns[0]) == 0
  {
    if |sns| > 0 {
      var k := Off(a, una, sns[0]);
      RebaseToMember(a, una, Off(a, una, nxt), sns, k);
      OffAfterRebase(a, una, k, nxt);
    } else {
      assert Off(a, nxt, nxt) == 0;
    }
  }

  lemma {:induction false} GrowsByOne(a: Arith, base: int, limit: int, sns: seq<int>, n: nat)
    requires Within(a, base, limit, sns) && n < |sns|
    ensures n <= Off(a, base, sns[n])
  {
    if n == 0 {
    } else {
      GrowsByOne(a, base, limit, sns, n - 1);
    }
  }

  /** A strictly increasing sequence in a window is no longer than the window. */
  lemma NoLongerThanWindow(a: Arith, base: int, limit: nat, sns: seq<int>)
    requires Within(a, base, limit, sns)
    ensures |sns| <= limit
  {
    if |sns| > 0 {
      GrowsByOne(a, base, limit, sns, |sns| - 1);
    }
  }
}
