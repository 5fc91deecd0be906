/** Bit strings, most significant bit first, and the numbers they stand for. */
module HevcBits {
  import opened Arithmetic

  function Pow2(n: nat): (p: nat)
    ensures p >= 1
  {
    if n == 0 then 1 else 2 * Pow2(n - 1)
  }

  /** The low `n` bits of `v`. */
  function Bits(v: nat, n: nat): (bs: seq<bool>)
    ensures |bs| == n
    decreases n
  {
    if n == 0 then [] else Bits(v / 2, n - 1) + [v % 2 == 1]
  }

  function Value(bs: seq<bool>): nat {
    if |bs| == 0 then 0 else 2 * Value(bs[..|bs| - 1]) + (if bs[|bs| - 1] then 1 else 0)
  }

  function Zeros(n: nat): (bs: seq<bool>)
    ensures |bs| == n && forall i :: 0 <= i < n ==> !bs[i]
  {
    seq(n, _ => false)
  }

  lemma {:induction false} Pow2Plus(m: nat, n: nat)
    ensures Pow2(m + n) == Pow2(m) * Pow2(n)
  {
    if m == 0 {
    } else {
      Pow2Plus(m - 1, n);
    }
  }

  lemma {:induction false} ValueBelow(bs: seq<bool>)
    ensures Value(bs) < Pow2(|bs|)
  {
    if |bs| == 0 {
    } else {
      ValueBelow(bs[..|bs| - 1]);
    }
  }

  lemma {:induction false} ValueOfBits(v: nat, n: nat)
    requires v < Pow2(n)
    ensures Value(Bits(v, n)) == v
    decreases n
  {
    if n == 0 {
    } else {
      ValueOfBits(v / 2, n - 1);
      assert Bits(v, n)[..n - 1] == Bits(v / 2, n - 1);
    }
  }

  lemma LowBit(v: nat, b: bool, n: nat)
    requires n > 0
    ensures Bits(2 * v + (if b then 1 else 0), n) == Bits(v, n - 1) + [b]
  {
    var w := 2 * v + (if b then 1 else 0);
    assert w / 2 == v && (w % 2 == 1 <==> b);
  }

  lemma {:induction false} BitsOfValue(bs: seq<bool>)
    ensures Bits(Value(bs), |bs|) == bs
  {
    hide Bits;
    if |bs| == 0 {
    } else {
      var init, v := bs[..|bs| - 1], Value(bs[..|bs| - 1]);
      BitsOfValue(init);
      LowBit(v, bs[|bs| - 1], |bs|);
      assert bs == bs[..|bs| - 1] + [bs[|bs| - 1]];
    }
  }

  lemma {:induction false} ValueConcat(a: seq<bool>, b: seq<bool>)
    ensures Value(a + b) == Value(a) * Pow2(|b|) + Value(b)
    decreases |b|
  {
    if |b| == 0 {
      assert a + b == a;
    } else {
      var init, p := b[..|b| - 1], Pow2(|b| - 1);
      assert (a + b)[..|a + b| - 1] == a + init;
      ValueConcat(a, init);
      MulTwice(Value(a), p);
    }
  }

  lemma MulTwice(x: int, p: int)
    ensures x * (2 * p) == 2 * (x * p)
  {
  }

  lemma {:induction false} ValueOfZeros(n: nat)
    ensures Value(Zeros(n)) == 0
  {
    if n == 0 {
    } else {
      ValueOfZeros(n - 1);
      assert Zeros(n)[..n - 1] == Zeros(n - 1);
    }
  }

  lemma ValueWithZeros(a: seq<bool>, n: nat)
    ensures Value(a + Zeros(n)) == Value(a) * Pow2(n)
  {
    var z := Zeros(n);
    ValueConcat(a, z);
    ValueOfZeros(n);
  }

  lemma {:induction false} BitsOfZero(n: nat)
    ensures Bits(0, n) == Zeros(n)
  {
    if n == 0 {
    } else {
      BitsOfZero(n - 1);
      assert Zeros(n) == Zeros(n - 1) + [false];
    }
  }

  /** `v >> n`. */
  function Shr(v: nat, n: nat): nat
    decreases n
  {
    if n == 0 then v else Shr(v / 2, n - 1)
  }

  /** Splitting a number in its high and low bits. */
  lemma {:induction false} BitsSplit(v: nat, hi: nat, lo: nat)
    ensures Bits(v, hi + lo) == Bits(Shr(v, lo), hi) + Bits(v, lo)
    decreases lo
  {
    if lo == 0 {
      assert Bits(v, hi) + [] == Bits(v, hi);
    } else {
      BitsSplit(v / 2, hi, lo - 1);
    }
  }

  lemma {:induction false} ShrBelow(v: nat, m: nat, n: nat)
    requires v < Pow2(m + n)
    ensures Shr(v, n) < Pow2(m)
    decreases n
  {
    if n == 0 {
    } else {
      ShrBelow(v / 2, m, n - 1);
    }
  }

  /** Only the low bits of a number matter. */
  lemma {:induction false} BitsOfMod(v: nat, n: nat)
    ensures Bits(v % Pow2(n), n) == Bits(v, n)
    decreases n
  {
    if n == 0 {
    } else {
      ModHalf(v, Pow2(n - 1));
      BitsOfMod(v / 2, n - 1);
    }
  }

  lemma ModHalf(v: nat, p: nat)
    requires p > 0
    ensures (v % (2 * p)) / 2 == (v / 2) % p
    ensures (v % (2 * p)) % 2 == v % 2
  {
    DivMod(v / 2, p);
    var q, r := v / 2 / p, v / 2 % p;
    assert v == q * (2 * p) + (2 * r + v % 2);
    DivModUnique(v, 2 * p, q, 2 * r + v % 2);
  }

  lemma ModOfProduct(x: nat, a: nat, b: nat)
    requires a > 0 && b > 0
    ensures a * b > 0 && (x * b) % (a * b) == (x % a) * b
  {
    var q, r := x / a, x % a;
    DivMod(x, a);
    MulMonotone(1, a, b);
    MulMonotone(r + 1, a, b);
    MulMonotone(0, r, b);
    assert (q * a + r) * b == q * (a * b) + r * b;
    DivModUnique(x * b, a * b, q, r * b);
  }

  lemma ModOfMultiple(x: nat, a: nat, b: nat)
    requires a > 0 && b > 0
    ensures b * a > 0 && (x % (b * a)) % a == x % a
  {
    MulMonotone(1, b, a);
    var q, r := x / (b * a), x % (b * a);
    DivMod(x, b * a);
    DivMod(r, a);
    assert q * (b * a) == (q * b) * a;
    assert (q * b) * a + (r / a) * a == (q * b + r / a) * a;
    DivModUnique(x, a, q * b + r / a, r % a);
  }

  /** (x * 2^s) mod 2^(l+s) only shifts x mod 2^l. */
  lemma ModOfShifted(x: nat, l: nat, s: nat)
    ensures (x * Pow2(s)) % Pow2(l + s) == (x % Pow2(l)) * Pow2(s)
  {
    Pow2Plus(l, s);
    ModOfProduct(x, Pow2(l), Pow2(s));
  }

  /** Reducing modulo a larger power first changes nothing. */
  lemma ModOfMod(x: nat, k: nat, n: nat)
    requires k <= n
    ensures (x % Pow2(n)) % Pow2(k) == x % Pow2(k)
  {
    Pow2Plus(n - k, k);
    ModOfMultiple(x, Pow2(k), Pow2(n - k));
  }

  lemma {:induction false} Pow2Monotone(m: nat, n: nat)
    requires m <= n
    ensures Pow2(m) <= Pow2(n)
    decreases n
  {
    if m >= n {
    } else {
      Pow2Monotone(m, n - 1);
    }
  }

  lemma Pow2Of32()
    ensures Pow2(8) == 0x100 && Pow2(16) == 0x1_0000 && Pow2(24) == 0x100_0000
    ensures Pow2(31) == 0x8000_0000 && Pow2(32) == 0x1_0000_0000
  {
    assert Pow2(8) == 0x100;
    Pow2Plus(8, 8);
    Pow2Plus(16, 8);
    Pow2Plus(16, 16);
    assert 2 * Pow2(31) == Pow2(32);
  }

  // ---------------------------------------------------------------- C operators on words

  /** Bitwise or of two n-bit words. */
  function Or(a: nat, b: nat, n: nat): nat
    decreases n
  {
    if n == 0 then 0 else 2 * Or(a / 2, b / 2, n - 1) + (if a % 2 == 1 || b % 2 == 1 then 1 else 0)
  }

  /** Or-ing a number into the zero bits below a multiple of 2^k adds it. */
  lemma {:induction false} OrIsSum(a: nat, b: nat, k: nat, n: nat)
    requires k <= n && b < Pow2(k) && a * Pow2(k) < Pow2(n)
    ensures Or(a * Pow2(k), b, n) == a * Pow2(k) + b
    decreases n
  {
    if k == 0 {
      assert b == 0;
      OrWithZero(a, n);
    } else {
      var h := a * Pow2(k - 1);
      assert a * Pow2(k) == 2 * h;
      OrIsSum(a, b / 2, k - 1, n - 1);
    }
  }

  lemma {:induction false} OrWithZero(a: nat, n: nat)
    requires a < Pow2(n)
    ensures Or(a, 0, n) == a
    decreases n
  {
    if n == 0 {
    } else {
      OrWithZero(a / 2, n - 1);
    }
  }
}
