/** 32-bit unsigned arithmetic and the signed distance used to compare sequence
    numbers and clock values (`_itimediff`).

    Sequence numbers are handled under one of two arithmetics.  `Wrap32` is what the
    program executes.  `Unbounded` is the idealisation in which sequence numbers never
    wrap; the module KcpWrap relates the two. */
module Circular {

  const MODULUS := 0x1_0000_0000
  const HALF := 0x8000_0000

  datatype Arith = Wrap32 | Unbounded

  function U32(x: int): (r: int)
    ensures 0 <= r < MODULUS
  {
    x % MODULUS
  }

  predicate Word(x: int) { 0 <= x < MODULUS }

  /** Reinterprets a 32-bit word as a two's complement number. */
  function Signed(x: int): (r: int)
    requires 0 <= x < MODULUS
    ensures -HALF <= r < HALF
  {
    if x < HALF then x else x - MODULUS
  }

  /** The stored form of a sequence number. */
  function Norm(a: Arith, x: int): int {
    if a.Wrap32? then U32(x) else x
  }

  /** `_itimediff(later, earlier)`. */
  function Diff(a: Arith, later: int, earlier: int): int {
    if a.Wrap32? then Signed(U32(later - earlier)) else later - earlier
  }

  /** `_itimediff` on the millisecond clock, which is 32 bits wide in either arithmetic. */
  function TimeDiff(later: int, earlier: int): int {
    Diff(Wrap32, later, earlier)
  }

  /** The circular distance of two stored numbers is their true distance exactly
      when the true distance fits in 32 signed bits. */
  lemma WrappedDistanceIsTrue(later: int, earlier: int)
    ensures Diff(Wrap32, U32(later), U32(earlier)) == later - earlier
       <==> -HALF <= later - earlier < HALF
  {
    U32Minus(later, earlier);
  }

  lemma U32Minus(x: int, y: int)
    ensures U32(U32(x) - U32(y)) == U32(x - y)
  {
    var i, j := x / MODULUS, y / MODULUS;
    assert U32(x) - U32(y) == (x - y) - MODULUS * (i - j);
    U32Shift(x - y, j - i);
  }

  lemma U32Span(x: int, y: int)
    requires 0 <= x - y < MODULUS
    ensures U32(U32(x) - U32(y)) == x - y
  {
    U32Minus(x, y);
  }

  lemma U32Shift(x: int, k: int)
    ensures U32(x + MODULUS * k) == U32(x)
  {
  }

  lemma U32Plus(x: int, k: int)
    ensures U32(U32(x) + k) == U32(x + k)
  {
    U32Shift(U32(x) + k, x / MODULUS);
  }

  lemma DiffOfNorms(a: Arith, x: int, y: int)
    requires a.Unbounded? || -HALF <= x - y < HALF
    ensures Diff(a, Norm(a, x), Norm(a, y)) == x - y
  {
    if a.Wrap32? {
      WrappedDistanceIsTrue(x, y);
    }
  }

  lemma NormPlus(a: Arith, x: int, k: int)
    ensures Norm(a, Norm(a, x) + k) == Norm(a, x + k)
  {
    U32Plus(x, k);
  }

  lemma NormEqual(a: Arith, x: int, y: int)
    requires a.Unbounded? || -MODULUS < x - y < MODULUS
    ensures Norm(a, x) == Norm(a, y) <==> x == y
  {
    if a.Wrap32? && U32(x) == U32(y) {
      U32Minus(x, y);
    }
  }
}
