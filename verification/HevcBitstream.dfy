/** The bit writer: it fills 32-bit words from the top, byte-swaps a word when it is
    complete, and leaves whatever it likes above the live bits of the current word. */
module HevcBitstream {
  import opened Arithmetic
  import Slices
  import opened HevcBits
  import opened HevcExpGolomb

  const STEPPING := 4096
  const WORDS := 0x1_0000_0000
  /** Bits in a word. */
  const WIDTH: nat := 32

  /** `a | b` on words. */
  function Or32(a: nat, b: nat): nat { Or(a, b, WIDTH) }

  /** `va_swap32`. */
  function Swap32(w: nat): (r: nat)
    requires w < WORDS
    ensures r < WORDS
  {
    (w % 256) * 0x100_0000 + (w / 256 % 256) * 0x1_0000 + (w / 0x1_0000 % 256) * 256 + w / 0x100_0000
  }

  /** Byte `k` of a word in little-endian memory. */
  function ByteOf(w: nat, k: nat): (b: nat)
    requires k < 4
    ensures b < 256
  {
    (if k == 0 then w else if k == 1 then w / 256 else if k == 2 then w / 0x1_0000 else w / 0x100_0000) % 256
  }

  /** `w << n` on 32 bits. */
  function Shl32(w: nat, n: nat): (r: nat)
    ensures r < WORDS
  {
    Pow2Of32();
    (w * Pow2(n)) % Pow2(WIDTH)
  }

  lemma InFour(w: nat, a: nat, b: nat, c: nat, d: nat)
    requires w < WORDS && a == w % 256 && b == w / 256 % 256 && c == w / 0x1_0000 % 256 && d == w / 0x100_0000
    ensures a < 256 && b < 256 && c < 256 && d < 256
    ensures w == ((d * 256 + c) * 256 + b) * 256 + a
  {
    var x, y := w / 256, w / 0x1_0000;
    assert x / 256 == y && y / 256 == d;
    assert w == 256 * x + a && x == 256 * y + b && y == 256 * d + c;
  }

  lemma SwapReversesBytes(w: nat, k: nat)
    requires w < WORDS && k < 4
    ensures ByteOf(Swap32(w), k) == ByteOf(w, 3 - k)
  {
    hide ByteOf;
    var a, b, c, d := w % 256, w / 256 % 256, w / 0x1_0000 % 256, w / 0x100_0000;
    InFour(w, a, b, c, d);
    assert Swap32(w) == ((a * 256 + b) * 256 + c) * 256 + d;
    FourBytes(d, c, b, a, w);
    FourBytes(a, b, c, d, Swap32(w));
  }

  /** The bytes of a 32-bit value are its four groups of eight bits, most significant first. */
  lemma BytesOfValue(bs: seq<bool>, k: nat)
    requires |bs| == 32 && k < 4
    ensures Value(bs) < WORDS
    ensures ByteOf(Value(bs), 3 - k) == Value(bs[8 * k..8 * k + 8])
  {
    var b0, b1, b2, b3 := bs[0..8], bs[8..16], bs[16..24], bs[24..32];
    assert bs == b0 + b1 + b2 + b3;
    ValueConcat(b0, b1);
    ValueConcat(b0 + b1, b2);
    ValueConcat(b0 + b1 + b2, b3);
    Pow2Of32();
    ValueBelow(b0); ValueBelow(b1); ValueBelow(b2); ValueBelow(b3);
    FourBytes(Value(b0), Value(b1), Value(b2), Value(b3), Value(bs));
  }

  lemma FourBytes(a: nat, b: nat, c: nat, d: nat, w: nat)
    requires a < 256 && b < 256 && c < 256 && d < 256
    requires w == ((a * 256 + b) * 256 + c) * 256 + d
    ensures w < WORDS
    ensures ByteOf(w, 0) == d && ByteOf(w, 1) == c && ByteOf(w, 2) == b && ByteOf(w, 3) == a
  {
    assert w / 256 == (a * 256 + b) * 256 + c;
    assert w / 0x1_0000 == a * 256 + b;
    assert w / 0x100_0000 == a;
  }

  /** The live part of the current word, shifted up, followed by the top of a value. */
  lemma ShiftedWord(w: nat, live: nat, k: nat, v: nat, r: nat)
    requires live + k <= 32 && v < Pow2(k) && r == Or32(Shl32(w, k), v)
    ensures r < WORDS
    ensures r % Pow2(live + k) == (w % Pow2(live)) * Pow2(k) + v
  {
    hide Pow2;
    var l := 32 - k;
    var high := w % Pow2(l);
    ShlKeepsLow(w, k, l);
    WordBelow(high, l, k, v);
    OrIsSum(high, v, k, WIDTH);
    Pow2Of32();
    ModOfMod(w, live, l);
    ModOfSum(high, live, k, v, r, w % Pow2(live));
  }

  lemma ShlKeepsLow(w: nat, k: nat, l: nat)
    requires l + k == 32
    ensures Shl32(w, k) == (w % Pow2(l)) * Pow2(k)
  {
    hide Pow2;
    ModOfShifted(w, l, k);
    assert l + k == WIDTH;
  }

  lemma WordBelow(high: nat, l: nat, k: nat, v: nat)
    requires l + k == 32 && high < Pow2(l) && v < Pow2(k)
    ensures high * Pow2(k) + v < Pow2(WIDTH) && high * Pow2(k) < Pow2(WIDTH)
  {
    Pow2Plus(l, k);
    MulMonotone(high + 1, Pow2(l), Pow2(k));
    assert (high + 1) * Pow2(k) == high * Pow2(k) + Pow2(k);
  }

  lemma ModOfSum(high: nat, live: nat, k: nat, v: nat, r: nat, low: nat)
    requires v < Pow2(k) && r == high * Pow2(k) + v && low == high % Pow2(live)
    ensures r % Pow2(live + k) == low * Pow2(k) + v
  {
    Pow2Plus(live, k);
    ModOfProductSum(high, Pow2(live), Pow2(k), v);
  }

  lemma ModOfProductSum(x: nat, a: nat, b: nat, v: nat)
    requires a > 0 && v < b
    ensures a * b > 0 && (x * b + v) % (a * b) == (x % a) * b + v
  {
    var q, r := x / a, x % a;
    DivMod(x, a);
    MulMonotone(1, a, b);
    MulMonotone(r + 1, a, b);
    assert (r + 1) * b == r * b + b;
    MulMonotone(0, r, b);
    assert (q * a + r) * b == q * (a * b) + r * b;
    DivModUnique(x * b + v, a * b, q, r * b + v);
  }

  class Bitstream {
    var buffer: seq<nat>
    var bitOffset: nat
    /** The bits written so far, and the syntax elements they are the codes of. */
    ghost var bits: seq<bool>
    ghost var elems: seq<Elem>

    ghost predicate Valid()
      reads this
    {
      && bitOffset == |bits|
      && Holds(buffer, bits, bitOffset / 32, bitOffset % 32)
      && bits == AllBits(elems)
    }

    /** `bitstream_start`. */
    constructor ()
      ensures Valid() && bits == [] && elems == []
    {
      buffer := seq(STEPPING, _ => 0);
      bitOffset := 0;
      bits, elems := [], [];
      new;
      hide Holds;
      hide Value;
      EmptyHolds(buffer);
    }

    /** `put_ui`, for a value that fits its size.  Behind a whole number of words, but not at the
        start, 32 bits at once would shift a stale word by its own width. */
    method PutUi(val: nat, size: nat)
      requires Valid()
      requires val < Pow2(size) && (size <= 31 || (size == 32 && (bitOffset % 32 != 0 || bits == [])))
      modifies this
      ensures Valid() && elems == old(elems) + [U(size, val)] && bits == old(bits) + Bits(val, size)
    {
      hide Holds;
      hide Value;
      var pos, live := bitOffset / 32, bitOffset % 32;
      AllBitsOneMore(elems, U(size, val));
      elems := elems + [U(size, val)];
      if size == 0 {
        assert bits + Bits(val, 0) == bits;
      } else if 32 - live > size {
        PutWithin(val, size, pos, live);
      } else {
        PutAcross(val, size, pos, live);
      }
    }

    /** The value fits into the current word. */
    method PutWithin(val: nat, size: nat, pos: nat, live: nat)
      requires Holds(buffer, bits, pos, live) && bitOffset == |bits|
      requires val < Pow2(size) && 0 < size < 32 - live
      modifies `buffer, `bitOffset, `bits
      ensures bitOffset == |bits| && Holds(buffer, bits, bitOffset / 32, bitOffset % 32)
      ensures bits == old(bits) + Bits(val, size)
    {
      hide Value;
      var r := Or32(Shl32(buffer[pos], size), val);
      WithinWord(buffer, bits, pos, live, val, size, r);
      buffer := buffer[pos := r];
      bitOffset, bits := bitOffset + size, bits + Bits(val, size);
      SamePlace(pos, live + size, bitOffset);
    }

    /** The value completes the current word and leaves its low bits for the next one. */
    method PutAcross(val: nat, size: nat, pos: nat, live: nat)
      requires Holds(buffer, bits, pos, live) && bitOffset == |bits|
      requires val < Pow2(size) && 32 - live <= size
        && (size <= 31 || (size == 32 && (bitOffset % 32 != 0 || bits == [])))
      modifies `buffer, `bitOffset, `bits
      ensures bitOffset == |bits| && Holds(buffer, bits, bitOffset / 32, bitOffset % 32)
      ensures bits == old(bits) + Bits(val, size)
    {
      hide Value;
      var left, over := 32 - live, size - (32 - live);
      ghost var buffer0 := buffer;
      var r := Or32(Shl32(buffer[pos], left), Shr(val, over));
      WordIsFull(buffer, bits, pos, live, val, size, left, over, r);
      buffer := buffer[pos := r];
      buffer := buffer[pos := Swap32(buffer[pos])];
      assert buffer[..pos] == buffer0[..pos] && buffer[pos] == Swap32(r);
      if pos + 1 == |buffer| {
        assert |seq(STEPPING, _ => 0)| == STEPPING;
        var extra: seq<nat> :| |extra| == STEPPING;
        buffer := buffer + extra;
      }
      buffer := buffer[pos + 1 := val];
      AcrossWords(buffer0, buffer, bits, pos, live, val, size, left, over, r);
      bitOffset, bits := bitOffset + size, bits + Bits(val, size);
      SamePlace(pos + 1, over, bitOffset);
    }

    /** `put_ue`; the incremented value must stay below 2^31 for the shifting loop to end. */
    method PutUe(val: nat)
      requires Valid() && Fitting(Ue(val))
      modifies this
      ensures Valid() && elems == old(elems) + [Ue(val)]
    {
      hide Holds;
      hide Value;
      var size, tmp: nat := 0, val + 1;
      while tmp != 0
        invariant size + BitLength(tmp) == BitLength(val + 1)
        decreases tmp
      {
        tmp, size := tmp / 2, size + 1;
      }
      UeFits(val);
      PutCode(val, size);
    }

    /** The zeros and the number; together they are one ue(v) element. */
    method PutCode(val: nat, size: nat)
      requires Valid() && Fitting(Ue(val)) && 1 <= size <= 31
      requires size == BitLength(val + 1) && val + 1 < Pow2(size)
      modifies this
      ensures Valid() && elems == old(elems) + [Ue(val)]
    {
      hide Holds;
      hide Value;
      hide Bits;
      hide BitLength;
      hide UeBits;
      hide AllBits;
      ghost var elems0, bits0 := elems, bits;
      PutUi(0, size - 1);
      PutUi(val + 1, size);
      CodeInTwo(bits0, val, size);
      AllBitsOneMore(elems0, Ue(val));
      elems := elems0 + [Ue(val)];
    }

    /** `put_se`. */
    method PutSe(val: int)
      requires Valid() && Fitting(Se(val))
      modifies this
      ensures Valid() && elems == old(elems) + [Se(val)]
    {
      hide Holds;
      hide Value;
      ghost var elems0 := elems;
      PutUe(if val <= 0 then -2 * val else 2 * val - 1);
      AllBitsOneMore(elems0, Ue(SeCode(val)));
      AllBitsOneMore(elems0, Se(val));
      elems := elems0 + [Se(val)];
    }

    /** `byte_aligning`. */
    method ByteAligning(bit: nat)
      requires Valid() && bit <= 1
      modifies this
      ensures Valid() && elems == old(elems) + Alignment(|old(bits)|, bit) && |bits| % 8 == 0
    {
      hide Holds;
      hide Value;
      var offset := bitOffset % 8;
      var left := 8 - offset;
      if offset == 0 {
        assert elems + [] == elems;
        return;
      }
      SmallPowers(left);
      WholeBytes(|bits|, left);
      var newVal := if bit == 1 then Pow2(left) - 1 else 0;
      assert Alignment(|bits|, bit) == [U(left, newVal)];
      PutUi(newVal, left);
    }

    /** `rbsp_trailing_bits`. */
    method RbspTrailingBits()
      requires Valid()
      modifies this
      ensures Valid() && elems == old(elems) + [U(1, 1)] + Alignment(|old(bits)| + 1, 0) && |bits| % 8 == 0
    {
      hide Holds;
      hide Value;
      PutUi(1, 1);
      ByteAligning(0);
    }

    /** `nal_start_code_prefix`. */
    method NalStartCodePrefix(nalUnitType: nat)
      requires Valid() && bits == []
      modifies this
      ensures Valid() && elems == old(elems) + [StartCode(nalUnitType)]
    {
      hide Holds;
      hide Value;
      Pow2Of32();
      if nalUnitType == NALU_VPS || nalUnitType == NALU_SPS || nalUnitType == NALU_PPS || nalUnitType == NALU_AUD {
        PutUi(1, 32);
      } else {
        PutUi(1, 24);
      }
    }

    /** `nal_header`. */
    method NalHeader(nalUnitType: nat)
      requires Valid() && nalUnitType < 64
      modifies this
      ensures Valid() && elems == old(elems) + [U(1, 0), U(6, nalUnitType), U(6, 0), U(3, 1)]
    {
      hide Holds;
      hide Value;
      SmallPowers(6);
      PutUi(0, 1);
      PutUi(nalUnitType, 6);
      PutUi(0, 6);
      PutUi(1, 3);
    }

    /** `bitstream_end`: afterwards memory holds the bits packed into bytes, most
        significant bit first, padded with zeros to a whole word. */
    method End()
      requires Valid()
      modifies this`buffer
      ensures |buffer| == |old(buffer)| && 4 * WordCount(|bits|) <= 4 * |buffer|
      ensures forall j :: 0 <= j < 4 * WordCount(|bits|) ==>
                MemoryByte(buffer, j) == Value(PaddedByte(bits, j))
    {
      var pos, live := bitOffset / 32, bitOffset % 32;
      var left := 32 - live;
      ghost var buffer0 := buffer;
      if live != 0 {
        buffer := buffer[pos := Swap32(Shl32(buffer[pos], left))];
      }
      EndCompletes(buffer0, buffer, bits, pos, live);
      forall j | 0 <= j < 4 * WordCount(|bits|)
        ensures MemoryByte(buffer, j) == Value(PaddedByte(bits, j))
      {
        PaddedBytes(buffer, bits, j);
      }
    }
  }

  const NALU_VPS := 0x20
  const NALU_SPS := 0x21
  const NALU_PPS := 0x22
  const NALU_AUD := 0x23

  function StartCode(nalUnitType: nat): Elem {
    U(if NALU_VPS <= nalUnitType <= NALU_AUD then 32 else 24, 1)
  }

  /** What fills the current byte when `n` bits have been written. */
  function Alignment(n: nat, bit: nat): seq<Elem> {
    if n % 8 == 0 then [] else [U(8 - n % 8, if bit == 1 then Pow2(8 - n % 8) - 1 else 0)]
  }

  lemma WholeBytes(n: nat, left: nat)
    requires left == 8 - n % 8
    ensures (n + left) % 8 == 0
  {
  }

  lemma SmallPowers(n: nat)
    requires 1 <= n <= 8
    ensures 2 <= Pow2(n) && (n == 6 ==> Pow2(n) == 64) && Pow2(1) == 2 && Pow2(3) == 8
  {
    assert Pow2(6) == 64;
  }

  lemma UeFits(val: nat)
    requires Fitting(Ue(val))
    ensures 1 <= BitLength(val + 1) <= 31 && val + 1 < Pow2(BitLength(val + 1))
  {
    Pow2Of32();
    BitLengthBounds(val + 1);
    if BitLength(val + 1) > 31 {
      Pow2Monotone(31, BitLength(val + 1) - 1);
    }
  }

  /** A code is written in two pieces. */
  lemma CodeInTwo(bits: seq<bool>, val: nat, size: nat)
    requires size == BitLength(val + 1) && size >= 1
    ensures bits + Bits(0, size - 1) + Bits(val + 1, size) == bits + UeBits(val)
  {
    hide Bits;
    hide BitLength;
    BitsOfZero(size - 1);
  }

  lemma AllBitsOneMore(es: seq<Elem>, e: Elem)
    ensures AllBits(es + [e]) == AllBits(es) + ElemBits(e)
  {
    AllBitsAppend(es, [e]);
    assert [e][1..] == [];
    assert ElemBits(e) + [] == ElemBits(e);
  }

  /** Completed words are the swapped values of their 32 bits; the current word holds the
      remaining bits at its bottom, under arbitrary junk. */
  ghost predicate Holds(buffer: seq<nat>, bits: seq<bool>, pos: nat, live: nat) {
    && |bits| == 32 * pos + live && live < 32
    && pos < |buffer|
    && Completed(buffer, bits, pos)
    && buffer[pos] < WORDS
    && buffer[pos] % Pow2(live) == Value(bits[32 * pos..])
    && (bits == [] ==> buffer[0] == 0)
  }

  lemma EmptyHolds(buffer: seq<nat>)
    requires |buffer| > 0 && buffer[0] == 0
    ensures Holds(buffer, [], 0, 0)
  {
  }

  lemma SamePlace(pos: nat, live: nat, offset: nat)
    requires live < 32 && offset == 32 * pos + live
    ensures offset / 32 == pos && offset % 32 == live
  {
  }

  ghost predicate Completed(buffer: seq<nat>, bits: seq<bool>, n: nat)
    requires 32 * n <= |bits| && n <= |buffer|
  {
    forall i :: 0 <= i < n ==> WordHolds(buffer[i], bits, i)
  }

  ghost predicate WordHolds(w: nat, bits: seq<bool>, i: nat)
    requires 32 * i + 32 <= |bits|
  {
    Value(bits[32 * i..32 * i + 32]) < WORDS && w == Swap32(Value(bits[32 * i..32 * i + 32]))
  }

  lemma CompletedExtends(buffer: seq<nat>, buffer1: seq<nat>, bits: seq<bool>, bits1: seq<bool>, n: nat)
    requires 32 * n <= |bits| && n <= |buffer| && n <= |buffer1| && bits <= bits1
    requires Completed(buffer, bits, n) && buffer1[..n] == buffer[..n]
    ensures Completed(buffer1, bits1, n)
  {
    hide Value;
    forall i | 0 <= i < n ensures WordHolds(buffer1[i], bits1, i) {
      assert WordHolds(buffer[i], bits, i);
      assert bits1[32 * i..32 * i + 32] == bits[32 * i..32 * i + 32];
      assert buffer1[i] == buffer1[..n][i] == buffer[..n][i];
    }
  }

  lemma AppendValue(tail: seq<bool>, val: nat, size: nat)
    requires val < Pow2(size)
    ensures Value(tail + Bits(val, size)) == Value(tail) * Pow2(size) + val
  {
    hide Value;
    ValueConcat(tail, Bits(val, size));
    ValueOfBits(val, size);
  }

  /** Shifting `v` into a word appends its bits to the live ones. */
  lemma WordAppends(w: nat, live: nat, k: nat, v: nat, tail: seq<bool>, r: nat)
    requires live + k <= 32 && v < Pow2(k) && w % Pow2(live) == Value(tail)
    requires r == Or32(Shl32(w, k), v)
    ensures r < WORDS && r % Pow2(live + k) == Value(tail + Bits(v, k))
    ensures live + k == 32 ==> r == Value(tail + Bits(v, k))
  {
    hide Value;
    ShiftedWord(w, live, k, v, r);
    AppendValue(tail, v, k);
    if live + k == 32 {
      WholeWord(r);
    }
  }

  lemma WholeWord(r: nat)
    requires r < WORDS
    ensures r % Pow2(WIDTH) == r
  {
    Pow2Of32();
    ModSmall(r, Pow2(WIDTH));
  }

  /** The value fits into the current word. */
  lemma WithinWord(buffer: seq<nat>, bits: seq<bool>, pos: nat, live: nat, val: nat, size: nat, r: nat)
    requires Holds(buffer, bits, pos, live) && 0 < size && live + size < 32 && val < Pow2(size)
    requires r == Or32(Shl32(buffer[pos], size), val)
    ensures Holds(buffer[pos := r], bits + Bits(val, size), pos, live + size)
  {
    hide Value;
    WordAppends(buffer[pos], live, size, val, bits[32 * pos..], r);
    ReplaceCurrent(buffer, bits, pos, live, Bits(val, size), r);
  }

  lemma ReplaceCurrent(buffer: seq<nat>, bits: seq<bool>, pos: nat, live: nat, more: seq<bool>, r: nat)
    requires Holds(buffer, bits, pos, live) && 0 < |more| && live + |more| < 32
    requires r < WORDS && r % Pow2(live + |more|) == Value(bits[32 * pos..] + more)
    ensures Holds(buffer[pos := r], bits + more, pos, live + |more|)
  {
    hide Value;
    assert (bits + more)[32 * pos..] == bits[32 * pos..] + more;
    CompletedExtends(buffer, buffer[pos := r], bits, bits + more, pos);
  }

  /** The word that the top bits of the value complete; its junk is shifted out. */
  ghost function FullWord(bits: seq<bool>, pos: nat, left: nat, val: nat, over: nat): seq<bool>
    requires 32 * pos <= |bits|
  {
    bits[32 * pos..] + Bits(Shr(val, over), left)
  }

  lemma WordIsFull(buffer: seq<nat>, bits: seq<bool>, pos: nat, live: nat, val: nat, size: nat, left: nat, over: nat,
      r: nat)
    requires Holds(buffer, bits, pos, live) && val < Pow2(size) && live + left == 32 && size == left + over
    requires r == Or32(Shl32(buffer[pos], left), Shr(val, over))
    ensures r < WORDS && |FullWord(bits, pos, left, val, over)| == 32
    ensures r == Value(FullWord(bits, pos, left, val, over))
  {
    hide Value;
    ShrBelow(val, left, over);
    WordAppends(buffer[pos], live, left, Shr(val, over), bits[32 * pos..], r);
  }

  /** The value straddles two words, or ends with the current one. */
  lemma AcrossWords(buffer: seq<nat>, buffer1: seq<nat>, bits: seq<bool>, pos: nat, live: nat, val: nat, size: nat,
      left: nat, over: nat, r: nat)
    requires Holds(buffer, bits, pos, live) && val < Pow2(size) && live + left == 32 && size == left + over
      && over < 32 && size <= 32
    requires pos + 1 < |buffer1| && buffer1[..pos] == buffer[..pos] && buffer1[pos + 1] == val
    requires r < WORDS && r == Value(FullWord(bits, pos, left, val, over)) && buffer1[pos] == Swap32(r)
    ensures Holds(buffer1, bits + Bits(val, size), pos + 1, over)
  {
    hide Bits;
    hide Shr;
    hide Pow2;
    hide Swap32;
    hide Value;
    var bits1 := bits + Bits(val, size);
    BitsSplit(val, left, over);
    CompletedExtends(buffer, buffer1, bits, bits1, pos);
    assert bits1[32 * pos..32 * pos + 32] == FullWord(bits, pos, left, val, over);
    assert WordHolds(buffer1[pos], bits1, pos);
    assert bits1[32 * (pos + 1)..] == Bits(val, over);
    NewWord(val, size, over);
  }

  /** The next word starts with the whole value; only its low bits are live. */
  lemma NewWord(val: nat, size: nat, over: nat)
    requires val < Pow2(size) && size <= 32 && over < size
    ensures val < WORDS && val % Pow2(over) == Value(Bits(val, over))
  {
    Pow2Of32();
    Pow2Monotone(size, WIDTH);
    BitsOfMod(val, over);
    ValueOfBits(val % Pow2(over), over);
  }

  function WordCount(n: nat): nat { (n + 31) / 32 }

  /** The bits followed by zeros up to a whole number of words. */
  function Padded(bits: seq<bool>): (p: seq<bool>)
    ensures |p| == 32 * WordCount(|bits|) && bits <= p
    ensures forall i :: |bits| <= i < |p| ==> !p[i]
  {
    bits + Zeros(32 * WordCount(|bits|) - |bits|)
  }

  /** Bits 8j to 8j+7 of the padded string. */
  function PaddedByte(bits: seq<bool>, j: nat): seq<bool>
    requires j < 4 * WordCount(|bits|)
  {
    Padded(bits)[8 * j..8 * j + 8]
  }

  /** Byte `j` of the buffer as it lies in little-endian memory. */
  function MemoryByte(buffer: seq<nat>, j: nat): nat
    requires j < 4 * |buffer|
  {
    ByteOf(buffer[j / 4], j % 4)
  }

  /** After the last partial word has been shifted up, every word is complete. */
  lemma EndCompletes(buffer: seq<nat>, buffer1: seq<nat>, bits: seq<bool>, pos: nat, live: nat)
    requires Holds(buffer, bits, pos, live)
    requires buffer1 == if live == 0 then buffer else buffer[pos := Swap32(Shl32(buffer[pos], 32 - live))]
    ensures WordCount(|bits|) <= |buffer1| && Completed(buffer1, Padded(bits), WordCount(|bits|))
  {
    hide Value;
    var n := WordCount(|bits|);
    assert n == if live == 0 then pos else pos + 1;
    var padded := Padded(bits);
    CompletedExtends(buffer, buffer1, bits, padded, pos);
    if live != 0 {
      var tail := bits[32 * pos..];
      ZeroShifted(buffer[pos], live, tail);
      assert padded[32 * pos..32 * pos + 32] == tail + Zeros(32 - live);
      assert WordHolds(buffer1[pos], padded, pos);
    }
  }

  lemma ZeroShifted(w: nat, live: nat, tail: seq<bool>)
    requires live < 32 && w % Pow2(live) == Value(tail)
    ensures Shl32(w, 32 - live) == Value(tail + Zeros(32 - live)) < WORDS
  {
    hide Value;
    var k, h := 32 - live, Value(tail);
    ShlIs(w, k, live, h);
    ValueWithZeros(tail, k);
  }

  lemma ShlIs(w: nat, k: nat, l: nat, h: nat)
    requires l + k == 32 && w % Pow2(l) == h
    ensures Shl32(w, k) == h * Pow2(k)
  {
    ShlKeepsLow(w, k, l);
  }

  lemma PaddedBytes(buffer: seq<nat>, bits: seq<bool>, j: nat)
    requires WordCount(|bits|) <= |buffer| && Completed(buffer, Padded(bits), WordCount(|bits|))
    requires j < 4 * WordCount(|bits|)
    ensures MemoryByte(buffer, j) == Value(PaddedByte(bits, j))
  {
    hide Value;
    hide Swap32;
    hide ByteOf;
    var i, k := j / 4, j % 4;
    assert WordHolds(buffer[i], Padded(bits), i);
    var word := Padded(bits)[32 * i..32 * i + 32];
    assert buffer[i] == Swap32(Value(word));
    BytesOfValue(word, k);
    SwapReversesBytes(Value(word), k);
    ByteOfWord(Padded(bits), i, k, j);
  }

  lemma ByteOfWord(bits: seq<bool>, i: nat, k: nat, j: nat)
    requires k < 4 && j == 4 * i + k && 32 * i + 32 <= |bits|
    ensures bits[32 * i..32 * i + 32][8 * k..8 * k + 8] == bits[8 * j..8 * j + 8]
  {
    Slices.SliceOfSlice(bits, 32 * i, 32 * i + 32, 8 * k, 8 * k + 8);
  }
}
