/** Exp-Golomb codes (section 9.2 of ITU-T H.265): the writer's codes and the standard's
    parsing process, which is their inverse. */
module HevcExpGolomb {
  import opened HevcBits

  datatype Read<+T> = Fail | Got(value: T, rest: seq<bool>) {
    predicate IsFailure() { Fail? }

    function PropagateFailure<U>(): Read<U>
      requires Fail?
    {
      Fail
    }

    function Extract(): (T, seq<bool>)
      requires Got?
    {
      (value, rest)
    }
  }

  function BitLength(v: nat): nat {
    if v == 0 then 0 else 1 + BitLength(v / 2)
  }

  /** What `put_ue` writes: leading zeros, then the number plus one. */
  function UeBits(v: nat): seq<bool> {
    Zeros(BitLength(v + 1) - 1) + Bits(v + 1, BitLength(v + 1))
  }

  /** The mapping `put_se` applies before `put_ue`. */
  function SeCode(v: int): nat {
    if v <= 0 then -2 * v else 2 * v - 1
  }

  function LeadingZeros(bs: seq<bool>): (n: nat)
    ensures n <= |bs| && (forall i :: 0 <= i < n ==> !bs[i]) && (n < |bs| ==> bs[n])
  {
    if |bs| == 0 || bs[0] then 0 else 1 + LeadingZeros(bs[1..])
  }

  /** u(n). */
  function ReadU(n: nat, bs: seq<bool>): Read<nat> {
    if |bs| < n then Fail else Got(Value(bs[..n]), bs[n..])
  }

  /** ue(v), by equation 9-2 of the standard. */
  function ReadUe(bs: seq<bool>): Read<nat> {
    var z := LeadingZeros(bs);
    if |bs| < 2 * z + 1 then Fail
    else Got(Pow2(z) - 1 + Value(bs[z + 1..2 * z + 1]), bs[2 * z + 1..])
  }

  /** se(v), by table 9-3 of the standard. */
  function SeValue(code: nat): int {
    if code % 2 == 1 then (code + 1) / 2 else -(code / 2)
  }

  function ReadSe(bs: seq<bool>): Read<int> {
    match ReadUe(bs)
    case Fail => Fail
    case Got(code, rest) => Got(SeValue(code), rest)
  }

  lemma {:induction false} BitLengthBounds(v: nat)
    requires v > 0
    ensures BitLength(v) > 0 && Pow2(BitLength(v) - 1) <= v < Pow2(BitLength(v))
  {
    if v <= 1 {
    } else {
      BitLengthBounds(v / 2);
    }
  }

  lemma {:induction false} BitLengthUnique(v: nat, n: nat)
    requires n > 0 && Pow2(n - 1) <= v < Pow2(n)
    ensures BitLength(v) == n
    decreases n
  {
    if n <= 1 {
    } else {
      BitLengthUnique(v / 2, n - 1);
    }
  }

  /** A number in its own length starts with a one. */
  lemma TopBit(v: nat, n: nat)
    requires n > 0 && Pow2(n - 1) <= v < Pow2(n)
    ensures Bits(v, n)[0] && Value(Bits(v, n)[1..]) == v - Pow2(n - 1)
  {
    var bs := Bits(v, n);
    assert bs == bs[..1] + bs[1..];
    ValueConcat(bs[..1], bs[1..]);
    ValueOfBits(v, n);
    ValueBelow(bs[1..]);
    assert bs[..1][..0] == [];
    assert Value(bs[..1]) == if bs[0] then 1 else 0;
  }

  lemma {:induction false} LeadingZerosOf(n: nat, bs: seq<bool>)
    requires |bs| > 0 && bs[0]
    ensures LeadingZeros(Zeros(n) + bs) == n
  {
    if n > 0 {
      assert (Zeros(n) + bs)[1..] == Zeros(n - 1) + bs;
      LeadingZerosOf(n - 1, bs);
    } else {
      assert Zeros(0) + bs == bs;
    }
  }

  /** How a code is cut up: z zeros, a one, and z further bits. */
  lemma ReadUeOf(z: nat, low: seq<bool>, rest: seq<bool>, bs: seq<bool>)
    requires |low| == z && bs == Zeros(z) + ([true] + low + rest)
    ensures ReadUe(bs) == Got(Pow2(z) - 1 + Value(low), rest)
  {
    hide Value;
    hide Pow2;
    LeadingZerosOf(z, [true] + low + rest);
    assert LeadingZeros(bs) == z;
    var head := z + 1;
    var end := head + z;
    assert bs[head..end] == low;
    assert bs[end..] == rest;
    assert end == 2 * z + 1;
  }

  lemma UeBitsAre(v: nat, z: nat, low: seq<bool>)
    requires Pow2(z) <= v + 1 < Pow2(z + 1) && low == Bits(v + 1, z + 1)[1..]
    ensures UeBits(v) == Zeros(z) + ([true] + low)
    ensures Value(low) == v + 1 - Pow2(z)
  {
    BitLengthUnique(v + 1, z + 1);
    TopBit(v + 1, z + 1);
    assert Bits(v + 1, z + 1) == [true] + low;
  }

  /** The parsing process of section 9.2 recovers what `put_ue` wrote. */
  lemma UeRoundTrip(v: nat, rest: seq<bool>)
    ensures ReadUe(UeBits(v) + rest) == Got(v, rest)
  {
    BitLengthBounds(v + 1);
    var z := BitLength(v + 1) - 1;
    var low := Bits(v + 1, z + 1)[1..];
    UeBitsAre(v, z, low);
    var bs := UeBits(v) + rest;
    assert bs == Zeros(z) + ([true] + low + rest);
    ReadUeOf(z, low, rest, bs);
  }

  lemma SeRoundTrip(v: int, rest: seq<bool>)
    ensures ReadSe(UeBits(SeCode(v)) + rest) == Got(v, rest)
  {
    UeRoundTrip(SeCode(v), rest);
  }

  lemma URoundTrip(n: nat, v: nat, rest: seq<bool>)
    requires v < Pow2(n)
    ensures ReadU(n, Bits(v, n) + rest) == Got(v, rest)
  {
    ValueOfBits(v, n);
    assert (Bits(v, n) + rest)[..n] == Bits(v, n) && (Bits(v, n) + rest)[n..] == rest;
  }

  /** Codes are prefix-free: what follows never changes how a code is split off. */
  lemma UePrefixFree(v: nat, w: nat, r: seq<bool>, s: seq<bool>)
    requires UeBits(v) + r == UeBits(w) + s
    ensures v == w && r == s
  {
    UeRoundTrip(v, r);
    UeRoundTrip(w, s);
  }

  /** Conversely, whatever is parsed is the code of what it is parsed as. */
  lemma UeCanonical(bs: seq<bool>)
    requires ReadUe(bs).Got?
    ensures bs == UeBits(ReadUe(bs).value) + ReadUe(bs).rest
  {
    hide Value;
    hide Pow2;
    hide LeadingZeros;
    var z := LeadingZeros(bs);
    var end := 2 * z + 1;
    var low, rest := bs[z + 1..end], bs[end..];
    var v := ReadUe(bs).value;
    TopBitIsOne(low, z, v + 1);
    UeBitsAre(v, z, low);
    LeadingZerosAre(bs, z);
    CodeParts(bs, z);
  }

  lemma LeadingZerosAre(bs: seq<bool>, z: nat)
    requires z == LeadingZeros(bs) && z < |bs|
    ensures bs[..z] == Zeros(z) && bs[z]
  {
  }

  lemma CodeParts(bs: seq<bool>, z: nat)
    requires 2 * z + 1 <= |bs| && bs[z]
    ensures bs == bs[..z] + ([true] + bs[z + 1..2 * z + 1]) + bs[2 * z + 1..]
  {
  }

  lemma TopBitIsOne(low: seq<bool>, z: nat, w: nat)
    requires |low| == z && w == Pow2(z) + Value(low)
    ensures Pow2(z) <= w < Pow2(z + 1) && Bits(w, z + 1)[1..] == low
  {
    ValueBelow(low);
    ValueConcat([true], low);
    assert [true][..0] == [];
    assert Value([true]) == 1;
    var b := [true] + low;
    assert Value(b) == w;
    BitsOfValue(b);
    assert b[1..] == low;
  }

  lemma SeCanonical(bs: seq<bool>)
    requires ReadSe(bs).Got?
    ensures bs == UeBits(SeCode(ReadSe(bs).value)) + ReadSe(bs).rest
  {
    UeCanonical(bs);
  }

  lemma UCanonical(n: nat, bs: seq<bool>)
    requires ReadU(n, bs).Got?
    ensures bs == Bits(ReadU(n, bs).value, n) + ReadU(n, bs).rest && ReadU(n, bs).value < Pow2(n)
  {
    BitsOfValue(bs[..n]);
    ValueBelow(bs[..n]);
    assert bs == bs[..n] + bs[n..];
  }

  // ---------------------------------------------------------------- lists of syntax elements

  datatype Elem = U(size: nat, val: nat) | Ue(uval: nat) | Se(sval: int)

  datatype Kind = KU(size: nat) | KUe | KSe

  function KindOf(e: Elem): Kind {
    match e
    case U(size, _) => KU(size)
    case Ue(_) => KUe
    case Se(_) => KSe
  }

  function ElemBits(e: Elem): seq<bool> {
    match e
    case U(size, val) => Bits(val, size)
    case Ue(val) => UeBits(val)
    case Se(val) => UeBits(SeCode(val))
  }

  function AllBits(es: seq<Elem>): seq<bool> {
    if |es| == 0 then [] else ElemBits(es[0]) + AllBits(es[1..])
  }

  function Kinds(es: seq<Elem>): (ks: seq<Kind>)
    ensures |ks| == |es| && forall i :: 0 <= i < |es| ==> ks[i] == KindOf(es[i])
  {
    seq(|es|, i requires 0 <= i < |es| => KindOf(es[i]))
  }

  function ReadElem(k: Kind, bs: seq<bool>): Read<Elem> {
    match k
    case KU(n) => (match ReadU(n, bs) case Fail => Fail case Got(v, rest) => Got(U(n, v), rest))
    case KUe => (match ReadUe(bs) case Fail => Fail case Got(v, rest) => Got(Ue(v), rest))
    case KSe => (match ReadSe(bs) case Fail => Fail case Got(v, rest) => Got(Se(v), rest))
  }

  function ReadAll(ks: seq<Kind>, bs: seq<bool>): (r: Read<seq<Elem>>)
    ensures r.Got? ==> |r.value| == |ks| && forall i :: 0 <= i < |ks| ==> KindOf(r.value[i]) == ks[i]
    decreases |ks|
  {
    if |ks| == 0 then Got([], bs)
    else
      var (e, bs1) :- ReadElem(ks[0], bs);
      var (es, bs2) :- ReadAll(ks[1..], bs1);
      Got([e] + es, bs2)
  }

  /** The element fits its descriptor, and the writer's loops. */
  predicate Fitting(e: Elem) {
    match e
    case U(size, val) => size <= 31 && val < Pow2(size)
    case Ue(val) => val < 0x7fff_ffff
    case Se(val) => SeCode(val) < 0x7fff_ffff
  }

  predicate AllFitting(es: seq<Elem>) { forall e :: e in es ==> Fitting(e) }

  lemma ElemRoundTrip(e: Elem, rest: seq<bool>)
    requires e.U? ==> e.val < Pow2(e.size)
    ensures ReadElem(KindOf(e), ElemBits(e) + rest) == Got(e, rest)
  {
    match e {
      case U(size, val) => URoundTrip(size, val, rest);
      case Ue(val) => UeRoundTrip(val, rest);
      case Se(val) => SeRoundTrip(val, rest);
    }
  }

  /** Any list of elements is read back by its own descriptors. */
  lemma {:induction false} ListRoundTrip(es: seq<Elem>, ks: seq<Kind>, rest: seq<bool>)
    requires ks == Kinds(es) && forall e :: e in es && e.U? ==> e.val < Pow2(e.size)
    ensures ReadAll(ks, AllBits(es) + rest) == Got(es, rest)
    decreases |es|
  {
    hide KindOf;
    hide Kinds;
    hide ElemBits;
    hide ReadElem;
    hide Pow2;
    if |es| > 0 {
      var tail := AllBits(es[1..]) + rest;
      assert AllBits(es) + rest == ElemBits(es[0]) + tail;
      assert es[0] in es && ks[0] == KindOf(es[0]) && ks[1..] == Kinds(es[1..]);
      ElemRoundTrip(es[0], tail);
      ListRoundTrip(es[1..], ks[1..], rest);
      assert es == [es[0]] + es[1..];
    } else {
      assert [] + rest == rest;
    }
  }

  lemma ElemCanonical(k: Kind, bs: seq<bool>)
    requires ReadElem(k, bs).Got?
    ensures bs == ElemBits(ReadElem(k, bs).value) + ReadElem(k, bs).rest
  {
    match k {
      case KU(n) => UCanonical(n, bs);
      case KUe => UeCanonical(bs);
      case KSe => SeCanonical(bs);
    }
  }

  lemma AllBitsOfOneMore(e: Elem, es: seq<Elem>)
    ensures AllBits([e] + es) == ElemBits(e) + AllBits(es)
  {
    assert ([e] + es)[1..] == es;
  }

  /** Whatever list is read, its own bits were there. */
  lemma {:induction false} ListCanonical(ks: seq<Kind>, bs: seq<bool>)
    requires ReadAll(ks, bs).Got?
    ensures bs == AllBits(ReadAll(ks, bs).value) + ReadAll(ks, bs).rest
    decreases |ks|
  {
    hide ReadElem;
    hide ElemBits;
    if |ks| == 0 {
      assert [] + bs == bs;
    } else {
      var (e, bs1) := ReadElem(ks[0], bs).Extract();
      var (es, bs2) := ReadAll(ks[1..], bs1).Extract();
      assert ReadAll(ks, bs) == Got([e] + es, bs2);
      ElemCanonical(ks[0], bs);
      ListCanonical(ks[1..], bs1);
      AllBitsOfOneMore(e, es);
      assert ElemBits(e) + (AllBits(es) + bs2) == (ElemBits(e) + AllBits(es)) + bs2;
    }
  }

  lemma {:induction false} AllBitsAppend(es: seq<Elem>, fs: seq<Elem>)
    ensures AllBits(es + fs) == AllBits(es) + AllBits(fs)
  {
    if |es| == 0 {
      assert es + fs == fs;
    } else {
      assert (es + fs)[1..] == es[1..] + fs;
      AllBitsAppend(es[1..], fs);
    }
  }
}
