/** Coding order and display order of the frames of a stream, and the reference sets that
    the sequence parameter set announces for it. */
module HevcOrder {
  import opened Arithmetic

  datatype FrameType = IDR | I | P | B

  /** The three periods, with 0 for an infinite one. */
  datatype Periods = Periods(intra: nat, idr: nat, ip: nat) {
    /** What the comment above `encoding2display_order` demands of them. */
    predicate Valid() {
      && ip >= 1
      && (intra >= 2 ==> (intra - 1) % ip == 0)
      && (intra >= 1 && idr >= 1 ==> idr % intra == 0)
    }

    /** Is there a next IDR frame? */
    predicate Repeats() { intra != 0 && idr != 0 }

    /** Frames from one IDR frame to the next, in coding order. */
    function Length(): nat
      requires Repeats()
    {
      if intra == 1 || ip == 1 then idr else idr + 1
    }
  }

  /** Distance from the last IDR frame, in coding order. */
  function Gop(p: Periods, e: nat): (g: nat)
    ensures g <= e
    ensures p.Repeats() ==> g < p.Length()
  {
    if p.Repeats() then e % p.Length() else e
  }

  /** `encoding2display_order`: display position and type of the frame coded as number `e`. */
  function Order(p: Periods, e: nat): (r: (nat, FrameType))
    requires p.Valid()
  {
    if p.intra == 1 then
      (e, if p.idr == 0 then (if e == 0 then IDR else I) else if e % p.idr == 0 then IDR else I)
    else
      var idr := if p.intra == 0 then 0 else p.idr;
      ModAtMost(e, idr + (if p.ip == 1 then 0 else 1));
      var g := if idr == 0 then e else e % (idr + (if p.ip == 1 then 0 else 1));
      if g == 0 then (e, IDR)
      else if (g - 1) % p.ip != 0 then (e - 1, B)
      else (e + p.ip - 1, AnchorType(p, g))
  }

  function AnchorType(p: Periods, g: nat): FrameType
    requires p.Valid() && p.intra != 1 && g >= 1
  {
    if p.intra != 0 && g >= 2 && StartsIntra(p, g) then I else P
  }

  predicate StartsIntra(p: Periods, g: nat)
    requires p.Valid() && p.intra >= 2 && g >= 1
  {
    MiniGopsPositive(p);
    (p.ip == 1 && g % (p.intra - 1) == 0) || (p.ip >= 2 && (g - 1) / p.ip % MiniGops(p) == 0)
  }

  /** Groups of one anchor and its B frames between two intra frames; not 0 for valid periods. */
  function MiniGops(p: Periods): int
    requires p.ip >= 1
  {
    (p.intra - 1) / p.ip
  }

  function Display(p: Periods, e: nat): nat
    requires p.Valid()
  {
    Order(p, e).0
  }

  /** Where the code divides by it, the number of groups is positive. */
  lemma MiniGopsPositive(p: Periods)
    requires p.Valid() && p.intra >= 2
    ensures MiniGops(p) > 0
  {
    if p.intra - 1 < p.ip {
      ModSmall(p.intra - 1, p.ip);
    }
  }

  /** The position inside its own IDR block where a frame is shown. */
  function Shown(p: Periods, g: nat): nat
    requires p.ip >= 1
  {
    if p.intra == 1 || g == 0 then g else if (g - 1) % p.ip != 0 then g - 1 else g + p.ip - 1
  }

  /** Frames are moved inside the blocks only, by the same rule in each. */
  lemma DisplayIs(p: Periods, e: nat)
    requires p.Valid()
    ensures Display(p, e) == e - Gop(p, e) + Shown(p, Gop(p, e))
    ensures Order(p, e).1 == IDR <==> Gop(p, e) == 0
    ensures p.intra != 1 ==> (Order(p, e).1 == B <==> Gop(p, e) > 0 && (Gop(p, e) - 1) % p.ip != 0)
    ensures p.intra == 1 ==> Order(p, e).1 != B
  {
  }

  /** No frame is shown before the IDR frame it belongs to, and none moves by as much as a
      group of frames. */
  lemma MovesLittle(p: Periods, e: nat)
    requires p.Valid()
    ensures -1 <= Display(p, e) - e <= p.ip - 1
    ensures Display(p, e) >= e - Gop(p, e)
    ensures p.ip == 1 ==> Display(p, e) == e
  {
    DisplayIs(p, e);
    if p.ip == 1 {
      assert forall x: int :: x % 1 == 0;
    }
  }

  // ---------------------------------------------------------------- when it is a permutation

  /** Groups of frames never cross the end of a block. */
  predicate Aligned(p: Periods)
    requires p.ip >= 1
  {
    p.intra <= 1 || p.idr == 0 || p.ip == 1 || p.idr % p.ip == 0
  }

  /** The inverse inside a block: which frame is shown at position `d`. */
  function CodedAt(p: Periods, d: nat): nat
    requires p.ip >= 1
  {
    if p.intra == 1 || d == 0 then d else if d % p.ip == 0 then d - p.ip + 1 else d + 1
  }

  lemma StepMod(g: nat, ip: nat)
    requires ip >= 1 && g >= 1
    ensures (g - 1) % ip == 0 ==> (g + ip - 1) % ip == 0
    ensures g % ip == 0 ==> g >= ip
    ensures g >= ip && g % ip == 0 ==> (g - ip) % ip == 0
  {
    DivMod(g - 1, ip);
    var q, r := (g - 1) / ip, (g - 1) % ip;
    if r == 0 {
      DivModUnique(g + ip - 1, ip, q + 1, 0);
    }
    if g % ip == 0 {
      DivMod(g, ip);
      MulAtLeastOne(g / ip, ip);
      DivModUnique(g - ip, ip, g / ip - 1, 0);
    }
  }

  lemma MulAtLeastOne(q: int, m: nat)
    requires m >= 1 && q * m >= 1
    ensures q >= 1 && q * m >= m && (q - 1) * m == q * m - m
  {
    if q <= 0 {
      MulMonotone(q, 0, m);
    } else {
      MulMonotone(1, q, m);
    }
  }

  lemma InverseInBlock(p: Periods, g: nat)
    requires p.ip >= 1
    ensures CodedAt(p, Shown(p, g)) == g
    ensures Shown(p, CodedAt(p, g)) == g
  {
    if p.intra != 1 && g > 0 {
      StepMod(g, p.ip);
      if p.ip == 1 {
        assert forall x: int :: x % 1 == 0;
      } else if (g - 1) % p.ip != 0 {
        assert 0 % p.ip == 0 by { ModSmall(0, p.ip); }
        assert g != 1;
      }
    }
  }

  /** With aligned groups a block is shown inside itself. */
  lemma StaysInBlock(p: Periods, g: nat)
    requires p.Valid() && Aligned(p) && p.Repeats() && g < p.Length()
    ensures Shown(p, g) < p.Length() && CodedAt(p, g) < p.Length()
  {
    if p.intra != 1 && p.ip > 1 && g > 0 {
      var d := p.idr;
      DivMod(d, p.ip);
      if (g - 1) % p.ip == 0 {
        DivMod(g - 1, p.ip);
        var q, m := (g - 1) / p.ip, d / p.ip;
        if q >= m {
          MulMonotone(m, q, p.ip);
        }
        MulMonotone(q + 1, m, p.ip);
        assert (q + 1) * p.ip == q * p.ip + p.ip;
      }
    }
  }

  /** Adding whole blocks does not change the position in a block. */
  lemma SameBlock(p: Periods, e: nat, s: nat)
    requires p.Valid() && p.Repeats() && s < p.Length()
    ensures Gop(p, e - Gop(p, e) + s) == s
    ensures (e - Gop(p, e) + s) / p.Length() == e / p.Length()
  {
    var l := p.Length();
    DivMod(e, l);
    DivModUnique(e / l * l + s, l, e / l, s);
  }

  /** The frame shown at position `d` of the stream. */
  function CodedFrame(p: Periods, d: nat): (e: int)
    requires p.Valid()
  {
    d - Gop(p, d) + CodedAt(p, Gop(p, d))
  }

  /** With aligned groups, coding order and display order are inverse to each other, block by
      block. */
  lemma Inverse(p: Periods, n: nat)
    requires p.Valid() && Aligned(p)
    ensures CodedFrame(p, Display(p, n)) == n
    ensures CodedFrame(p, n) >= 0 && Display(p, CodedFrame(p, n)) == n
    ensures p.Repeats() ==> Display(p, n) / p.Length() == n / p.Length()
  {
    var g := Gop(p, n);
    DisplayIs(p, n);
    InverseInBlock(p, g);
    if p.Repeats() {
      StaysInBlock(p, g);
      SameBlock(p, n, Shown(p, g));
      SameBlock(p, n, CodedAt(p, g));
    }
    DisplayIs(p, CodedFrame(p, n));
  }

  ghost predicate Injective(p: Periods)
    requires p.Valid()
  {
    forall a: nat, b: nat :: Display(p, a) == Display(p, b) ==> a == b
  }

  ghost predicate Surjective(p: Periods)
    requires p.Valid()
  {
    forall d: nat :: IsShown(p, d)
  }

  ghost predicate IsShown(p: Periods, d: nat)
    requires p.Valid()
  {
    exists e: nat :: Display(p, e) == d
  }

  lemma AlignedIsBijective(p: Periods)
    requires p.Valid() && Aligned(p)
    ensures Injective(p) && Surjective(p)
  {
    hide Display;
    hide CodedFrame;
    forall a: nat, b: nat | Display(p, a) == Display(p, b)
      ensures a == b
    {
      Inverse(p, a);
      Inverse(p, b);
    }
    forall d: nat
      ensures IsShown(p, d)
    {
      Inverse(p, d);
      var e: nat := CodedFrame(p, d);
      assert Display(p, e) == d;
    }
  }

  /** The anchor of the group that is cut off by the end of the first block. */
  function CutAnchor(p: Periods): int
    requires p.ip >= 1
  {
    p.idr - p.idr % p.ip + 1
  }

  lemma UnalignedShape(p: Periods)
    requires p.Valid() && !Aligned(p)
    ensures p.ip < p.idr && p.Length() == p.idr + 1
    ensures 1 <= p.idr % p.ip < p.ip
  {
    MiniGopsPositive(p);
    DivMod(p.intra - 1, p.ip);
    MulMonotone(1, (p.intra - 1) / p.ip, p.ip);
    DivMod(p.idr, p.intra);
    if p.idr / p.intra <= 0 {
      MulMonotone(p.idr / p.intra, 0, p.intra);
    } else {
      MulMonotone(1, p.idr / p.intra, p.intra);
    }
  }

  /** Otherwise that anchor is shown in the second block, where another frame already is. */
  lemma UnalignedCollides(p: Periods)
    requires p.Valid() && !Aligned(p)
    ensures !Injective(p)
  {
    UnalignedShape(p);
    var t, l := p.idr % p.ip, p.idr + 1;
    var a: nat := CutAnchor(p);
    var slot := p.ip - t - 1;
    var b: nat := l + (if slot == 0 then 0 else slot + 1);
    CutAnchorShown(p, a);
    assert Gop(p, b) == b - l by {
      DivModUnique(b, l, 1, b - l);
    }
    DisplayIs(p, b);
    if slot != 0 {
      ModSmall(slot, p.ip);
    }
    assert Display(p, a) == Display(p, b) && a != b;
  }

  lemma CutAnchorShown(p: Periods, a: nat)
    requires p.Valid() && !Aligned(p) && a == CutAnchor(p)
    ensures Display(p, a) == p.idr + 1 + (p.ip - p.idr % p.ip - 1) && 2 <= a <= p.idr
  {
    hide Order;
    hide Display;
    UnalignedShape(p);
    CutAnchorPlace(p.idr, p.ip, a);
    ModSmall(a, p.idr + 1);
    DisplayIs(p, a);
  }

  lemma CutAnchorPlace(idr: nat, ip: nat, a: int)
    requires 1 <= ip < idr && 1 <= idr % ip && a == idr - idr % ip + 1
    ensures 2 <= a <= idr && (a - 1) % ip == 0
  {
    DivMod(idr, ip);
    var q, t := idr / ip, idr % ip;
    DivModUnique(a - 1, ip, q, 0);
    if q <= 0 {
      MulMonotone(q, 0, ip);
    }
    MulMonotone(1, q, ip);
  }

  /** And the last position of the first block is never shown. */
  lemma UnalignedMisses(p: Periods, e: nat)
    requires p.Valid() && !Aligned(p)
    ensures Display(p, e) != p.idr
  {
    UnalignedShape(p);
    DisplayIs(p, e);
    var l := p.idr + 1;
    if e < l {
      ModSmall(e, l);
      if e > 0 && (e - 1) % p.ip == 0 && e + p.ip - 1 == p.idr {
        StepMod(e, p.ip);
      }
    } else if e == l {
      DivModUnique(e, l, 1, 0);
    }
  }

  /** The reordering is a permutation of the frames if and only if no group of frames crosses
      the end of a block. */
  lemma ReorderingIsPermutation(p: Periods)
    requires p.Valid()
    ensures Injective(p) <==> Aligned(p)
    ensures Surjective(p) <==> Aligned(p)
  {
    hide Display;
    if Aligned(p) {
      AlignedIsBijective(p);
    } else {
      UnalignedCollides(p);
      NeverShown(p);
    }
  }

  lemma NeverShown(p: Periods)
    requires p.Valid() && !Aligned(p)
    ensures !IsShown(p, p.idr)
  {
    hide Display;
    forall e: nat
      ensures Display(p, e) != p.idr
    {
      UnalignedMisses(p, e);
    }
  }

  /** Periods 7, 14 and 3, which the comment lists as an example: frames 13 and 15 are both
      shown at position 15. */
  lemma ListedExampleCollides()
    ensures var p := Periods(7, 14, 3);
            p.Valid() && !Aligned(p) && Display(p, 13) == 15 && Display(p, 15) == 15
  {
  }

  // ---------------------------------------------------------------- intra frames

  /** A number is a multiple of k * m exactly when it is a multiple of m, and its quotient one
      of k. */
  lemma MultipleOfProduct(x: nat, k: nat, m: nat)
    requires k > 0 && m > 0
    ensures k * m > 0
    ensures x % (k * m) == 0 <==> x % m == 0 && (x / m) % k == 0
  {
    MulMonotone(1, k, m);
    DivMod(x, m);
    DivMod(x / m, k);
    var q, r, t := x / m / k, x / m % k, x % m;
    assert (q * k + r) * m == q * (k * m) + r * m;
    MulMonotone(0, r, m);
    MulMonotone(r + 1, k, m);
    assert (r + 1) * m == r * m + m;
    DivModUnique(x, k * m, q, r * m + t);
    if r >= 1 {
      MulMonotone(1, r, m);
    }
  }

  /** Inside a block, intra frames are coded every intra_period - 1 frames: counted from the
      IDR frame without B frames, and from the first anchor with them. */
  lemma IntraFramesArePeriodic(p: Periods, e: nat)
    requires p.Valid() && p.intra >= 2 && Gop(p, e) > 0
    ensures Order(p, e).1 == I <==>
            var g := Gop(p, e); g >= 2 && (if p.ip == 1 then g else g - 1) % (p.intra - 1) == 0
  {
    var g := Gop(p, e);
    ModOne(g - 1);
    MiniGopsPositive(p);
    DivMod(p.intra - 1, p.ip);
    MultipleOfProduct(g - 1, MiniGops(p), p.ip);
  }
}
