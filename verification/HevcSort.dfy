/** Sorting reference pictures in place by picture order count. */
module HevcSort {
  import Slices

  datatype Picture = Picture(id: nat, poc: int)

  /** Does `a` come before `b` in the requested direction? */
  predicate Before(a: int, b: int, ascending: bool) { if ascending then a < b else b < a }

  ghost predicate Sorted(s: seq<Picture>, ascending: bool) {
    forall i, j :: 0 <= i < j < |s| ==> !Before(s[j].poc, s[i].poc, ascending)
  }

  ghost predicate NoneAfter(s: seq<Picture>, key: int, ascending: bool) {
    forall p :: p in s ==> !Before(key, p.poc, ascending)
  }

  ghost predicate NoneBefore(s: seq<Picture>, key: int, ascending: bool) {
    forall p :: p in s ==> !Before(p.poc, key, ascending)
  }

  ghost predicate SameElements(s: seq<Picture>, t: seq<Picture>) { multiset(s) == multiset(t) }

  lemma SameMembers(s: seq<Picture>, t: seq<Picture>)
    requires SameElements(s, t)
    ensures |s| == |t|
    ensures forall p :: p in s <==> p in t
  {
    assert |multiset(s)| == |s| && |multiset(t)| == |t|;
    forall p
      ensures p in s <==> p in t
    {
      assert p in s <==> p in multiset(s);
      assert p in t <==> p in multiset(t);
    }
  }

  lemma BoundsMove(s: seq<Picture>, t: seq<Picture>, key: int, ascending: bool)
    requires SameElements(s, t)
    ensures NoneAfter(s, key, ascending) ==> NoneAfter(t, key, ascending)
    ensures NoneBefore(s, key, ascending) ==> NoneBefore(t, key, ascending)
  {
    SameMembers(s, t);
  }

  lemma Swapped(s: seq<Picture>, i: nat, j: nat)
    requires i < |s| && j < |s|
    ensures SameElements(s[i := s[j]][j := s[i]], s)
  {
  }

  /** The three parts that a partition leaves: not after the key, equal to it, not before it. */
  lemma SortedInParts(a: seq<Picture>, b: seq<Picture>, c: seq<Picture>, key: int, ascending: bool)
    requires Sorted(a, ascending) && Sorted(c, ascending)
    requires NoneAfter(a + b, key, ascending) && NoneBefore(b + c, key, ascending)
    ensures Sorted(a + b + c, ascending)
  {
    var s := a + b + c;
    forall i, j | 0 <= i < j < |s|
      ensures !Before(s[j].poc, s[i].poc, ascending)
    {
      assert j < |a| + |b| ==> s[j] in a + b by { if j < |a| + |b| { assert s[j] == (a + b)[j]; } }
      assert i < |a| + |b| ==> s[i] in a + b by { if i < |a| + |b| { assert s[i] == (a + b)[i]; } }
      assert j >= |a| ==> s[j] in b + c by { if j >= |a| { assert s[j] == (b + c)[j - |a|]; } }
      assert i >= |a| ==> s[i] in b + c by { if i >= |a| { assert s[i] == (b + c)[i - |a|]; } }
    }
  }

  /** `while (ref[i] < key) i++`, which stops at `stop` at the latest. */
  method ScanUp(ref: array<Picture>, from: int, key: int, ascending: bool, ghost stop: int) returns (i: int)
    requires 0 <= from <= stop < ref.Length && !Before(ref[stop].poc, key, ascending)
    ensures from <= i <= stop && !Before(ref[i].poc, key, ascending)
    ensures forall k :: from <= k < i ==> Before(ref[k].poc, key, ascending)
  {
    i := from;
    while Before(ref[i].poc, key, ascending)
      invariant from <= i <= stop
      invariant forall k :: from <= k < i ==> Before(ref[k].poc, key, ascending)
      decreases stop - i
    {
      i := i + 1;
    }
  }

  /** `while (ref[j] > key) j--`. */
  method ScanDown(ref: array<Picture>, from: int, key: int, ascending: bool, ghost stop: int) returns (j: int)
    requires 0 <= stop <= from < ref.Length && !Before(key, ref[stop].poc, ascending)
    ensures stop <= j <= from && !Before(key, ref[j].poc, ascending)
    ensures forall k :: j < k <= from ==> Before(key, ref[k].poc, ascending)
  {
    j := from;
    while Before(key, ref[j].poc, ascending)
      invariant stop <= j <= from
      invariant forall k :: j < k <= from ==> Before(key, ref[k].poc, ascending)
      decreases j - stop
    {
      j := j - 1;
    }
  }

  /** Nothing in `left..i` comes after the key, nothing in `j+1..right` before it. */
  ghost predicate Parts(s: seq<Picture>, left: int, i: int, j: int, right: int, key: int, ascending: bool)
    requires 0 <= left && i <= |s| && -1 <= j && right < |s|
  {
    && (forall k :: left <= k < i ==> !Before(key, s[k].poc, ascending))
    && (forall k :: j < k <= right ==> !Before(s[k].poc, key, ascending))
  }

  /** A permutation that only touches `left..right`. */
  ghost predicate PermutedWithin(s: seq<Picture>, t: seq<Picture>, left: int, right: int)
    requires 0 <= left <= right + 1 <= |s|
  {
    && |t| == |s| && t[..left] == s[..left] && t[right + 1..] == s[right + 1..]
    && SameElements(t[left..right + 1], s[left..right + 1])
  }

  lemma SwapWithin(s: seq<Picture>, t: seq<Picture>, u: seq<Picture>, left: int, right: int, i: int, j: int)
    requires 0 <= left <= i <= right < |s| && left <= j <= right
    requires PermutedWithin(s, t, left, right) && u == t[i := t[j]][j := t[i]]
    ensures PermutedWithin(s, u, left, right)
  {
    var part := t[left..right + 1];
    Swapped(part, i - left, j - left);
    assert u[left..right + 1] == part[i - left := part[j - left]][j - left := part[i - left]];
    assert u[..left] == t[..left] && u[right + 1..] == t[right + 1..];
  }

  lemma SwapParts(t: seq<Picture>, u: seq<Picture>, left: int, right: int, i0: int, j0: int, i: int, j: int, key: int,
      ascending: bool)
    requires 0 <= left <= i0 <= i <= j <= j0 <= right < |t|
    requires Parts(t, left, i0, j0, right, key, ascending)
    requires forall k :: i0 <= k < i ==> Before(t[k].poc, key, ascending)
    requires forall k :: j < k <= j0 ==> Before(key, t[k].poc, ascending)
    requires !Before(t[i].poc, key, ascending) && !Before(key, t[j].poc, ascending)
    requires u == t[i := t[j]][j := t[i]]
    ensures Parts(u, left, i + 1, j - 1, right, key, ascending)
  {
  }

  lemma ScanParts(t: seq<Picture>, left: int, right: int, i0: int, j0: int, i: int, j: int, key: int, ascending: bool)
    requires 0 <= left <= i0 <= i <= |t| && -1 <= j <= j0 <= right < |t|
    requires Parts(t, left, i0, j0, right, key, ascending)
    requires forall k :: i0 <= k < i ==> Before(t[k].poc, key, ascending)
    requires forall k :: j < k <= j0 ==> Before(key, t[k].poc, ascending)
    ensures Parts(t, left, i, j, right, key, ascending)
  {
  }

  /** One round of the partition loop: scan from both ends, then swap unless they have met.
      `up` and `down` are places where the scans stop at the latest. */
  method PartitionRound(ref: array<Picture>, left: int, right: int, key: int, ascending: bool,
                        i0: int, j0: int, ghost up: int, ghost down: int) returns (i: int, j: int)
    requires 0 <= left <= i0 <= j0 <= right < ref.Length
    requires Parts(ref[..], left, i0, j0, right, key, ascending)
    requires i0 <= up <= right && up <= j0 + 1 && !Before(ref[up].poc, key, ascending)
    requires left <= down <= j0 && i0 - 1 <= down && !Before(key, ref[down].poc, ascending)
    modifies ref
    ensures PermutedWithin(old(ref[..]), ref[..], left, right)
    ensures Moved(left, right, i0, j0, i, j)
    ensures Parts(ref[..], left, i, j, right, key, ascending)
  {
    i := ScanUp(ref, i0, key, ascending, up);
    j := ScanDown(ref, j0, key, ascending, if i == i0 then down else i - 1);
    ghost var t := ref[..];
    if i <= j {
      ref[i], ref[j] := ref[j], ref[i];
      SwapWithin(t, t, ref[..], left, right, i, j);
      SwapParts(t, ref[..], left, right, i0, j0, i, j, key, ascending);
      i, j := i + 1, j - 1;
    } else {
      ScanParts(t, left, right, i0, j0, i, j, key, ascending);
    }
  }

  /** Both ends have left the borders, and have come closer. */
  ghost predicate Moved(left: int, right: int, i0: int, j0: int, i: int, j: int) {
    left < i <= right + 1 && left - 1 <= j < right && j - i < j0 - i0
  }

  lemma PermutedTwice(s: seq<Picture>, t: seq<Picture>, u: seq<Picture>, left: int, right: int)
    requires 0 <= left <= right + 1 <= |s|
    requires PermutedWithin(s, t, left, right) && PermutedWithin(t, u, left, right)
    ensures PermutedWithin(s, u, left, right)
  {
  }

  /** The partition macro on `ref[left..right]`, given an element not before the key and one
      not after it: it stays in bounds, and both ends move. */
  method Partition(ref: array<Picture>, left: int, right: int, key: int, ascending: bool,
                   ghost high: int, ghost low: int) returns (i: int, j: int)
    requires 0 <= left <= right < ref.Length
    requires left <= high <= right && !Before(ref[high].poc, key, ascending)
    requires left <= low <= right && !Before(key, ref[low].poc, ascending)
    modifies ref
    ensures PermutedWithin(old(ref[..]), ref[..], left, right)
    ensures j < i && left < i <= right + 1 && left - 1 <= j < right
    ensures Parts(ref[..], left, i, j, right, key, ascending)
  {
    ghost var start := ref[..];
    i, j := PartitionRound(ref, left, right, key, ascending, left, right, high, low);
    while i <= j
      invariant left < i <= right + 1 && left - 1 <= j < right
      invariant PermutedWithin(start, ref[..], left, right)
      invariant Parts(ref[..], left, i, j, right, key, ascending)
      decreases j - i
    {
      ghost var before := ref[..];
      i, j := PartitionRound(ref, left, right, key, ascending, i, j, j + 1, i - 1);
      PermutedTwice(start, before, ref[..], left, right);
    }
  }

  /** Where the three pieces are after two steps that permute the outer ones. */
  lemma Pieces(t: seq<Picture>, u: seq<Picture>, v: seq<Picture>, left: int, right: int, i: int, j: int)
    requires 0 <= left <= j + 1 <= i <= right + 1 <= |t|
    requires PermutedWithin(t, u, left, j) && PermutedWithin(u, v, i, right)
    ensures |v| == |u| == |t|
    ensures v[left..j + 1] == u[left..j + 1]
    ensures v[j + 1..i] == t[j + 1..i]
    ensures u[i..right + 1] == t[i..right + 1]
  {
    hide SameElements;
    Slices.SameFront(v, u, i, left, j + 1);
    Slices.SameFront(v, u, i, j + 1, i);
    Slices.SameBack(u, t, j + 1, j + 1, i);
    Slices.SameBack(u, t, j + 1, i, right + 1);
  }

  lemma OuterPermuted(a: seq<Picture>, b: seq<Picture>, c: seq<Picture>, a1: seq<Picture>, c1: seq<Picture>)
    requires SameElements(a1, a) && SameElements(c1, c)
    ensures SameElements(a1 + b + c1, a + b + c)
  {
    assert multiset(a + b + c) == multiset(a) + multiset(b) + multiset(c);
    assert multiset(a1 + b + c1) == multiset(a1) + multiset(b) + multiset(c1);
  }

  lemma PartsAsPieces(t: seq<Picture>, left: int, right: int, i: int, j: int, key: int, up: bool)
    requires 0 <= left <= j + 1 <= i <= right + 1 <= |t|
    requires Parts(t, left, i, j, right, key, up)
    ensures NoneAfter(t[left..j + 1], key, up) && NoneAfter(t[j + 1..i], key, up)
    ensures NoneBefore(t[j + 1..i], key, up) && NoneBefore(t[i..right + 1], key, up)
  {
  }

  /** After sorting the outer two of the three pieces, each piece is still where it belongs. */
  lemma PartsSorted(t: seq<Picture>, u: seq<Picture>, v: seq<Picture>, left: int, right: int, i: int, j: int,
      key: int, up: bool)
    requires 0 <= left <= j + 1 <= i <= right + 1 <= |t|
    requires Parts(t, left, i, j, right, key, up)
    requires PermutedWithin(t, u, left, j) && PermutedWithin(u, v, i, right)
    ensures |v| == |t| && PermutedWithin(t, v, left, right)
    ensures NoneAfter(v[left..i], key, up) && NoneBefore(v[j + 1..right + 1], key, up)
  {
    hide Parts;
    hide NoneAfter;
    hide NoneBefore;
    var a, b, c := t[left..j + 1], t[j + 1..i], t[i..right + 1];
    var a1, c1 := u[left..j + 1], v[i..right + 1];
    Pieces(t, u, v, left, right, i, j);
    assert t[left..right + 1] == a + b + c && v[left..right + 1] == a1 + b + c1;
    OuterPermuted(a, b, c, a1, c1);
    BordersKept(t, u, v, left, right, i, j);
    PartsAsPieces(t, left, right, i, j, key, up);
    BoundsMove(a, a1, key, up);
    BoundsMove(c, c1, key, up);
    BoundsJoin(a1, b, key, up);
    BoundsJoin(b, c1, key, up);
    assert v[left..i] == a1 + b && v[j + 1..right + 1] == b + c1;
  }

  lemma BoundsJoin(s: seq<Picture>, t: seq<Picture>, key: int, ascending: bool)
    ensures NoneAfter(s, key, ascending) && NoneAfter(t, key, ascending) ==> NoneAfter(s + t, key, ascending)
    ensures NoneBefore(s, key, ascending) && NoneBefore(t, key, ascending) ==> NoneBefore(s + t, key, ascending)
  {
  }

  lemma BordersKept(t: seq<Picture>, u: seq<Picture>, v: seq<Picture>, left: int, right: int, i: int, j: int)
    requires 0 <= left <= j + 1 <= i <= right + 1 <= |t|
    requires PermutedWithin(t, u, left, j) && PermutedWithin(u, v, i, right)
    ensures |v| == |t| && v[..left] == t[..left] && v[right + 1..] == t[right + 1..]
  {
    assert v[..left] == v[..i][..left] == u[..i][..left];
    assert u[right + 1..] == u[j + 1..][right - j..] == t[j + 1..][right - j..];
  }

  /** `sort_one`: sorts `ref[left..right]` in either direction. */
  method SortOne(ref: array<Picture>, left: int, right: int, ascending: bool)
    requires 0 <= left <= right < ref.Length
    modifies ref
    ensures PermutedWithin(old(ref[..]), ref[..], left, right)
    ensures Sorted(ref[left..right + 1], ascending)
    decreases right - left
  {
    var m := (left + right) / 2;
    var key := ref[m].poc;
    var i, j := Partition(ref, left, right, key, ascending, m, m);
    SortBoth(ref, left, right, i, j, key, ascending);
  }

  /** The recursion of `sort_one`. */
  method SortBoth(ref: array<Picture>, left: int, right: int, i: int, j: int, ghost key: int, ascending: bool)
    requires 0 <= left <= right < ref.Length && j < i && left < i <= right + 1 && left - 1 <= j < right
    requires Parts(ref[..], left, i, j, right, key, ascending)
    modifies ref
    ensures PermutedWithin(old(ref[..]), ref[..], left, right)
    ensures Sorted(ref[left..right + 1], ascending)
    decreases right - left, 0
  {
    hide Parts;
    hide PermutedWithin;
    hide Sorted;
    ghost var t := ref[..];
    AlreadySorted(t, left, j, ascending);
    if left < j {
      SortOne(ref, left, j, ascending);
    }
    ghost var u := ref[..];
    AlreadySorted(u, i, right, ascending);
    if i < right {
      SortOne(ref, i, right, ascending);
    }
    ghost var v := ref[..];
    assert ref[left..right + 1] == v[left..right + 1] && ref[i..right + 1] == v[i..right + 1];
    AllSorted(t, u, v, left, right, i, j, key, ascending);
  }

  lemma AlreadySorted(s: seq<Picture>, left: int, right: int, ascending: bool)
    requires 0 <= left <= right + 1 <= |s|
    ensures PermutedWithin(s, s, left, right)
    ensures right <= left ==> Sorted(s[left..right + 1], ascending)
  {
  }

  lemma AllSorted(t: seq<Picture>, u: seq<Picture>, v: seq<Picture>, left: int, right: int, i: int, j: int, key: int,
      ascending: bool)
    requires 0 <= left <= j + 1 <= i <= right + 1 <= |t|
    requires Parts(t, left, i, j, right, key, ascending)
    requires PermutedWithin(t, u, left, j) && PermutedWithin(u, v, i, right)
    requires Sorted(u[left..j + 1], ascending) && Sorted(v[i..right + 1], ascending)
    ensures PermutedWithin(t, v, left, right) && Sorted(v[left..right + 1], ascending)
  {
    hide Parts;
    hide PermutedWithin;
    hide Sorted;
    hide NoneAfter;
    hide NoneBefore;
    PartsSorted(t, u, v, left, right, i, j, key, ascending);
    Pieces(t, u, v, left, right, i, j);
    assert v[left..j + 1] + v[j + 1..i] == v[left..i] && v[j + 1..i] + v[i..right + 1] == v[j + 1..right + 1];
    SortedInParts(v[left..j + 1], v[j + 1..i], v[i..right + 1], key, ascending);
    assert v[left..right + 1] == v[left..j + 1] + v[j + 1..i] + v[i..right + 1];
  }

  /** `sort_two` for a key that no picture has and that lies between two of them: the
      pictures on the near side of the key come first, each side sorted on its own. */
  method SortTwo(ref: array<Picture>, left: int, right: int, key: int, partitionAscending: bool,
                 list0Ascending: bool, list1Ascending: bool, ghost high: int, ghost low: int) returns (ghost n: int)
    requires 0 <= left <= right < ref.Length
    requires forall k :: left <= k <= right ==> ref[k].poc != key
    requires left <= high <= right && Before(key, ref[high].poc, partitionAscending)
    requires left <= low <= right && Before(ref[low].poc, key, partitionAscending)
    modifies ref
    ensures PermutedWithin(old(ref[..]), ref[..], left, right)
    ensures left < n <= right && Split(ref[..], left, n, right, key, partitionAscending)
    ensures Sorted(ref[left..n], list0Ascending) && Sorted(ref[n..right + 1], list1Ascending)
  {
    hide PermutedWithin;
    hide Sorted;
    hide Parts;
    hide Split;
    ghost var s := ref[..];
    var i, j := Partition(ref, left, right, key, partitionAscending, high, low);
    ghost var t := ref[..];
    NoMiddle(s, t, left, right, i, j, key, partitionAscending);
    SortOne(ref, left, i - 1, list0Ascending);
    ghost var u := ref[..];
    SortOne(ref, j + 1, right, list1Ascending);
    ghost var v := ref[..];
    n := i;
    BothSorted(s, t, u, v, left, right, i, key, partitionAscending, list0Ascending, list1Ascending);
    assert ref[left..n] == v[left..n] && ref[n..right + 1] == v[n..right + 1];
  }

  /** Everything in `left..n` is strictly before the key, everything from `n` on strictly after. */
  ghost predicate Split(s: seq<Picture>, left: int, n: int, right: int, key: int, ascending: bool)
    requires 0 <= left <= n <= right + 1 <= |s|
  {
    && (forall k :: left <= k < n ==> Before(s[k].poc, key, ascending))
    && (forall k :: n <= k <= right ==> Before(key, s[k].poc, ascending))
  }

  /** If no picture has the key, the two ends of the partition meet. */
  lemma NoMiddle(s: seq<Picture>, t: seq<Picture>, left: int, right: int, i: int, j: int, key: int, ascending: bool)
    requires 0 <= left <= right < |s| && j < i && left < i <= right + 1 && left - 1 <= j < right
    requires PermutedWithin(s, t, left, right) && Parts(t, left, i, j, right, key, ascending)
    requires forall k :: left <= k <= right ==> s[k].poc != key
    ensures i == j + 1 && left < i <= right && |t| == |s|
    ensures forall k :: left <= k <= right ==> t[k].poc != key
    ensures Split(t, left, i, right, key, ascending)
  {
    SameMembers(s[left..right + 1], t[left..right + 1]);
    forall k | left <= k <= right
      ensures t[k].poc != key
    {
      assert t[k] == t[left..right + 1][k - left];
      assert t[k] in s[left..right + 1];
    }
    assert t[j + 1].poc != key;
  }

  lemma BothSorted(s: seq<Picture>, t: seq<Picture>, u: seq<Picture>, v: seq<Picture>, left: int, right: int, i: int,
      key: int, up: bool, up0: bool, up1: bool)
    requires 0 <= left < i <= right < |s| && |t| == |s|
    requires PermutedWithin(s, t, left, right) && Split(t, left, i, right, key, up)
    requires PermutedWithin(t, u, left, i - 1) && PermutedWithin(u, v, i, right)
    requires Sorted(u[left..i], up0) && Sorted(v[i..right + 1], up1)
    ensures PermutedWithin(s, v, left, right) && Sorted(v[left..i], up0) && Split(v, left, i, right, key, up)
  {
    hide PermutedWithin;
    hide Sorted;
    SplitIsParts(t, left, right, i, key, up);
    PartsSorted(t, u, v, left, right, i, i - 1, key, up);
    Pieces(t, u, v, left, right, i, i - 1);
    PermutedTwice(s, t, v, left, right);
    SplitMoves(t, v, left, i, right, key, up);
  }

  lemma SplitIsParts(t: seq<Picture>, left: int, right: int, i: int, key: int, up: bool)
    requires 0 <= left < i <= right < |t| && Split(t, left, i, right, key, up)
    ensures Parts(t, left, i, i - 1, right, key, up)
  {
  }

  lemma SplitMoves(t: seq<Picture>, v: seq<Picture>, left: int, i: int, right: int, key: int, up: bool)
    requires 0 <= left < i <= right < |t| && Split(t, left, i, right, key, up)
    requires PermutedWithin(t, v, left, right)
    requires NoneAfter(v[left..i], key, up) && NoneBefore(v[i..right + 1], key, up)
    ensures Split(v, left, i, right, key, up)
  {
    SameMembers(t[left..right + 1], v[left..right + 1]);
    forall k | left <= k <= right
      ensures v[k].poc != key
    {
      assert v[k] == v[left..right + 1][k - left];
      assert v[k] in t[left..right + 1];
    }
    forall k | left <= k < i
      ensures Before(v[k].poc, key, up)
    {
      assert v[k] == v[left..i][k - left];
    }
    forall k | i <= k <= right
      ensures Before(key, v[k].poc, up)
    {
      assert v[k] == v[i..right + 1][k - i];
    }
  }
}
