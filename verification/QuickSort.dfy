/**
 The sort that allocates nothing: quicksort in place, recursing into the smaller part and
 looping on the larger one.
 */
module QuickSort {
  import opened Bits

  /** A comparison function that orders any two values, possibly with ties. */
  ghost predicate Preorder<T(!new)>(cmp: (T, T) -> int) {
    && (forall x, y :: cmp(x, y) > 0 ==> cmp(y, x) <= 0)
    && (forall x, y, z :: cmp(x, y) <= 0 && cmp(y, z) <= 0 ==> cmp(x, z) <= 0)
  }

  ghost predicate Sorted<T>(cmp: (T, T) -> int, s: seq<T>) {
    forall i, j :: 0 <= i < j < |s| ==> cmp(s[i], s[j]) <= 0
  }

  /** Everything in s is at most everything in t. */
  ghost predicate Before<T>(cmp: (T, T) -> int, s: seq<T>, t: seq<T>) {
    forall i, j :: 0 <= i < |s| && 0 <= j < |t| ==> cmp(s[i], t[j]) <= 0
  }

  ghost predicate Same<T>(s: seq<T>, t: seq<T>) {
    |s| == |t| && multiset(s) == multiset(t)
  }

  lemma SameMember<T>(s: seq<T>, t: seq<T>, i: nat)
    requires Same(s, t) && i < |t|
    ensures exists k :: 0 <= k < |s| && s[k] == t[i]
  {
    assert t[i] in multiset(s);
  }

  /** Reordering either side keeps one part before the other. */
  lemma BeforeSame<T>(cmp: (T, T) -> int, s: seq<T>, t: seq<T>, s': seq<T>, t': seq<T>)
    requires Before(cmp, s, t) && Same(s, s') && Same(t, t')
    ensures Before(cmp, s', t')
  {
    hide Same;
    forall i, j | 0 <= i < |s'| && 0 <= j < |t'|
      ensures cmp(s'[i], t'[j]) <= 0
    {
      SameMember(s, s', i);
      SameMember(t, t', j);
    }
  }

  lemma SortedConcat<T>(cmp: (T, T) -> int, s: seq<T>, t: seq<T>)
    requires Sorted(cmp, s) && Sorted(cmp, t) && Before(cmp, s, t)
    ensures Sorted(cmp, s + t)
  {
  }

  lemma SwapSame<T>(s: seq<T>, i: nat, j: nat)
    requires i < |s| && j < |s|
    ensures Same(s, s[i := s[j]][j := s[i]])
  {
    var t := s[i := s[j]][j := s[i]];
    assert multiset(t) == multiset(s) - multiset{s[i]} + multiset{s[j]} - multiset{s[j]} + multiset{s[i]};
  }

  /** Swap two elements, whole values where the code swaps byte by byte. */
  method Swap<T>(a: array<T>, i: nat, j: nat)
    requires i < a.Length && j < a.Length
    modifies a
    ensures a[i] == old(a[j]) && a[j] == old(a[i])
    ensures forall k :: 0 <= k < a.Length && k != i && k != j ==> a[k] == old(a[k])
  {
    var t := a[i];
    a[i] := a[j];
    a[j] := t;
  }

  /** s[..mid] < pivot and not s[mid + 1..] < pivot, with the pivot at mid. */
  ghost predicate Parted<T>(cmp: (T, T) -> int, s: seq<T>, mid: nat) {
    && mid < |s|
    && (forall k :: 0 <= k < mid ==> cmp(s[mid], s[k]) > 0)
    && (forall k :: mid < k < |s| ==> cmp(s[mid], s[k]) <= 0)
  }

  /** The state of the partition loop: the pivot is first, smaller elements follow. */
  ghost predicate Parting<T>(cmp: (T, T) -> int, s: seq<T>, mid: nat, i: nat) {
    && mid < i <= |s|
    && (forall k :: 1 <= k <= mid ==> cmp(s[0], s[k]) > 0)
    && (forall k :: mid < k < i ==> cmp(s[0], s[k]) <= 0)
  }

  lemma SameTrans<T>(s: seq<T>, t: seq<T>, u: seq<T>)
    requires Same(s, t) && Same(t, u)
    ensures Same(s, u)
  {
  }

  function Swapped<T>(s: seq<T>, i: nat, j: nat): seq<T>
    requires i < |s| && j < |s|
  {
    s[i := s[j]][j := s[i]]
  }

  lemma FinishParting<T>(cmp: (T, T) -> int, s: seq<T>, mid: nat)
    requires Parting(cmp, s, mid, |s|)
    ensures mid < |s| && Parted(cmp, if mid > 0 then Swapped(s, 0, mid) else s, mid)
  {
  }

  /** One turn of the partition loop. */
  lemma PartingStep<T>(cmp: (T, T) -> int, s: seq<T>, mid: nat, i: nat)
    requires Parting(cmp, s, mid, i) && i < |s|
    ensures cmp(s[0], s[i]) <= 0 ==> Parting(cmp, s, mid, i + 1)
    ensures cmp(s[0], s[i]) > 0 ==> Parting(cmp, Swapped(s, mid + 1, i), mid + 1, i + 1)
  {
  }

  lemma PartingStart<T>(cmp: (T, T) -> int, s: seq<T>)
    requires |s| > 0
    ensures Parting(cmp, s, 0, 1) && Same(s, s)
  {
  }

  lemma NoSwap<T>(s: seq<T>, i: nat)
    requires i < |s|
    ensures Swapped(s, i, i) == s
  {
  }

  /** Move what is smaller than the pivot a[base] in front of the rest. */
  method PartLoop<T>(a: array<T>, base: nat, count: nat, cmp: (T, T) -> int) returns (mid: nat)
    requires base + count <= a.Length && count >= 2
    modifies a
    ensures a[..base] == old(a[..base]) && a[base + count..] == old(a[base + count..])
    ensures Same(old(a[base..base + count]), a[base..base + count])
    ensures Parting(cmp, a[base..base + count], mid, count)
  {
    hide *;
    ghost var s0 := a[base..base + count];
    mid := 0;
    PartingStart(cmp, s0);
    for i := 1 to count
      invariant mid < i && Parting(cmp, a[base..base + count], mid, i)
      invariant a[..base] == old(a[..base]) && a[base + count..] == old(a[base + count..])
      invariant Same(s0, a[base..base + count])
    {
      ghost var s := a[base..base + count];
      PartingStep(cmp, s, mid, i);
      if cmp(a[base], a[base + i]) > 0 {
        mid := mid + 1;
        if i != mid {
          SwapInto(a, base, count, mid, i);
          SameTrans(s0, s, a[base..base + count]);
        } else {
          NoSwap(s, i);
        }
      }
    }
  }

  /** Swap two elements of a segment. */
  method SwapInto<T>(a: array<T>, base: nat, count: nat, i: nat, j: nat)
    requires base + count <= a.Length && i < count && j < count
    modifies a
    ensures a[..base] == old(a[..base]) && a[base + count..] == old(a[base + count..])
    ensures a[base..base + count] == Swapped(old(a[base..base + count]), i, j)
    ensures Same(old(a[base..base + count]), a[base..base + count])
  {
    hide Same;
    ghost var s := a[base..base + count];
    SwapSame(s, i, j);
    Swap(a, base + i, base + j);
    ghost var t := Swapped(s, i, j);
    forall k | 0 <= k < count ensures a[base + k] == t[k] { }
    assert a[base..base + count] == t;
  }

  method Partition<T>(a: array<T>, base: nat, count: nat, cmp: (T, T) -> int) returns (mid: nat)
    requires base + count <= a.Length && count >= 2
    modifies a
    ensures a[..base] == old(a[..base]) && a[base + count..] == old(a[base + count..])
    ensures Same(old(a[base..base + count]), a[base..base + count])
    ensures mid < count && Parted(cmp, a[base..base + count], mid)
  {
    hide *;
    ghost var s0 := a[base..base + count];
    SwapInto(a, base, count, 0, count / 2);
    ghost var s1 := a[base..base + count];
    mid := PartLoop(a, base, count, cmp);
    ghost var s := a[base..base + count];
    SameTrans(s0, s1, s);
    FinishParting(cmp, s, mid);
    if mid > 0 {
      SwapInto(a, base, count, 0, mid);
      SameTrans(s0, s, a[base..base + count]);
    }
  }

  // ----- the recursion

  lemma BeforeConcat<T>(cmp: (T, T) -> int, s: seq<T>, t: seq<T>, u: seq<T>)
    ensures Before(cmp, s + t, u) <==> Before(cmp, s, u) && Before(cmp, t, u)
    ensures Before(cmp, u, s + t) <==> Before(cmp, u, s) && Before(cmp, u, t)
  {
    if Before(cmp, s + t, u) {
      forall i, j | 0 <= i < |s| && 0 <= j < |u| ensures cmp(s[i], u[j]) <= 0 { assert (s + t)[i] == s[i]; }
      forall i, j | 0 <= i < |t| && 0 <= j < |u| ensures cmp(t[i], u[j]) <= 0 { assert (s + t)[|s| + i] == t[i]; }
    }
    if Before(cmp, u, s + t) {
      forall i, j | 0 <= i < |u| && 0 <= j < |s| ensures cmp(u[i], s[j]) <= 0 { assert (s + t)[j] == s[j]; }
      forall i, j | 0 <= i < |u| && 0 <= j < |t| ensures cmp(u[i], t[j]) <= 0 { assert (s + t)[|s| + j] == t[j]; }
    }
  }

  /** What a partition says about its three parts. */
  lemma ThreeParts<T(!new)>(cmp: (T, T) -> int, m: seq<T>, mid: nat)
    requires Preorder(cmp) && Parted(cmp, m, mid)
    ensures var left, p, right := m[..mid], [m[mid]], m[mid + 1..];
            m == left + p + right && Before(cmp, left, p) && Before(cmp, p, right) && Before(cmp, left, right)
  {
    var left, p, right := m[..mid], m[mid], m[mid + 1..];
    forall i, j | 0 <= i < |left| && 0 <= j < |right| ensures cmp(left[i], right[j]) <= 0 {
      assert cmp(left[i], p) <= 0 && cmp(p, right[j]) <= 0;
    }
  }

  /** The part on the left of the pivot is done. */
  lemma LeftDone<T(!new)>(cmp: (T, T) -> int, l: seq<T>, m: seq<T>, r: seq<T>, mid: nat, left: seq<T>)
    requires Preorder(cmp) && Parted(cmp, m, mid) && Sorted(cmp, l) && Sorted(cmp, left) && Same(m[..mid], left)
    requires Before(cmp, l, m) && Before(cmp, m, r) && Before(cmp, l, r)
    ensures var l', m' := l + left + [m[mid]], m[mid + 1..];
            Sorted(cmp, l') && Before(cmp, l', m') && Before(cmp, m', r) && Before(cmp, l', r) && Same(l + m, l' + m')
  {
    var p, front, right := [m[mid]], m[..mid], m[mid + 1..];
    ThreeParts(cmp, m, mid);
    LeftSame(l, m, mid, left);
    assert Sorted(cmp, p);
    hide Same; hide Before; hide Preorder; hide Parted; hide Sorted;
    SameSelf(l); SameSelf(p); SameSelf(right); SameSelf(r);
    BeforeConcat(cmp, front + p, right, l);
    BeforeConcat(cmp, front, p, l);
    BeforeConcat(cmp, front + p, right, r);
    BeforeConcat(cmp, front, p, r);
    BeforeSame(cmp, l, front, l, left);
    BeforeSame(cmp, front, p, left, p);
    BeforeSame(cmp, front, right, left, right);
    BeforeSame(cmp, front, r, left, r);
    SortedConcat(cmp, l, left);
    BeforeConcat(cmp, l, left, p);
    SortedConcat(cmp, l + left, p);
    BeforeConcat(cmp, l, left, right);
    BeforeConcat(cmp, l + left, p, right);
    BeforeConcat(cmp, l, left, r);
    BeforeConcat(cmp, l + left, p, r);
  }

  lemma SameSelf<T>(s: seq<T>)
    ensures Same(s, s)
  {
  }

  lemma LeftSame<T>(l: seq<T>, m: seq<T>, mid: nat, left: seq<T>)
    requires mid < |m| && Same(m[..mid], left)
    ensures Same(l + m, l + left + [m[mid]] + m[mid + 1..])
  {
    var rest := [m[mid]] + m[mid + 1..];
    assert m == m[..mid] + rest;
    assert multiset(l + m) == multiset(l) + multiset(m[..mid]) + multiset(rest);
    assert l + left + [m[mid]] + m[mid + 1..] == l + left + rest;
  }

  /** The part on the right of the pivot is done. */
  lemma RightDone<T(!new)>(cmp: (T, T) -> int, l: seq<T>, m: seq<T>, r: seq<T>, mid: nat, right: seq<T>)
    requires Preorder(cmp) && Parted(cmp, m, mid) && Sorted(cmp, r) && Sorted(cmp, right) && Same(m[mid + 1..], right)
    requires Before(cmp, l, m) && Before(cmp, m, r) && Before(cmp, l, r)
    ensures var m', r' := m[..mid], [m[mid]] + right + r;
            Sorted(cmp, r') && Before(cmp, l, m') && Before(cmp, m', r') && Before(cmp, l, r') && Same(m + r, m' + r')
  {
    var p, left, back := [m[mid]], m[..mid], m[mid + 1..];
    ThreeParts(cmp, m, mid);
    RightSame(m, r, mid, right);
    assert Sorted(cmp, p);
    hide Same; hide Before; hide Preorder; hide Parted; hide Sorted;
    SameSelf(l); SameSelf(p); SameSelf(left); SameSelf(r);
    BeforeConcat(cmp, left + p, back, l);
    BeforeConcat(cmp, left, p, l);
    BeforeConcat(cmp, left + p, back, r);
    BeforeConcat(cmp, left, p, r);
    BeforeSame(cmp, left, back, left, right);
    BeforeSame(cmp, p, back, p, right);
    BeforeSame(cmp, l, back, l, right);
    BeforeSame(cmp, back, r, right, r);
    SortedConcat(cmp, p, right);
    BeforeConcat(cmp, p, right, r);
    SortedConcat(cmp, p + right, r);
    BeforeConcat(cmp, p, right, left);
    BeforeConcat(cmp, p + right, r, left);
    BeforeConcat(cmp, p, right, l);
    BeforeConcat(cmp, p + right, r, l);
  }

  lemma RightSame<T>(m: seq<T>, r: seq<T>, mid: nat, right: seq<T>)
    requires mid < |m| && Same(m[mid + 1..], right)
    ensures Same(m + r, m[..mid] + ([m[mid]] + right + r))
  {
    var front := m[..mid] + [m[mid]];
    assert m == front + m[mid + 1..];
    assert multiset(m + r) == multiset(front) + multiset(m[mid + 1..]) + multiset(r);
    assert m[..mid] + ([m[mid]] + right + r) == front + right + r;
  }

  /** The part [base, base + count) is still to be sorted; everything around it is in place. */
  ghost predicate Pending<T(!new)>(cmp: (T, T) -> int, all: seq<T>, l: seq<T>, m: seq<T>, r: seq<T>) {
    && Sorted(cmp, l) && Sorted(cmp, r) && Before(cmp, l, m) && Before(cmp, m, r) && Before(cmp, l, r)
    && Same(all, l + m + r)
  }

  lemma PendingLeft<T(!new)>(cmp: (T, T) -> int, all: seq<T>, l: seq<T>, m0: seq<T>, r: seq<T>, m: seq<T>, mid: nat,
      left: seq<T>)
    requires Preorder(cmp) && Pending(cmp, all, l, m0, r) && Same(m0, m)
    requires Parted(cmp, m, mid) && Sorted(cmp, left) && Same(m[..mid], left)
    ensures Pending(cmp, all, l + left + [m[mid]], m[mid + 1..], r)
  {
    hide Before; hide Preorder; hide Parted; hide Sorted;
    assert mid < |m| by { PartedMid(cmp, m, mid); }
    SameSelf(l);
    SameSelf(r);
    BeforeSame(cmp, l, m0, l, m);
    BeforeSame(cmp, m0, r, m, r);
    LeftDone(cmp, l, m, r, mid, left);
  }

  lemma PartedMid<T>(cmp: (T, T) -> int, m: seq<T>, mid: nat)
    requires Parted(cmp, m, mid)
    ensures mid < |m|
  {
  }

  lemma PendingRight<T(!new)>(cmp: (T, T) -> int, all: seq<T>, l: seq<T>, m0: seq<T>, r: seq<T>, m: seq<T>, mid: nat,
      right: seq<T>)
    requires Preorder(cmp) && Pending(cmp, all, l, m0, r) && Same(m0, m)
    requires Parted(cmp, m, mid) && Sorted(cmp, right) && Same(m[mid + 1..], right)
    ensures Pending(cmp, all, l, m[..mid], [m[mid]] + right + r)
  {
    hide Before; hide Preorder; hide Parted; hide Sorted;
    assert mid < |m| by { PartedMid(cmp, m, mid); }
    SameSelf(l);
    SameSelf(r);
    BeforeSame(cmp, l, m0, l, m);
    BeforeSame(cmp, m0, r, m, r);
    RightDone(cmp, l, m, r, mid, right);
    assert l + m + r == l + (m + r);
    assert l + m[..mid] + ([m[mid]] + right + r) == l + (m[..mid] + ([m[mid]] + right + r));
  }

  lemma PendingDone<T(!new)>(cmp: (T, T) -> int, all: seq<T>, l: seq<T>, m: seq<T>, r: seq<T>)
    requires Pending(cmp, all, l, m, r) && |m| < 2
    ensures Sorted(cmp, l + m + r) && Same(all, l + m + r)
  {
    assert Sorted(cmp, m);
    hide Before; hide Sorted;
    SortedConcat(cmp, l, m);
    BeforeConcat(cmp, l, m, r);
    SortedConcat(cmp, l + m, r);
  }

  lemma PendingStart<T(!new)>(cmp: (T, T) -> int, s: seq<T>)
    ensures Pending(cmp, s, [], s, [])
  {
    assert [] + s + [] == s;
  }

  /** Sort count elements from base on.  The recursion depth, counted in calls that are
      pending at once below this one, is at most the logarithm of count. */
  method Sort<T(!new)>(a: array<T>, base0: nat, count0: nat, cmp: (T, T) -> int) returns (depth: nat)
    requires base0 + count0 <= a.Length && Preorder(cmp)
    modifies a
    ensures a[..base0] == old(a[..base0]) && a[base0 + count0..] == old(a[base0 + count0..])
    ensures Same(old(a[base0..base0 + count0]), a[base0..base0 + count0])
    ensures Sorted(cmp, a[base0..base0 + count0])
    ensures count0 < 2 ==> depth == 0
    ensures count0 >= 1 ==> Pow2(depth) <= count0
    decreases count0
  {
    hide *;
    var base: nat, count: nat, end: nat := base0, count0, base0 + count0;
    ghost var all := a[base0..end];
    depth := 0;
    assert a[base0..base0] == [] && a[end..end] == [];
    PendingStart(cmp, all);
    DepthStart();
    while count >= 2
      invariant base0 <= base && base + count <= end && count <= count0
      invariant a[..base0] == old(a[..base0]) && a[end..] == old(a[end..])
      invariant Pending(cmp, all, a[base0..base], a[base..base + count], a[base + count..end])
      invariant (count0 < 2 ==> depth == 0) && (count0 >= 1 ==> Pow2(depth) <= count0)
      decreases count
    {
      var d;
      base, count, d := SortPart(a, base0, end, base, count, cmp, all);
      DepthStep(depth, d, count0);
      depth := if 1 + d > depth then 1 + d else depth;
    }
    PendingDone(cmp, all, a[base0..base], a[base..base + count], a[base + count..end]);
    assert a[base0..end] == a[base0..base] + a[base..base + count] + a[base + count..end];
  }

  /** Partition the pending part, sort its smaller side, leave the larger one pending. */
  method SortPart<T(!new)>(a: array<T>, base0: nat, end: nat, base: nat, count: nat, cmp: (T, T) -> int,
      ghost all: seq<T>)
    returns (base': nat, count': nat, d: nat)
    requires base0 <= base && base + count <= end <= a.Length && count >= 2 && Preorder(cmp)
    requires Pending(cmp, all, a[base0..base], a[base..base + count], a[base + count..end])
    modifies a
    ensures base0 <= base' && base' + count' <= end && count' < count
    ensures a[..base0] == old(a[..base0]) && a[end..] == old(a[end..])
    ensures Pending(cmp, all, a[base0..base'], a[base'..base' + count'], a[base' + count'..end])
    ensures 2 * Pow2(d) <= count
    decreases count, 0
  {
    hide *;
    ghost var x0 := a[..];
    var mid := Partition(a, base, count, cmp);
    ghost var x1 := a[..];
    Kept(x0, x1, base, base + count);
    DepthStart();
    if 2 * mid < count {
      d := Sort(a, base, mid, cmp);
      base', count' := base + mid + 1, count - (mid + 1);
      LeftSorted(cmp, all, x0, x1, a[..], base0, base, mid, base + count, end);
    } else {
      d := Sort(a, base + mid + 1, count - (mid + 1), cmp);
      base', count' := base, mid;
      RightSorted(cmp, all, x0, x1, a[..], base0, base, mid, base + count, end);
    }
  }

  lemma LeftSorted<T(!new)>(cmp: (T, T) -> int, all: seq<T>, x0: seq<T>, x1: seq<T>, x2: seq<T>, base0: nat, base: nat,
      mid: nat, hi: nat, end: nat)
    requires base0 <= base && base + mid < hi <= end <= |x0| && Preorder(cmp) && Framed(x0, x1, base, hi)
    requires |x2| == |x1| && x2[..base] == x1[..base] && x2[base + mid..] == x1[base + mid..]
    requires Pending(cmp, all, x0[base0..base], x0[base..hi], x0[hi..end])
    requires Same(x0[base..hi], x1[base..hi]) && Parted(cmp, x1[base..hi], mid)
    requires Same(x1[base..base + mid], x2[base..base + mid]) && Sorted(cmp, x2[base..base + mid])
    ensures Pending(cmp, all, x2[base0..base + mid + 1], x2[base + mid + 1..hi], x2[hi..end])
    ensures x2[..base0] == x0[..base0] && x2[end..] == x0[end..]
  {
    hide Pending; hide Same; hide Parted; hide Sorted; hide Preorder;
    Kept(x1, x2, base, base + mid);
    LeftSlices(x0, x1, x2, base0, base, mid, hi, end);
    PendingLeft(cmp, all, x0[base0..base], x0[base..hi], x0[hi..end], x1[base..hi], mid, x2[base..base + mid]);
  }

  lemma RightSorted<T(!new)>(cmp: (T, T) -> int, all: seq<T>, x0: seq<T>, x1: seq<T>, x2: seq<T>, base0: nat, base: nat,
      mid: nat, hi: nat, end: nat)
    requires base0 <= base && base + mid < hi <= end <= |x0| && Preorder(cmp) && Framed(x0, x1, base, hi)
    requires |x2| == |x1| && x2[..base + mid + 1] == x1[..base + mid + 1] && x2[hi..] == x1[hi..]
    requires Pending(cmp, all, x0[base0..base], x0[base..hi], x0[hi..end])
    requires Same(x0[base..hi], x1[base..hi]) && Parted(cmp, x1[base..hi], mid)
    requires Same(x1[base + mid + 1..hi], x2[base + mid + 1..hi]) && Sorted(cmp, x2[base + mid + 1..hi])
    ensures Pending(cmp, all, x2[base0..base], x2[base..base + mid], x2[base + mid..end])
    ensures x2[..base0] == x0[..base0] && x2[end..] == x0[end..]
  {
    hide Pending; hide Same; hide Parted; hide Sorted; hide Preorder;
    Kept(x1, x2, base + mid + 1, hi);
    RightSlices(x0, x1, x2, base0, base, mid, hi, end);
    PendingRight(cmp, all, x0[base0..base], x0[base..hi], x0[hi..end], x1[base..hi], mid, x2[base + mid + 1..hi]);
  }

  /** x' differs from x at most in [lo, hi). */
  ghost predicate Framed<T>(x: seq<T>, x': seq<T>, lo: nat, hi: nat) {
    |x'| == |x| && lo <= hi <= |x| && forall i :: 0 <= i < lo || hi <= i < |x| ==> x'[i] == x[i]
  }

  lemma Kept<T>(x: seq<T>, x': seq<T>, lo: nat, hi: nat)
    requires |x'| == |x| && lo <= hi <= |x| && x'[..lo] == x[..lo] && x'[hi..] == x[hi..]
    ensures Framed(x, x', lo, hi)
  {
    forall i | 0 <= i < lo || hi <= i < |x| ensures x'[i] == x[i] {
      if i < lo {
        assert x'[..lo][i] == x[..lo][i];
      } else {
        assert x'[hi..][i - hi] == x[hi..][i - hi];
      }
    }
  }

  /** Where the parts lie after the left side was sorted. */
  lemma LeftSlices<T>(x0: seq<T>, x1: seq<T>, x2: seq<T>, base0: nat, base: nat, mid: nat, hi: nat, end: nat)
    requires base0 <= base && base + mid < hi <= end <= |x0|
    requires Framed(x0, x1, base, hi) && Framed(x1, x2, base, base + mid)
    ensures var m := x1[base..hi];
            && m[..mid] == x1[base..base + mid]
            && x2[base0..base + mid + 1] == x0[base0..base] + x2[base..base + mid] + [m[mid]]
            && x2[base + mid + 1..hi] == m[mid + 1..] && x2[hi..end] == x0[hi..end]
            && x2[..base0] == x0[..base0] && x2[end..] == x0[end..]
  {
    JoinSlices(x2, base0, base, base + mid, base + mid + 1);
    SameSlice(x2, x0, base0, base);
    SameSlice(x2, x0, hi, end);
    SameSlice(x2, x0, 0, base0);
    SameSlice(x2, x0, end, |x0|);
    SameSlice(x2, x1, base + mid + 1, hi);
  }

  lemma JoinSlices<T>(x: seq<T>, a: nat, b: nat, c: nat, d: nat)
    requires a <= b <= c <= d <= |x|
    ensures x[a..d] == x[a..b] + x[b..c] + x[c..d]
  {
  }

  lemma SameSlice<T>(x: seq<T>, y: seq<T>, lo: nat, hi: nat)
    requires lo <= hi <= |x| == |y| && forall i :: lo <= i < hi ==> x[i] == y[i]
    ensures x[lo..hi] == y[lo..hi]
  {
  }

  /** Where the parts lie after the right side was sorted. */
  lemma RightSlices<T>(x0: seq<T>, x1: seq<T>, x2: seq<T>, base0: nat, base: nat, mid: nat, hi: nat, end: nat)
    requires base0 <= base && base + mid < hi <= end <= |x0|
    requires Framed(x0, x1, base, hi) && Framed(x1, x2, base + mid + 1, hi)
    ensures var m := x1[base..hi];
            && m[mid + 1..] == x1[base + mid + 1..hi]
            && x2[base0..base] == x0[base0..base] && x2[base..base + mid] == m[..mid]
            && x2[base + mid..end] == [m[mid]] + x2[base + mid + 1..hi] + x0[hi..end]
            && x2[..base0] == x0[..base0] && x2[end..] == x0[end..]
  {
    JoinSlices(x2, base + mid, base + mid + 1, hi, end);
    SameSlice(x2, x0, base0, base);
    SameSlice(x2, x0, hi, end);
    SameSlice(x2, x0, 0, base0);
    SameSlice(x2, x0, end, |x0|);
    SameSlice(x2, x1, base, base + mid);
  }

  lemma DepthStart()
    ensures Pow2(0) == 1
  {
  }

  lemma DepthStep(depth: nat, d: nat, n: nat)
    requires 2 * Pow2(d) <= n
    ensures Pow2(1 + d) <= n
  {
  }
}
