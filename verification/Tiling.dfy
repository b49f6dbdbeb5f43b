/**
 The tile sizes of a matrix product kernel: recovered from the generated loops, checked
 against each other, split into an unrolled and a remaining part, and used to count work and
 memory traffic.
 */
module Tiling {
  import opened Wrappers
  import Bits

  /** Loop names: as generated, renamed, or of the virtual threads. */
  datatype Name = Given(text: string) | Local(axis: char, index: nat) | Virtual(axis: char) {
    predicate Valid() {
      Given? ==> |text| > 0
    }

    function First(): char
      requires Valid()
    {
      match this
      case Given(text) => text[0]
      case Local(axis, _) => axis
      case Virtual(_) => 'v'
    }

    /** The test of the script: the name starts with vthread, which a generated name may do. */
    predicate IsVirtual() {
      Virtual? || (Given? && "vthread" <= text)
    }

    /** The dimension that the loop runs over. */
    function Axis(): char
      requires Valid()
    {
      if Virtual? then axis else First()
    }
  }

  datatype Loop = Loop(name: Name, size: nat)

  ghost predicate Named(loops: seq<Loop>) {
    forall i :: 0 <= i < |loops| ==> loops[i].name.Valid()
  }

  ghost predicate Positive(loops: seq<Loop>) {
    forall i :: 0 <= i < |loops| ==> loops[i].size > 0
  }

  // ----- products

  ghost function Product(loops: seq<Loop>): nat {
    if loops == [] then 1 else loops[0].size * Product(loops[1..])
  }

  ghost function Along(loops: seq<Loop>, axis: char): nat
    requires Named(loops)
  {
    if loops == [] then 1
    else (if loops[0].name.Axis() == axis then loops[0].size else 1) * Along(loops[1..], axis)
  }

  predicate OnAxis(x: Loop)
    requires x.name.Valid()
  {
    x.name.Axis() in {'i', 'j', 'k'}
  }

  /** The trip count of the loops that run over none of the three dimensions; the script
      complains about them and goes on. */
  ghost function OffAxes(loops: seq<Loop>): nat
    requires Named(loops)
  {
    if loops == [] then 1 else (if OnAxis(loops[0]) then 1 else loops[0].size) * OffAxes(loops[1..])
  }

  lemma Commute(a: nat, b: nat, c: nat)
    ensures a * (b * c) == b * (a * c) == a * b * c
  {
  }

  lemma {:induction false} ProductJoin(a: seq<Loop>, b: seq<Loop>)
    ensures Product(a + b) == Product(a) * Product(b)
  {
    if a == [] {
      assert a + b == b;
    } else {
      assert (a + b)[1..] == a[1..] + b;
      ProductJoin(a[1..], b);
      Commute(a[0].size, Product(a[1..]), Product(b));
    }
  }

  lemma {:induction false} AlongJoin(a: seq<Loop>, b: seq<Loop>, axis: char)
    requires Named(a) && Named(b)
    ensures Along(a + b, axis) == Along(a, axis) * Along(b, axis)
  {
    if a == [] {
      assert a + b == b;
    } else {
      assert (a + b)[1..] == a[1..] + b;
      AlongJoin(a[1..], b, axis);
      Commute(if a[0].name.Axis() == axis then a[0].size else 1, Along(a[1..], axis), Along(b, axis));
    }
  }

  lemma {:induction false} AlongZero(loops: seq<Loop>, f: nat)
    requires Named(loops) && f < |loops| && loops[f].size == 0
    ensures Along(loops, loops[f].name.Axis()) == 0
  {
    if f > 0 {
      AlongZero(loops[1..], f - 1);
    }
  }

  /** The trip count is the product over the three dimensions and the other loops. */
  lemma {:induction false} ByAxis(loops: seq<Loop>)
    requires Named(loops)
    ensures Product(loops) == Along(loops, 'i') * Along(loops, 'j') * Along(loops, 'k') * OffAxes(loops)
  {
    if loops != [] {
      var rest := loops[1..];
      var x, i, j, k, o := loops[0].size, Along(rest, 'i'), Along(rest, 'j'), Along(rest, 'k'), OffAxes(rest);
      ByAxis(rest);
      Rotate(x, i, j, k);
      Bits.MulAssoc(x, i * j * k, o);
      Bits.MulAssoc(i * j * k, x, o);
    }
  }

  lemma Rotate(x: nat, i: nat, j: nat, k: nat)
    ensures x * (i * j * k) == x * i * j * k == i * (x * j) * k == i * j * (x * k)
  {
  }

  // ----- naming the loops

  ghost function CountBefore(loops: seq<Loop>, n: nat, c: char): nat
    requires Named(loops) && n <= |loops|
  {
    if n == 0 then 0 else CountBefore(loops, n - 1, c) + if loops[n - 1].name.First() == c then 1 else 0
  }

  function ProductOf(sizes: seq<nat>): nat {
    if sizes == [] then 1 else ProductOf(sizes[..|sizes| - 1]) * sizes[|sizes| - 1]
  }

  ghost predicate Renamed(before: seq<Loop>, after: seq<Loop>)
    requires Named(before)
  {
    && |after| == |before|
    && forall f :: 0 <= f < |after| ==>
         var c := before[f].name.First();
         after[f] == if c in {'i', 'j', 'k'} then Loop(Local(c, CountBefore(before, f, c)), before[f].size) else before[f]
  }

  ghost predicate GivenNames(loops: seq<Loop>) {
    forall f :: 0 <= f < |loops| ==> loops[f].name.Given?
  }

  /** The sizes of the loops of one dimension. */
  ghost predicate SizesAlong(sizes: seq<nat>, loops: seq<Loop>, c: char)
    requires Named(loops)
  {
    |sizes| == CountBefore(loops, |loops|, c) && ProductOf(sizes) == Along(loops, c)
  }

  lemma SizesNext(sizes: seq<nat>, loops: seq<Loop>, x: Loop, c: char)
    requires Named(loops) && x.name.Valid() && x.name.Given? && SizesAlong(sizes, loops, c)
    ensures Named(loops + [x]) && SizesAlong(if x.name.First() == c then sizes + [x.size] else sizes, loops + [x], c)
  {
    var more := loops + [x];
    AlongJoin(loops, [x], c);
    assert [x][1..] == [];
    assert Along([x], c) == if x.name.First() == c then x.size else 1;
    CountPrefix(loops, more, |loops|, c);
    var s := sizes + [x.size];
    assert s[..|s| - 1] == sizes;
  }

  lemma {:induction false} CountPrefix(a: seq<Loop>, b: seq<Loop>, n: nat, c: char)
    requires Named(a) && Named(b) && n <= |a| && n <= |b| && a[..n] == b[..n]
    ensures CountBefore(a, n, c) == CountBefore(b, n, c)
  {
    if n > 0 {
      assert a[n - 1] == a[..n][n - 1] && b[n - 1] == b[..n][n - 1];
      assert a[..n - 1] == a[..n][..n - 1] && b[..n - 1] == b[..n][..n - 1];
      CountPrefix(a, b, n - 1, c);
    }
  }

  ghost predicate AllSizes(i: seq<nat>, j: seq<nat>, k: seq<nat>, loops: seq<Loop>)
    requires Named(loops)
  {
    SizesAlong(i, loops, 'i') && SizesAlong(j, loops, 'j') && SizesAlong(k, loops, 'k')
  }

  lemma AllNext(i: seq<nat>, j: seq<nat>, k: seq<nat>, loops: seq<Loop>, x: Loop)
    requires Named(loops) && x.name.Valid() && x.name.Given? && AllSizes(i, j, k, loops)
    ensures Named(loops + [x])
    ensures var c := x.name.First();
            && AllSizes(if c == 'i' then i + [x.size] else i, if c == 'j' then j + [x.size] else j,
                        if c == 'k' then k + [x.size] else k, loops + [x])
            && |i| == CountBefore(loops, |loops|, 'i') && |j| == CountBefore(loops, |loops|, 'j')
            && |k| == CountBefore(loops, |loops|, 'k')
  {
    SizesNext(i, loops, x, 'i');
    SizesNext(j, loops, x, 'j');
    SizesNext(k, loops, x, 'k');
    SizesLength(i, loops, 'i');
    SizesLength(j, loops, 'j');
    SizesLength(k, loops, 'k');
  }

  /** Number the loops of each dimension and collect their sizes. */
  method NameLoops(loops: seq<Loop>) returns (named: seq<Loop>, iSizes: seq<nat>, jSizes: seq<nat>, kSizes: seq<nat>)
    requires Named(loops) && GivenNames(loops)
    ensures Renamed(loops, named)
    ensures SizesAlong(iSizes, loops, 'i') && SizesAlong(jSizes, loops, 'j') && SizesAlong(kSizes, loops, 'k')
  {
    named, iSizes, jSizes, kSizes := loops, [], [], [];
    assert AllSizes([], [], [], loops[..0]);
    assert Renamed(loops[..0], named[..0]);
    hide SizesAlong; hide Renamed; hide Along; hide ProductOf; hide CountBefore;
    for f := 0 to |loops|
      invariant |named| == |loops| && named[f..] == loops[f..]
      invariant Renamed(loops[..f], named[..f]) && AllSizes(iSizes, jSizes, kSizes, loops[..f])
    {
      hide AllSizes;
      var x := loops[f];
      assert loops[..f + 1] == loops[..f] + [x] && named[f] == x;
      AllNext(iSizes, jSizes, kSizes, loops[..f], x);
      ghost var was := named;
      if x.name.First() == 'i' {
        named := named[f := Loop(Local('i', |iSizes|), x.size)];
        iSizes := iSizes + [x.size];
      } else if x.name.First() == 'j' {
        named := named[f := Loop(Local('j', |jSizes|), x.size)];
        jSizes := jSizes + [x.size];
      } else if x.name.First() == 'k' {
        named := named[f := Loop(Local('k', |kSizes|), x.size)];
        kSizes := kSizes + [x.size];
      }
      OneChanged(was, named, f, loops);
      RenamedNext(loops, f, was[..f], named[f]);
    }
    assert loops[..|loops|] == loops && named[..|loops|] == named;
  }

  lemma OneChanged(was: seq<Loop>, named: seq<Loop>, f: nat, loops: seq<Loop>)
    requires f < |was| == |loops| == |named| && named == was[f := named[f]] && was[f..] == loops[f..]
    ensures named[..f + 1] == was[..f] + [named[f]] && named[f + 1..] == loops[f + 1..]
  {
    assert was[f + 1..] == was[f..][1..] && loops[f + 1..] == loops[f..][1..];
  }

  lemma SizesLength(sizes: seq<nat>, loops: seq<Loop>, c: char)
    requires Named(loops) && SizesAlong(sizes, loops, c)
    ensures |sizes| == CountBefore(loops, |loops|, c)
  {
  }

  lemma RenamedNext(loops: seq<Loop>, f: nat, named: seq<Loop>, y: Loop)
    requires Named(loops) && f < |loops| && Renamed(loops[..f], named)
    requires var c := loops[f].name.First();
             y == if c in {'i', 'j', 'k'} then Loop(Local(c, CountBefore(loops[..f], f, c)), loops[f].size) else loops[f]
    ensures Renamed(loops[..f + 1], named + [y])
  {
    forall g | 0 <= g <= f
      ensures var c := loops[g].name.First();
              CountBefore(loops[..f + 1], g, c) == CountBefore(loops[..f], g, c)
    {
      assert loops[..f + 1][..g] == loops[..f][..g];
      CountPrefix(loops[..f + 1], loops[..f], g, loops[g].name.First());
    }
  }

  // ----- the unrolled part

  /** The longest part at the end whose trip count is within the factor; virtual threads are
      unrolled in any case. */
  method UnrollStart(loops: seq<Loop>, factor: nat) returns (start: nat, count: nat)
    ensures start <= |loops| && count == Product(loops[start..]) && Unrolled(loops, factor, start)
  {
    var lines := 0;
    count := 1;
    while lines < |loops|
      invariant 0 <= lines <= |loops| && count == Product(loops[|loops| - lines..])
      invariant forall v :: |loops| - lines <= v < |loops| ==> Within(loops, factor, v)
    {
      var f := loops[|loops| - lines - 1];
      assert loops[|loops| - lines - 1..][1..] == loops[|loops| - lines..];
      if f.name.IsVirtual() || count * f.size <= factor {
        lines := lines + 1;
        count := count * f.size;
      } else {
        break;
      }
    }
    start := |loops| - lines;
  }

  /** Virtual threads are the innermost loops. */
  ghost predicate VirtualLast(loops: seq<Loop>) {
    forall i, j :: 0 <= i < j < |loops| && loops[i].name.Virtual? ==> loops[j].name.Virtual?
  }

  /** The loop may be unrolled if all loops inside it are. */
  ghost predicate Within(loops: seq<Loop>, factor: nat, v: nat)
    requires v < |loops|
  {
    loops[v].name.IsVirtual() || Product(loops[v..]) <= factor
  }

  lemma {:induction false} LongerIsMore(loops: seq<Loop>, v: nat, w: nat)
    requires Positive(loops) && v <= w <= |loops|
    ensures Product(loops[v..]) >= Product(loops[w..])
    decreases w - v
  {
    if v < w {
      LongerIsMore(loops, v + 1, w);
      assert loops[v..][1..] == loops[v + 1..];
      assert loops[v].size * Product(loops[v + 1..]) >= Product(loops[v + 1..]);
    }
  }

  /** The loops from start on are unrolled, and no loop further out can be. */
  ghost predicate Unrolled(loops: seq<Loop>, factor: nat, start: nat) {
    && start <= |loops| && (forall v :: start <= v < |loops| ==> Within(loops, factor, v))
    && (start > 0 ==> !Within(loops, factor, start - 1))
  }

  /** What is unrolled is exactly what may be: a loop is if and only if it and all loops inside it
      pass the test.  If no loop is empty, one test decides: that of the first loop from there
      inwards whose name does not pass for a virtual thread. */
  lemma UnrollsLongest(loops: seq<Loop>, factor: nat, start: nat, v: nat, u: nat)
    requires Unrolled(loops, factor, start) && v <= u <= |loops|
    requires forall w :: v <= w < u ==> loops[w].name.IsVirtual()
    requires u < |loops| ==> !loops[u].name.IsVirtual()
    ensures v >= start <==> forall w :: v <= w < |loops| ==> Within(loops, factor, w)
    ensures Positive(loops) ==> (v >= start <==> u == |loops| || Product(loops[u..]) <= factor)
  {
    if v >= start {
      assert u < |loops| ==> Within(loops, factor, u);
    } else if Positive(loops) {
      assert u <= start - 1;
      LongerIsMore(loops, u, start - 1);
    }
  }

  // ----- virtual threads

  lemma {:induction false} ProductFront(x: nat, sizes: seq<nat>)
    ensures ProductOf([x] + sizes) == x * ProductOf(sizes)
  {
    var s := [x] + sizes;
    if sizes == [] {
      assert s[..|s| - 1] == [];
    } else {
      var last := |sizes| - 1;
      assert s[..|s| - 1] == [x] + sizes[..last];
      ProductFront(x, sizes[..last]);
      Commute(x, ProductOf(sizes[..last]), sizes[last]);
    }
  }

  lemma AlongOne(x: Loop, axis: char)
    requires x.name.Valid()
    ensures Along([x], axis) == if x.name.Axis() == axis then x.size else 1
  {
    assert [x][1..] == [];
  }

  lemma AlongTwo(x: Loop, y: Loop, axis: char)
    requires x.name.Valid() && y.name.Valid()
    ensures Along([x, y], axis) == (if x.name.Axis() == axis then x.size else 1) * (if y.name.Axis() == axis then y.size else 1)
  {
    assert [x, y][1..] == [y];
    AlongOne(y, axis);
  }

  /** How many different values there are. */
  method CountDistinct(data: seq<string>) returns (n: nat)
    ensures n == |set x | x in data| && (n == 0 <==> data == [])
  {
    var seen: set<string> := {};
    for i := 0 to |data|
      invariant seen == set x | x in data[..i]
    {
      seen := seen + {data[i]};
      assert data[..i + 1] == data[..i] + [data[i]];
    }
    assert data[..|data|] == data;
    n := |seen|;
    if data != [] {
      assert data[0] in seen;
    }
  }

  /** Statements that read different data are on different rows; a single one is no loop. */
  ghost function VirtualRows(data: seq<string>): nat {
    if |data| == 1 then 1 else |set x | x in data|
  }

  ghost function VirtualColumns(data: seq<string>): nat
    requires |data| > 0
  {
    if |data| == 1 then 1
    else
      SomeDistinct(data);
      |data| / |set x | x in data|
  }

  lemma SomeDistinct(data: seq<string>)
    requires |data| > 0
    ensures |set x | x in data| > 0
  {
    var all := set x | x in data;
    assert data[0] in all;
  }

  /** One loop for each dimension; i inside j or j inside i. */
  method VirtualLoops(data: seq<string>) returns (vi: nat, vj: nat, tail: seq<Loop>)
    requires |data| > 1
    ensures vi > 0 && Named(tail) && (forall f :: 0 <= f < |tail| ==> tail[f].name.Virtual?)
    ensures Along(tail, 'i') == vi && Along(tail, 'j') == vj && Along(tail, 'k') == 1
    ensures vi == |set x | x in data| && vj == |data| / vi
  {
    vi := CountDistinct(data);
    vj := |data| / vi;
    var i, j := Loop(Virtual('i'), vi), Loop(Virtual('j'), vj);
    tail := [i, j];
    if vi != 1 && vj != 1 && data[0] != data[1] {
      tail := [j, i];
    }
    AlongTwo(tail[0], tail[1], 'i');
    AlongTwo(tail[0], tail[1], 'j');
    AlongTwo(tail[0], tail[1], 'k');
  }

  /** The virtual threads become the innermost loops. */
  method AddVirtual(loops: seq<Loop>, iSizes: seq<nat>, jSizes: seq<nat>, data: seq<string>)
    returns (r: Option<seq<Loop>>, iSizes': seq<nat>, jSizes': seq<nat>)
    requires Named(loops) && ProductOf(iSizes) == Along(loops, 'i') && ProductOf(jSizes) == Along(loops, 'j')
    requires forall f :: 0 <= f < |loops| ==> !loops[f].name.Virtual?
    ensures r.None? <==> |data| == 0
    ensures r.Some? ==>
              var l := r.value;
              && |l| >= |loops| && l[..|loops|] == loops && Named(l) && VirtualLast(l)
              && (forall f :: |loops| <= f < |l| ==> l[f].name.Virtual?)
              && ProductOf(iSizes') == Along(l, 'i') == VirtualRows(data) * Along(loops, 'i')
              && ProductOf(jSizes') == Along(l, 'j') == VirtualColumns(data) * Along(loops, 'j')
              && Along(l, 'k') == Along(loops, 'k')
  {
    hide Along; hide ProductOf;
    iSizes', jSizes' := iSizes, jSizes;
    var tail := [Loop(Virtual(' '), 1)];
    if |data| == 0 {
      return None, iSizes, jSizes;
    } else if |data| != 1 {
      var vi, vj;
      vi, vj, tail := VirtualLoops(data);
      ProductFront(vi, iSizes);
      ProductFront(vj, jSizes);
      iSizes', jSizes' := [vi] + iSizes, [vj] + jSizes;
    } else {
      AlongOne(tail[0], 'i');
      AlongOne(tail[0], 'j');
      AlongOne(tail[0], 'k');
    }
    AlongJoin(loops, tail, 'i');
    AlongJoin(loops, tail, 'j');
    AlongJoin(loops, tail, 'k');
    r := Some(loops + tail);
  }

  // ----- the remaining part

  datatype Part = Part(m: nat, n: nat, k: nat, rest: nat)

  /** A loop whose size is divided by. */
  predicate Divides(x: Loop)
    requires x.name.Valid()
  {
    x.name.First() in {'i', 'j', 'k'}
  }

  lemma AlongNext(loops: seq<Loop>, f: nat, axis: char)
    requires Named(loops) && f < |loops|
    ensures Along(loops[f..], axis) == (if loops[f].name.Axis() == axis then loops[f].size else 1) * Along(loops[f + 1..], axis)
  {
    assert loops[f..][1..] == loops[f + 1..];
  }

  lemma ExactDivision(x: nat, y: nat)
    requires x > 0
    ensures x * y / x == y
  {
    Bits.DivModUnique(x * y, x, y, 0);
  }

  /** Divide the loops that are not unrolled out of the sizes; every division is exact. */
  method DivideOut(loops: seq<Loop>, start: nat, m: nat, n: nat, k: nat) returns (r: Option<Part>)
    requires Named(loops) && start <= |loops| && forall f :: 0 <= f < start ==> !loops[f].name.Virtual?
    requires m == Along(loops, 'i') && n == Along(loops, 'j') && k == Along(loops, 'k')
    ensures r.None? <==> exists f :: 0 <= f < start && Divides(loops[f]) && loops[f].size == 0
    ensures r.Some? ==>
              && r.value.m == Along(loops[start..], 'i') && r.value.n == Along(loops[start..], 'j')
                 && r.value.k == Along(loops[start..], 'k')
              && r.value.rest == Product(loops[..start])
  {
    var p := Part(m, n, k, 1);
    assert loops[0..] == loops;
    for i := 0 to start
      invariant forall f :: 0 <= f < i ==> !(Divides(loops[f]) && loops[f].size == 0)
      invariant p.m == Along(loops[i..], 'i') && p.n == Along(loops[i..], 'j') && p.k == Along(loops[i..], 'k')
          && p.rest == Product(loops[..i])
    {
      var x := loops[i];
      var was := p;
      ProductJoin(loops[..i], [x]);
      assert loops[..i + 1] == loops[..i] + [x] && [x][1..] == [] && Product([x]) == x.size;
      AlongNext(loops, i, 'i');
      AlongNext(loops, i, 'j');
      AlongNext(loops, i, 'k');
      p := p.(rest := p.rest * x.size);
      if Divides(x) {
        if x.size == 0 {
          return None;
        }
        ExactDivision(x.size, Along(loops[i + 1..], x.name.First()));
        if x.name.First() == 'i' {
          p := p.(m := p.m / x.size);
        } else if x.name.First() == 'j' {
          p := p.(n := p.n / x.size);
        } else {
          p := p.(k := p.k / x.size);
        }
      }
    }
    r := Some(p);
  }

  /** The work of the unrolled part, as often as it is repeated, is all the work times the trip
      count of the loops that are not unrolled and run over none of the three dimensions; so it
      is all the work if and only if there is no such trip. */
  lemma UnrollKeepsWork(loops: seq<Loop>, start: nat, p: Part)
    requires Named(loops) && start <= |loops|
    requires p.m == Along(loops[start..], 'i') && p.n == Along(loops[start..], 'j') && p.k == Along(loops[start..], 'k')
    requires p.rest == Product(loops[..start])
    ensures var all := Along(loops, 'i') * Along(loops, 'j') * Along(loops, 'k');
            && p.m * p.n * p.k * p.rest == all * OffAxes(loops[..start])
            && (p.m * p.n * p.k * p.rest == all <==> OffAxes(loops[..start]) == 1 || all == 0)
  {
    hide Along; hide Product; hide OffAxes;
    var a, b := loops[..start], loops[start..];
    assert a + b == loops;
    ByAxis(a);
    AlongJoin(a, b, 'i');
    AlongJoin(a, b, 'j');
    AlongJoin(a, b, 'k');
    Regrouped(Along(a, 'i'), Along(a, 'j'), Along(a, 'k'), p, OffAxes(a), Along(loops, 'i'), Along(loops, 'j'),
        Along(loops, 'k'));
  }

  lemma Regrouped(a: nat, b: nat, c: nat, p: Part, o: nat, i: nat, j: nat, k: nat)
    requires i == a * p.m && j == b * p.n && k == c * p.k && p.rest == a * b * c * o
    ensures p.m * p.n * p.k * p.rest == i * j * k * o
    ensures p.m * p.n * p.k * p.rest == i * j * k <==> o == 1 || i * j * k == 0
  {
    var x, y := p.m * p.n * p.k, a * b * c;
    Bits.MulAssoc(x, y, o);
    assert x * y == i * j * k by {
      Pairs(p.m, p.n, a, b);
      Pairs(p.m * p.n, p.k, a * b, c);
    }
    TimesOne(i * j * k, o);
  }

  lemma Pairs(m: nat, n: nat, a: nat, b: nat)
    ensures (m * n) * (a * b) == (a * m) * (b * n)
  {
    Commute(m * n, a, b);
    Commute(m, n, a);
    Bits.MulAssoc(m * n, a, b);
    Bits.MulAssoc(a * m, n, b);
  }

  lemma TimesOne(x: nat, o: nat)
    ensures x * o == x <==> o == 1 || x == 0
  {
    if o > 1 && x > 0 {
      Bits.MulMono(2, o, x);
    }
  }
}
