/**
 The checksum of a zlib stream.  Section 8.2 of RFC 1950 reduces two sums modulo 65521 after
 every byte; the code does so once in 5552 bytes, which is as long as 32 bits allow.
 */
module Adler {
  import opened Bits

  const BASE: nat := 65521
  const WORD: nat := 0x1_0000_0000
  const CHUNK: nat := 5552

  datatype Sums = Sums(s1: nat, s2: nat)

  /** The definition: both sums are reduced after every byte. */
  ghost function Reduced(data: seq<nat>): (r: Sums)
    ensures r.s1 < BASE && r.s2 < BASE
  {
    if data == [] then Sums(1, 0)
    else
      var r := Reduced(data[..|data| - 1]);
      var s1 := (r.s1 + data[|data| - 1]) % BASE;
      Sums(s1, (r.s2 + s1) % BASE)
  }

  ghost function Checksum(data: seq<nat>): nat {
    Reduced(data).s2 * 0x1_0000 + Reduced(data).s1
  }

  /** The checksum of the letters abc, and the bytes in which it is stored. */
  lemma LettersChecksum(data: seq<nat>, check: seq<nat>)
    requires data == [0x61, 0x62, 0x63] && check == [0x02, 0x4d, 0x01, 0x27]
    ensures Checksum(data) == 0x024d_0127 == BigEndian(check)
  {
    assert check[..3] == [0x02, 0x4d, 0x01] && check[..3][..2] == [0x02, 0x4d] && check[..3][..2][..1] == [0x02];
    assert BigEndian(check[..3][..2][..1][..0]) == 0 && BigEndian(check[..3][..2][..1]) == 0x02;
    assert BigEndian(check[..3][..2]) == 0x024d && BigEndian(check[..3]) == 0x02_4d01;
    assert data[..2] == [0x61, 0x62] && data[..2][..1] == [0x61] && data[..2][..1][..0] == [];
    assert Reduced(data[..2][..1]) == Sums(98, 98);
    assert Reduced(data[..2]) == Sums(196, 294);
  }

  /** The second sum after n bytes of 255 on top of the largest reduced sums. */
  ghost function Worst(n: nat): nat {
    if n == 0 then BASE - 1 else Worst(n - 1) + (BASE - 1) + 255 * n
  }

  lemma {:induction false} WorstIs(n: nat)
    ensures 2 * Worst(n) == 2 * (BASE - 1) * (n + 1) + 255 * (n * (n + 1))
  {
    if n > 0 {
      WorstIs(n - 1);
      assert n * (n + 1) == (n - 1) * n + 2 * n;
    }
  }

  lemma {:induction false} WorstGrows(m: nat, n: nat)
    requires m <= n
    ensures Worst(m) <= Worst(n)
  {
    if m < n {
      WorstGrows(m, n - 1);
    }
  }

  /** Within a chunk the second sum stays below 2^32, but one byte more could reach it. */
  lemma ChunkIsLongest()
    ensures Worst(CHUNK) < WORD <= Worst(CHUNK + 1)
  {
    WorstIs(CHUNK);
    WorstIs(CHUNK + 1);
  }

  /** n bytes after a reduction. */
  ghost predicate Deferred(data: seq<nat>, n: nat, s: Sums) {
    && s.s1 % BASE == Reduced(data).s1 && s.s2 % BASE == Reduced(data).s2
    && s.s1 <= BASE - 1 + 255 * n && s.s2 <= Worst(n)
  }

  lemma DeferredNext(data: seq<nat>, n: nat, s: Sums, b: nat)
    requires Deferred(data, n, s) && n < CHUNK && b < 256
    ensures Deferred(data + [b], n + 1, Sums(s.s1 + b, s.s2 + s.s1 + b))
    ensures s.s1 + b < WORD && s.s2 + s.s1 + b < WORD
  {
    ChunkIsLongest();
    WorstGrows(n + 1, CHUNK);
    var d := data + [b];
    assert d[..|d| - 1] == data;
    Congruent(s.s1, b);
    Congruent(s.s2, s.s1 + b);
  }

  lemma Congruent(x: nat, y: nat)
    ensures (x + y) % BASE == (x % BASE + y) % BASE == (x % BASE + y % BASE) % BASE
  {
  }

  lemma DeferredReduce(data: seq<nat>, n: nat, s: Sums)
    requires Deferred(data, n, s)
    ensures Deferred(data, 0, Sums(s.s1 % BASE, s.s2 % BASE))
    ensures Sums(s.s1 % BASE, s.s2 % BASE) == Reduced(data)
  {
  }

  /** Add count bytes on 32-bit words, without a reduction. */
  method Add(data: seq<nat>, p: nat, count: nat, ghost n: nat, a1: nat, a2: nat) returns (s1: nat, s2: nat)
    requires AllBytes(data) && p + count <= |data| && n + count <= CHUNK && Deferred(data[..p], n, Sums(a1, a2))
    ensures Deferred(data[..p + count], n + count, Sums(s1, s2))
  {
    s1, s2 := a1, a2;
    for i := 0 to count
      invariant Deferred(data[..p + i], n + i, Sums(s1, s2))
    {
      hide Deferred;
      DeferredNext(data[..p + i], n + i, Sums(s1, s2), data[p + i]);
      assert data[..p + i] + [data[p + i]] == data[..p + i + 1];
      Small(s1 + data[p + i]);
      Small(s2 + s1 + data[p + i]);
      s1 := (s1 + data[p + i]) % WORD;
      s2 := (s2 + s1) % WORD;
    }
  }

  lemma Small(x: nat)
    ensures x < WORD ==> x % WORD == x
  {
  }

  ghost function BigEndian(b: seq<nat>): nat {
    if b == [] then 0 else BigEndian(b[..|b| - 1]) * 256 + b[|b| - 1]
  }

  /** The check against the four bytes behind the data. */
  method Verify(check: seq<nat>, data: seq<nat>) returns (ok: bool)
    requires AllBytes(check) && |check| == 4 && AllBytes(data)
    ensures ok <==> BigEndian(check) == Checksum(data)
  {
    hide Deferred; hide Reduced;
    var cksum := 0;
    for i := 0 to 4
      invariant cksum == BigEndian(check[..i])
    {
      assert check[..i + 1][..i] == check[..i];
      cksum := cksum * 256 + check[i];
    }
    assert check[..4] == check;
    var s1: nat, s2: nat, p: nat, hsz: nat := 1, 0, 0, |data|;
    DeferredFirst(data);
    while hsz >= CHUNK
      invariant p + hsz == |data| && Deferred(data[..p], 0, Sums(s1, s2))
    {
      var i := 0;
      while i < CHUNK
        invariant 0 <= i <= CHUNK && i % 16 == 0 && Deferred(data[..p + i], i, Sums(s1, s2))
      {
        s1, s2 := Add(data, p + i, 16, i, s1, s2);
        i := i + 16;
      }
      DeferredReduce(data[..p + CHUNK], CHUNK, Sums(s1, s2));
      p, hsz := p + CHUNK, hsz - CHUNK;
      s1, s2 := s1 % BASE, s2 % BASE;
    }
    ghost var n := 0;
    while hsz >= 16
      invariant n + hsz < CHUNK && p + hsz == |data| && Deferred(data[..p], n, Sums(s1, s2))
    {
      s1, s2 := Add(data, p, 16, n, s1, s2);
      p, hsz, n := p + 16, hsz - 16, n + 16;
    }
    s1, s2 := Add(data, p, hsz, n, s1, s2);
    assert data[..p + hsz] == data;
    DeferredReduce(data, n + hsz, Sums(s1, s2));
    s1, s2 := s1 % BASE, s2 % BASE;
    ok := (s2 * 0x1_0000 + s1) % WORD == cksum;
  }

  lemma DeferredFirst(data: seq<nat>)
    ensures Deferred(data[..0], 0, Sums(1, 0))
  {
  }

  // ----- what the checksum notices

  ghost function Total(data: seq<nat>): nat {
    if data == [] then 0 else Total(data[..|data| - 1]) + data[|data| - 1]
  }

  lemma {:induction false} FirstSum(data: seq<nat>)
    ensures Reduced(data).s1 == (1 + Total(data)) % BASE
  {
    if data != [] {
      FirstSum(data[..|data| - 1]);
      Congruent(1 + Total(data[..|data| - 1]), data[|data| - 1]);
    }
  }

  lemma {:induction false} TotalChange(data: seq<nat>, i: nat, b: nat)
    requires i < |data|
    ensures Total(data[i := b]) == Total(data) - data[i] + b
    decreases |data|
  {
    var last := |data| - 1;
    var changed := data[i := b];
    if i == last {
      assert changed[..last] == data[..last];
    } else {
      assert changed[..last] == data[..last][i := b];
      TotalChange(data[..last], i, b);
    }
  }

  /** A change of one byte changes the checksum. */
  lemma OneByteNoticed(data: seq<nat>, i: nat, b: nat)
    requires AllBytes(data) && i < |data| && b < 256 && b != data[i]
    ensures Checksum(data[i := b]) != Checksum(data)
  {
    hide Reduced; hide Total; hide Checksum;
    FirstSum(data);
    FirstSum(data[i := b]);
    TotalChange(data, i, b);
    NearbyDiffer(1 + Total(data), 1 + Total(data[i := b]));
    NearbyDiffer(1 + Total(data[i := b]), 1 + Total(data));
    ChecksumsDiffer(data, data[i := b]);
  }

  lemma ChecksumsDiffer(a: seq<nat>, b: seq<nat>)
    requires Reduced(a).s1 != Reduced(b).s1
    ensures Checksum(a) != Checksum(b)
  {
    hide Reduced;
  }

  lemma NearbyDiffer(x: nat, y: nat)
    ensures x < y < x + BASE ==> x % BASE != y % BASE
  {
  }
}
