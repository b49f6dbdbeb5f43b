/**
 Copying a match.  Section 3.2.3 of RFC 1951 lets a match overlap the bytes it
 produces, which means copying one byte at a time; both decompressors copy in blocks.
 */
module MatchCopy {

  /** The byte-at-a-time copy: append len bytes, each the one dist back. */
  ghost function RefCopy<T>(out: seq<T>, dist: nat, len: nat): (r: seq<T>)
    requires 1 <= dist <= |out|
    ensures |r| == |out| + len
    decreases len
  {
    if len == 0 then out else RefCopy(out + [out[|out| - dist]], dist, len - 1)
  }

  /** What was there stays, and each new byte equals the one dist back, be that old or new. */
  lemma {:induction false} CopyMeans<T>(out: seq<T>, dist: nat, len: nat)
    requires 1 <= dist <= |out|
    ensures RefCopy(out, dist, len)[..|out|] == out
    ensures forall i :: |out| <= i < |out| + len ==> RefCopy(out, dist, len)[i] == RefCopy(out, dist, len)[i - dist]
    decreases len
  {
    if len > 0 {
      var next := out + [out[|out| - dist]];
      CopyMeans(next, dist, len - 1);
      var r := RefCopy(out, dist, len);
      assert r[..|next|] == next;
      assert r[..|out|] == r[..|next|][..|out|];
      assert r[|out|] == r[..|next|][|out|] && r[|out| - dist] == r[..|next|][|out| - dist];
    }
  }

  lemma CopyNone<T>(out: seq<T>, dist: nat)
    requires 1 <= dist <= |out|
    ensures RefCopy(out, dist, 0) == out
  {
  }

  lemma {:induction false} CopyTwice<T>(out: seq<T>, dist: nat, m: nat, n: nat)
    requires 1 <= dist <= |out|
    ensures RefCopy(RefCopy(out, dist, m), dist, n) == RefCopy(out, dist, m + n)
    decreases m
  {
    if m > 0 {
      CopyTwice(out + [out[|out| - dist]], dist, m - 1, n);
    }
  }

  /** While no more than dist bytes are copied, the source does not include new bytes. */
  lemma {:induction false} CopyBlock<T>(out: seq<T>, dist: nat, n: nat)
    requires 1 <= dist <= |out| && n <= dist
    ensures RefCopy(out, dist, n) == out + out[|out| - dist..|out| - dist + n]
    decreases n
  {
    if n == 0 {
      assert out[|out| - dist..|out| - dist] == [];
    } else {
      CopyBlock(out, dist, n - 1);
      CopyTwice(out, dist, n - 1, 1);
      var mid := RefCopy(out, dist, n - 1);
      assert RefCopy(mid, dist, 1) == mid + [mid[|mid| - dist]] by {
        assert RefCopy(mid, dist, 1) == RefCopy(mid + [mid[|mid| - dist]], dist, 0);
      }
      assert mid[|mid| - dist] == out[|out| - dist + n - 1];
      assert out[|out| - dist..|out| - dist + n] == out[|out| - dist..|out| - dist + n - 1] + [out[|out| - dist + n - 1]];
    }
  }

  /** At distance 1 the last byte is repeated. */
  lemma {:induction false} CopyRun<T>(out: seq<T>, len: nat)
    requires 1 <= |out|
    ensures RefCopy(out, 1, len) == out + seq(len, _ => out[|out| - 1])
    decreases len
  {
    if len == 0 {
      assert seq(0, _ => out[|out| - 1]) == [];
    } else {
      var last := out[|out| - 1];
      CopyRun(out + [last], len - 1);
      assert seq(len, _ => last) == [last] + seq(len - 1, _ => last);
    }
  }

  method MemCopy<T>(a: array<T>, dst: nat, src: nat, n: nat)
    requires src + n <= dst && dst + n <= a.Length
    modifies a
    ensures a[..dst] == old(a[..dst]) && a[dst..dst + n] == old(a[src..src + n])
    ensures a[dst + n..] == old(a[dst + n..])
  {
    forall i | 0 <= i < n {
      a[dst + i] := a[src + i];
    }
  }

  method MemSet<T>(a: array<T>, dst: nat, x: T, n: nat)
    requires dst + n <= a.Length
    modifies a
    ensures a[..dst] == old(a[..dst]) && a[dst..dst + n] == seq(n, _ => x)
    ensures a[dst + n..] == old(a[dst + n..])
  {
    forall i | 0 <= i < n {
      a[dst + i] := x;
    }
  }

  /** A block copy is the byte-at-a-time copy of that many bytes. */
  method CopyChunk<T>(a: array<T>, pout: nat, dist: nat, n: nat)
    requires 1 <= dist <= pout && n <= dist && pout + n <= a.Length
    modifies a
    ensures a[..pout + n] == RefCopy(old(a[..pout]), dist, n)
    ensures a[pout + n..] == old(a[pout + n..])
  {
    ghost var out := a[..pout];
    CopyBlock(out, dist, n);
    hide RefCopy;
    assert out[pout - dist..pout - dist + n] == a[pout - dist..pout - dist + n];
    MemCopy(a, pout, pout - dist, n);
    assert a[..pout + n] == a[..pout] + a[pout..pout + n];
  }

  /** Write the next len bytes of the output: a run, one block, or block after block. */
  method CopyMatch<T>(a: array<T>, pout: nat, dist: nat, len: nat)
    requires 1 <= dist <= pout && pout + len <= a.Length
    modifies a
    ensures a[..pout + len] == RefCopy(old(a[..pout]), dist, len)
    ensures a[pout + len..] == old(a[pout + len..])
  {
    if dist == 1 {
      CopyRun(a[..pout], len);
      MemSet(a, pout, a[pout - 1], len);
      assert a[..pout + len] == a[..pout] + a[pout..pout + len];
    } else if dist >= len {
      CopyChunk(a, pout, dist, len);
    } else {
      CopyBlocks(a, pout, dist, len);
    }
  }

  method CopyBlocks<T>(a: array<T>, pout0: nat, dist: nat, len0: nat)
    requires 1 <= dist <= pout0 && pout0 + len0 <= a.Length
    modifies a
    ensures a[..pout0 + len0] == RefCopy(old(a[..pout0]), dist, len0)
    ensures a[pout0 + len0..] == old(a[pout0 + len0..])
  {
    hide RefCopy;
    var len: nat, pout: nat := len0, pout0;
    ghost var out := a[..pout0];
    CopyNone(out, dist);
    while len > 0
      invariant 0 <= len <= len0 && pout + len == pout0 + len0
      invariant a[..pout] == RefCopy(out, dist, len0 - len)
      invariant a[pout0 + len0..] == old(a[pout0 + len0..])
    {
      assert pout >= pout0 >= dist;
      var copy: nat := if len < dist then len else dist;
      CopyTwice(out, dist, len0 - len, copy);
      ghost var tail, rest := a[pout + copy..], a[pout0 + len0..];
      assert tail[len - copy..] == rest;
      CopyChunk(a, pout, dist, copy);
      assert a[pout0 + len0..] == a[pout + copy..][len - copy..];
      len := len - copy;
      pout := pout + copy;
    }
  }
}
