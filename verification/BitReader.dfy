/**
 The bit buffer of the inflater.  The whole input is read as one little-endian number,
 so that a bit string is a position in it; the buffer (val, bits, pin) always holds the
 next bits of that number.
 */
module BitReader {
  import opened Bits

  /** The input as one number, first byte least significant. */
  ghost function Stream(b: seq<nat>): nat {
    if |b| == 0 then 0 else b[0] + 256 * Stream(b[1..])
  }

  /** The n bits of s that start at bit p. */
  ghost function Window(s: nat, p: nat, n: nat): (r: nat)
    ensures r < Pow2(n)
  {
    (s / Pow2(p)) % Pow2(n)
  }

  lemma {:induction false} StreamFrom(b: seq<nat>, k: nat)
    requires k <= |b| && AllBytes(b)
    ensures Stream(b) / Pow2(8 * k) == Stream(b[k..])
  {
    if k == 0 {
      assert b[0..] == b;
    } else {
      var rest := b[1..];
      StreamFrom(rest, k - 1);
      assert rest[k - 1..] == b[k..];
      Split(Stream(b), 8, 8 * (k - 1));
      Pow2Values();
      assert Stream(b) / 256 == Stream(rest);
    }
  }

  lemma StreamByte(b: seq<nat>, k: nat)
    requires k < |b| && AllBytes(b)
    ensures Window(Stream(b), 8 * k, 8) == b[k]
  {
    Pow2Values();
    hide Pow2;
    StreamFrom(b, k);
    var rest := Stream(b[k..][1..]);
    assert Stream(b[k..]) == b[k] + 256 * rest;
    hide Stream;
    DivModUnique(b[k] + 256 * rest, 256, rest, b[k]);
  }

  lemma StreamWord(b: seq<nat>, k: nat)
    requires k + 4 <= |b| && AllBytes(b)
    ensures Window(Stream(b), 8 * k, 32) == b[k] + b[k + 1] * 0x100 + b[k + 2] * 0x10000 + b[k + 3] * 0x1000000
  {
    hide Pow2;
    StreamFrom(b, k);
    var c := b[k..];
    assert Stream(c) == c[0] + 256 * Stream(c[1..]);
    assert Stream(c[1..]) == c[1] + 256 * Stream(c[2..]) by { assert c[1..][1..] == c[2..]; }
    assert Stream(c[2..]) == c[2] + 256 * Stream(c[3..]) by { assert c[2..][1..] == c[3..]; }
    assert Stream(c[3..]) == c[3] + 256 * Stream(c[4..]) by { assert c[3..][1..] == c[4..]; }
    assert Pow2(32) == 0x1_0000_0000 by { Pow2Add(16, 16); Pow2Add(8, 8); Pow2Values(); }
    DivModUnique(Stream(c), 0x1_0000_0000, Stream(c[4..]), c[0] + c[1] * 0x100 + c[2] * 0x10000 + c[3] * 0x1000000);
  }

  /** A longer window is a shorter one followed by the next. */
  lemma WindowAppend(s: nat, p: nat, m: nat, n: nat)
    ensures Window(s, p, m + n) == Window(s, p, m) + Window(s, p + m, n) * Pow2(m)
    ensures Window(s, p, m + n) % Pow2(m) == Window(s, p, m)
    ensures Window(s, p, m + n) / Pow2(m) == Window(s, p + m, n)
  {
    hide Pow2;
    Split(s, p, m);
    Split(s / Pow2(p), m, n);
  }

  lemma WindowEmpty(s: nat, p: nat)
    ensures Window(s, p, 0) == 0
  {
  }

  /** A fetch that fails is at most so far from the end: three bytes and fourteen buffered bits. */
  const SPARE_BITS: nat := 38

  class Reader {
    const input: seq<nat>
    var pin: nat
    var val: nat
    var bits: nat

    ghost predicate Valid()
      reads this
    {
      && AllBytes(input) && pin <= |input| && bits <= 8 * pin && bits <= 46
      && val == Window(Stream(input), 8 * pin - bits, bits)
    }

    /** How many bits of the input have been used. */
    ghost function Pos(): nat
      requires Valid()
      reads this
    {
      8 * pin - bits
    }

    constructor (input: seq<nat>, first: nat)
      requires AllBytes(input) && first <= |input|
      ensures Valid() && this.input == input && Pos() == 8 * first && bits == 0
    {
      this.input := input;
      pin, val, bits := first, 0, 0;
      new;
      WindowEmpty(Stream(input), 8 * first);
    }

    /** Take single bytes up to the first word boundary; the input lies at an address that is
        align modulo 4. */
    method Align(align: nat)
      requires Valid() && bits == 0 && pin + 3 <= |input|
      modifies this
      ensures Valid() && Pos() == old(Pos()) && (align + pin) % 4 == 0
    {
      hide Pow2; hide Stream; hide Window;
      ghost var last := pin + (4 - (align + pin) % 4) % 4;
      assert (align + last) % 4 == 0;
      while (align + pin) % 4 != 0
        invariant Valid() && pin <= last && bits == 8 * (pin - old(pin))
        decreases last - pin
      {
        AddByte();
      }
    }

    method AddByte()
      requires Valid() && pin < |input| && bits <= 16
      modifies this
      ensures Valid() && pin == old(pin) + 1 && bits == old(bits) + 8
    {
      hide Pow2; hide Stream; hide Window;
      StreamByte(input, pin);
      WindowAppend(Stream(input), Pos(), bits, 8);
      val := val + input[pin] * Pow2(bits);
      bits := bits + 8;
      pin := pin + 1;
    }

    /** Make sure that at least 15 bits are at hand, reading four more bytes if not. */
    method Fetch() returns (ok: bool)
      requires Valid()
      modifies this
      ensures Valid() && Pos() == old(Pos())
      ensures ok ==> bits >= 15
      ensures ok == (old(bits) >= 15 || |input| - old(pin) >= 4)
      ensures !ok ==> bits == old(bits) && pin == old(pin) && val == old(val)
      ensures !ok ==> Pos() + SPARE_BITS >= 8 * |input|
    {
      hide Pow2; hide Stream; hide Window;
      if bits >= 15 {
        return true;
      }
      if |input| - pin < 4 {
        return false;
      }
      var next := input[pin] + input[pin + 1] * 0x100 + input[pin + 2] * 0x10000 + input[pin + 3] * 0x1000000;
      StreamWord(input, pin);
      WindowAppend(Stream(input), Pos(), bits, 32);
      val := val + next * Pow2(bits);
      bits := bits + 32;
      pin := pin + 4;
      return true;
    }

    /** The next n bits, without using them. */
    lemma Peeked(n: nat)
      requires Valid() && n <= bits
      ensures val % Pow2(n) == Window(Stream(input), Pos(), n)
      ensures val / Pow2(n) == Window(Stream(input), Pos() + n, bits - n)
    {
      hide Pow2; hide Stream; hide Window;
      WindowAppend(Stream(input), Pos(), n, bits - n);
    }

    /** Use n bits. */
    method Drop(n: nat)
      requires Valid() && n <= bits
      modifies this
      ensures Valid() && Pos() == old(Pos()) + n && bits == old(bits) - n
    {
      hide Pow2; hide Stream; hide Window;
      Peeked(n);
      val := val / Pow2(n);
      bits := bits - n;
    }

    method Take(n: nat) returns (x: nat)
      requires Valid() && n <= bits
      modifies this
      ensures Valid() && Pos() == old(Pos()) + n && bits == old(bits) - n
      ensures x == Window(Stream(input), old(Pos()), n)
    {
      Peeked(n);
      x := val % Pow2(n);
      Drop(n);
    }
  }
}
