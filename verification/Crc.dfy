/**
 The CRC-32 of debug link files and xz blocks, one table lookup a byte, against the division
 by the reflected polynomial of section 8 of RFC 1952, one message bit at a time.
 */
module Crc {

  const POLYNOMIAL: bv32 := 0xedb8_8320

  function Xor(a: bv32, b: bv32): bv32 {
    a ^ b
  }

  function Half(x: bv32): bv32 {
    x >> 1
  }

  predicate Odd(x: bv32) {
    x & 1 == 1
  }

  // ----- the definition

  /** Divide by the polynomial: bring in one bit of the message. */
  function Shift(crc: bv32, bit: bool): bv32 {
    if Odd(crc) != bit then Xor(Half(crc), POLYNOMIAL) else Half(crc)
  }

  /** The message bits of a byte come lowest first. */
  ghost function LowBits(b: bv32, n: nat): seq<bool>
    decreases n
  {
    if n == 0 then [] else [Odd(b)] + LowBits(Half(b), n - 1)
  }

  ghost function Message(data: seq<bv8>): seq<bool> {
    if data == [] then [] else LowBits(data[0] as bv32, 8) + Message(data[1..])
  }

  ghost function Divide(crc: bv32, bits: seq<bool>): bv32
    decreases |bits|
  {
    if bits == [] then crc else Divide(Shift(crc, bits[0]), bits[1..])
  }

  /** The register starts and ends inverted. */
  ghost function Reference(crc: bv32, data: seq<bv8>): bv32 {
    Invert(Divide(Invert(crc), Message(data)))
  }

  function Invert(x: bv32): bv32 {
    x ^ 0xffff_ffff
  }

  // ----- bit vectors

  lemma HalfXor(x: bv32, y: bv32)
    ensures Half(Xor(x, y)) == Xor(Half(x), Half(y))
  {
  }

  lemma OddXor(x: bv32, y: bv32)
    ensures Odd(Xor(x, y)) == (Odd(x) != Odd(y))
  {
  }

  lemma XorCancel(a: bv32, b: bv32, p: bv32)
    ensures Xor(Xor(a, p), Xor(b, p)) == Xor(a, b)
  {
    XorTwice(Xor(a, b), p);
    hide Xor;
    XorSwap(a, Xor(b, p), p);
    XorSwap(a, b, p);
  }

  lemma XorTwice(a: bv32, p: bv32)
    ensures Xor(Xor(a, p), p) == a
  {
  }

  lemma XorSwap(a: bv32, b: bv32, p: bv32)
    ensures Xor(Xor(a, p), b) == Xor(Xor(a, b), p) == Xor(a, Xor(b, p))
  {
    hide Xor;
    XorAssociative(a, p, b);
    XorAssociative(a, b, p);
    XorCommutative(p, b);
  }

  lemma XorAssociative(a: bv32, b: bv32, c: bv32)
    ensures Xor(Xor(a, b), c) == Xor(a, Xor(b, c))
  {
  }

  lemma XorCommutative(a: bv32, b: bv32)
    ensures Xor(a, b) == Xor(b, a)
  {
  }

  lemma XorZero(a: bv32)
    ensures Xor(a, 0) == a
  {
  }

  lemma InvertTwice(x: bv32)
    ensures Invert(Invert(x)) == x
  {
  }

  // ----- eight bits at once

  function Step(x: bv32): bv32 {
    Shift(x, false)
  }

  ghost function Steps(x: bv32, n: nat): bv32
    decreases n
  {
    if n == 0 then x else Steps(Step(x), n - 1)
  }

  /** The bits of a byte can be added to the register before they are needed. */
  lemma StepAhead(crc: bv32, b: bv32)
    ensures Step(Xor(crc, b)) == Xor(Shift(crc, Odd(b)), Half(b))
  {
    hide Xor; hide Half; hide Odd;
    HalfXor(crc, b);
    OddXor(crc, b);
    XorSwap(Half(crc), Half(b), POLYNOMIAL);
  }

  lemma {:induction false} DivideJoin(crc: bv32, a: seq<bool>, b: seq<bool>)
    ensures Divide(crc, a + b) == Divide(Divide(crc, a), b)
    decreases |a|
  {
    hide Shift;
    if a == [] {
      assert a + b == b;
    } else {
      assert (a + b)[1..] == a[1..] + b;
      DivideJoin(Shift(crc, a[0]), a[1..], b);
    }
  }

  /** What is left of b after n bits. */
  ghost function Dropped(b: bv32, n: nat): bv32
    decreases n
  {
    if n == 0 then b else Dropped(Half(b), n - 1)
  }

  lemma {:induction false} BitsAhead(crc: bv32, b: bv32, n: nat)
    ensures Xor(Divide(crc, LowBits(b, n)), Dropped(b, n)) == Steps(Xor(crc, b), n)
    decreases n
  {
    hide Shift; hide Step; hide Xor; hide Half; hide Odd;
    if n > 0 {
      StepAhead(crc, b);
      var bits := LowBits(b, n);
      assert bits[0] == Odd(b) && bits[1..] == LowBits(Half(b), n - 1);
      BitsAhead(Shift(crc, Odd(b)), Half(b), n - 1);
    }
  }

  lemma {:induction false} DroppedAdd(b: bv32, m: nat, n: nat)
    ensures Dropped(Dropped(b, m), n) == Dropped(b, m + n)
    decreases m
  {
    hide Half;
    if m > 0 {
      DroppedAdd(Half(b), m - 1, n);
    }
  }

  lemma DroppedTwo(b: bv32)
    ensures Dropped(b, 2) == b >> 2
  {
    assert Dropped(b, 2) == Half(Half(b));
  }

  lemma DroppedByte(b: bv32)
    requires b < 256
    ensures Dropped(b, 8) == 0
  {
    hide Dropped;
    DroppedAdd(b, 2, 6);
    DroppedAdd(b >> 2, 2, 4);
    DroppedAdd(b >> 2 >> 2, 2, 2);
    DroppedTwo(b);
    DroppedTwo(b >> 2);
    DroppedTwo(b >> 2 >> 2);
    DroppedTwo(b >> 2 >> 2 >> 2);
  }

  /** A byte is eight steps on the register with the byte added to it. */
  lemma ByteIsEight(crc: bv32, b: bv8)
    ensures Divide(crc, LowBits(b as bv32, 8)) == Steps(Xor(crc, b as bv32), 8)
  {
    hide Divide; hide LowBits; hide Dropped; hide Steps; hide Xor;
    BitsAhead(crc, b as bv32, 8);
    DroppedByte(b as bv32);
    XorZero(Divide(crc, LowBits(b as bv32, 8)));
  }

  // ----- steps are linear

  lemma StepLinear(x: bv32, y: bv32)
    ensures Step(Xor(x, y)) == Xor(Step(x), Step(y))
  {
    hide Xor; hide Half; hide Odd;
    HalfXor(x, y);
    OddXor(x, y);
    XorCancel(Half(x), Half(y), POLYNOMIAL);
    XorSwap(Half(x), Half(y), POLYNOMIAL);
  }

  lemma {:induction false} StepsLinear(x: bv32, y: bv32, n: nat)
    ensures Steps(Xor(x, y), n) == Xor(Steps(x, n), Steps(y, n))
    decreases n
  {
    hide Xor; hide Step;
    if n > 0 {
      StepLinear(x, y);
      StepsLinear(Step(x), Step(y), n - 1);
    }
  }

  function Eight(x: bv32): bv32 {
    Step(Step(Step(Step(Step(Step(Step(Step(x))))))))
  }

  lemma StepsEight(x: bv32)
    ensures Steps(x, 8) == Eight(x)
  {
    hide Step;
    var x4 := Step(Step(Step(Step(x))));
    assert Steps(x, 8) == Steps(Step(x), 7) == Steps(Step(Step(x)), 6) == Steps(Step(Step(Step(x))), 5) == Steps(x4, 4);
    assert Steps(x4, 4) == Steps(Step(x4), 3) == Steps(Step(Step(x4)), 2) == Steps(Step(Step(Step(x4))), 1);
  }

  lemma EightLinear(x: bv32, y: bv32)
    ensures Eight(Xor(x, y)) == Xor(Eight(x), Eight(y))
  {
    hide Steps; hide Eight; hide Xor;
    StepsLinear(x, y, 8);
    StepsEight(x);
    StepsEight(y);
    StepsEight(Xor(x, y));
  }

  function LowByte(x: bv32): bv32 {
    x & 0xff
  }

  function Others(x: bv32): bv32 {
    x & 0xffff_ff00
  }

  function Down(x: bv32): bv32 {
    x >> 8
  }

  lemma OthersMove(x: bv32)
    ensures Eight(Others(x)) == Down(x)
  {
  }

  lemma TwoParts(x: bv32)
    ensures x == Xor(LowByte(x), Others(x))
  {
  }

  /** Only the lowest byte needs the polynomial; the others move down. */
  lemma EightByTable(x: bv32)
    ensures Eight(x) == Xor(Eight(LowByte(x)), Down(x))
  {
    hide Eight; hide LowByte; hide Others; hide Down; hide Xor;
    TwoParts(x);
    EightLinear(LowByte(x), Others(x));
    OthersMove(x);
  }

  // ----- the table

  const ROW0: seq<bv32> := [
    0x00000000, 0x77073096, 0xee0e612c, 0x990951ba, 0x076dc419, 0x706af48f, 0xe963a535, 0x9e6495a3,
    0x0edb8832, 0x79dcb8a4, 0xe0d5e91e, 0x97d2d988, 0x09b64c2b, 0x7eb17cbd, 0xe7b82d07, 0x90bf1d91]

  const ROW1: seq<bv32> := [
    0x1db71064, 0x6ab020f2, 0xf3b97148, 0x84be41de, 0x1adad47d, 0x6ddde4eb, 0xf4d4b551, 0x83d385c7,
    0x136c9856, 0x646ba8c0, 0xfd62f97a, 0x8a65c9ec, 0x14015c4f, 0x63066cd9, 0xfa0f3d63, 0x8d080df5]

  const ROW2: seq<bv32> := [
    0x3b6e20c8, 0x4c69105e, 0xd56041e4, 0xa2677172, 0x3c03e4d1, 0x4b04d447, 0xd20d85fd, 0xa50ab56b,
    0x35b5a8fa, 0x42b2986c, 0xdbbbc9d6, 0xacbcf940, 0x32d86ce3, 0x45df5c75, 0xdcd60dcf, 0xabd13d59]

  const ROW3: seq<bv32> := [
    0x26d930ac, 0x51de003a, 0xc8d75180, 0xbfd06116, 0x21b4f4b5, 0x56b3c423, 0xcfba9599, 0xb8bda50f,
    0x2802b89e, 0x5f058808, 0xc60cd9b2, 0xb10be924, 0x2f6f7c87, 0x58684c11, 0xc1611dab, 0xb6662d3d]

  const ROW4: seq<bv32> := [
    0x76dc4190, 0x01db7106, 0x98d220bc, 0xefd5102a, 0x71b18589, 0x06b6b51f, 0x9fbfe4a5, 0xe8b8d433,
    0x7807c9a2, 0x0f00f934, 0x9609a88e, 0xe10e9818, 0x7f6a0dbb, 0x086d3d2d, 0x91646c97, 0xe6635c01]

  const ROW5: seq<bv32> := [
    0x6b6b51f4, 0x1c6c6162, 0x856530d8, 0xf262004e, 0x6c0695ed, 0x1b01a57b, 0x8208f4c1, 0xf50fc457,
    0x65b0d9c6, 0x12b7e950, 0x8bbeb8ea, 0xfcb9887c, 0x62dd1ddf, 0x15da2d49, 0x8cd37cf3, 0xfbd44c65]

  const ROW6: seq<bv32> := [
    0x4db26158, 0x3ab551ce, 0xa3bc0074, 0xd4bb30e2, 0x4adfa541, 0x3dd895d7, 0xa4d1c46d, 0xd3d6f4fb,
    0x4369e96a, 0x346ed9fc, 0xad678846, 0xda60b8d0, 0x44042d73, 0x33031de5, 0xaa0a4c5f, 0xdd0d7cc9]

  const ROW7: seq<bv32> := [
    0x5005713c, 0x270241aa, 0xbe0b1010, 0xc90c2086, 0x5768b525, 0x206f85b3, 0xb966d409, 0xce61e49f,
    0x5edef90e, 0x29d9c998, 0xb0d09822, 0xc7d7a8b4, 0x59b33d17, 0x2eb40d81, 0xb7bd5c3b, 0xc0ba6cad]

  const ROW8: seq<bv32> := [
    0xedb88320, 0x9abfb3b6, 0x03b6e20c, 0x74b1d29a, 0xead54739, 0x9dd277af, 0x04db2615, 0x73dc1683,
    0xe3630b12, 0x94643b84, 0x0d6d6a3e, 0x7a6a5aa8, 0xe40ecf0b, 0x9309ff9d, 0x0a00ae27, 0x7d079eb1]

  const ROW9: seq<bv32> := [
    0xf00f9344, 0x8708a3d2, 0x1e01f268, 0x6906c2fe, 0xf762575d, 0x806567cb, 0x196c3671, 0x6e6b06e7,
    0xfed41b76, 0x89d32be0, 0x10da7a5a, 0x67dd4acc, 0xf9b9df6f, 0x8ebeeff9, 0x17b7be43, 0x60b08ed5]

  const ROW10: seq<bv32> := [
    0xd6d6a3e8, 0xa1d1937e, 0x38d8c2c4, 0x4fdff252, 0xd1bb67f1, 0xa6bc5767, 0x3fb506dd, 0x48b2364b,
    0xd80d2bda, 0xaf0a1b4c, 0x36034af6, 0x41047a60, 0xdf60efc3, 0xa867df55, 0x316e8eef, 0x4669be79]

  const ROW11: seq<bv32> := [
    0xcb61b38c, 0xbc66831a, 0x256fd2a0, 0x5268e236, 0xcc0c7795, 0xbb0b4703, 0x220216b9, 0x5505262f,
    0xc5ba3bbe, 0xb2bd0b28, 0x2bb45a92, 0x5cb36a04, 0xc2d7ffa7, 0xb5d0cf31, 0x2cd99e8b, 0x5bdeae1d]

  const ROW12: seq<bv32> := [
    0x9b64c2b0, 0xec63f226, 0x756aa39c, 0x026d930a, 0x9c0906a9, 0xeb0e363f, 0x72076785, 0x05005713,
    0x95bf4a82, 0xe2b87a14, 0x7bb12bae, 0x0cb61b38, 0x92d28e9b, 0xe5d5be0d, 0x7cdcefb7, 0x0bdbdf21]

  const ROW13: seq<bv32> := [
    0x86d3d2d4, 0xf1d4e242, 0x68ddb3f8, 0x1fda836e, 0x81be16cd, 0xf6b9265b, 0x6fb077e1, 0x18b74777,
    0x88085ae6, 0xff0f6a70, 0x66063bca, 0x11010b5c, 0x8f659eff, 0xf862ae69, 0x616bffd3, 0x166ccf45]

  const ROW14: seq<bv32> := [
    0xa00ae278, 0xd70dd2ee, 0x4e048354, 0x3903b3c2, 0xa7672661, 0xd06016f7, 0x4969474d, 0x3e6e77db,
    0xaed16a4a, 0xd9d65adc, 0x40df0b66, 0x37d83bf0, 0xa9bcae53, 0xdebb9ec5, 0x47b2cf7f, 0x30b5ffe9]

  const ROW15: seq<bv32> := [
    0xbdbdf21c, 0xcabac28a, 0x53b39330, 0x24b4a3a6, 0xbad03605, 0xcdd70693, 0x54de5729, 0x23d967bf,
    0xb3667a2e, 0xc4614ab8, 0x5d681b02, 0x2a6f2b94, 0xb40bbe37, 0xc30c8ea1, 0x5a05df1b, 0x2d02ef8d]

  const TABLE: seq<seq<bv32>> := [ROW0, ROW1, ROW2, ROW3, ROW4, ROW5, ROW6, ROW7, ROW8, ROW9, ROW10, ROW11, ROW12,
      ROW13, ROW14, ROW15]

  /** Entry i of the 256. */
  function Entry(i: bv32): bv32
    requires i < 256
  {
    RowLengths((i >> 4) as nat);
    TABLE[(i >> 4) as nat][(i & 0xf) as nat]
  }

  lemma RowLengths(r: nat)
    requires r < 16
    ensures |TABLE[r]| == 16
  {
  }

  // ----- the entries are right

  lemma EightStep(x: bv32)
    ensures Eight(Step(x)) == Step(Eight(x))
  {
    hide Step;
  }

  lemma HighestBit()
    ensures Eight(0x80) == POLYNOMIAL && Eight(0) == 0
  {
    assert Step(0x80) == 0x40 && Step(0x40) == 0x20 && Step(0x20) == 0x10 && Step(0x10) == 8;
    assert Step(8) == 4 && Step(4) == 2 && Step(2) == 1 && Step(1) == POLYNOMIAL && Step(0) == 0;
  }

  /** Entries of single bits: each is one step from the next. */
  lemma SingleBits()
    ensures Eight(0x40) == Step(POLYNOMIAL) && Eight(0x20) == Step(Eight(0x40)) && Eight(0x10) == Step(Eight(0x20))
        && Eight(8) == Step(Eight(0x10))
    ensures Eight(4) == Step(Eight(8)) && Eight(2) == Step(Eight(4)) && Eight(1) == Step(Eight(2))
  {
    HighestBit();
    hide Eight;
    EightStep(0x80);
    EightStep(0x40);
    EightStep(0x20);
    EightStep(0x10);
    EightStep(8);
    EightStep(4);
    EightStep(2);
  }

  lemma SingleBitEntries()
    ensures Eight(0) == ROW0[0] && Eight(1) == ROW0[1] && Eight(2) == ROW0[2] && Eight(4) == ROW0[4]
        && Eight(8) == ROW0[8]
    ensures Eight(0x10) == ROW1[0] && Eight(0x20) == ROW2[0] && Eight(0x40) == ROW4[0] && Eight(0x80) == ROW8[0]
  {
    HighestBit();
    SingleBits();
    hide Eight;
    assert Step(POLYNOMIAL) == 0x76dc4190;
    assert Step(0x76dc4190) == 0x3b6e20c8;
    assert Step(0x3b6e20c8) == 0x1db71064;
    assert Step(0x1db71064) == 0x0edb8832;
    assert Step(0x0edb8832) == 0x076dc419;
    assert Step(0x076dc419) == 0xee0e612c;
    assert Step(0xee0e612c) == 0x77073096;
  }

  lemma Both(x: bv32, y: bv32, z: bv32, e: bv32)
    requires z == Xor(x, y) && e == Xor(Eight(x), Eight(y))
    ensures Eight(z) == e
  {
    EightLinear(x, y);
  }

  lemma FirstRow(j: bv32)
    requires j < 16
    ensures Eight(j) == ROW0[j as nat]
  {
    SingleBitEntries();
    hide Eight;
    Both(1, 2, 3, ROW0[3]);
    Both(4, 1, 5, ROW0[5]);
    Both(4, 2, 6, ROW0[6]);
    Both(4, 3, 7, ROW0[7]);
    Both(8, 1, 9, ROW0[9]);
    Both(8, 2, 10, ROW0[10]);
    Both(8, 3, 11, ROW0[11]);
    Both(8, 4, 12, ROW0[12]);
    Both(8, 5, 13, ROW0[13]);
    Both(8, 6, 14, ROW0[14]);
    Both(8, 7, 15, ROW0[15]);
    assert j == 0 || j == 1 || j == 2 || j == 3 || j == 4 || j == 5 || j == 6 || j == 7
      || j == 8 || j == 9 || j == 10 || j == 11 || j == 12 || j == 13 || j == 14 || j == 15;
  }

  lemma FirstColumn(r: bv32)
    requires r < 16
    ensures |TABLE[r as nat]| == 16 && Eight(r << 4) == TABLE[r as nat][0]
  {
    SingleBitEntries();
    hide Eight;
    Both(0x10, 0x20, 0x30, ROW3[0]);
    Both(0x40, 0x10, 0x50, ROW5[0]);
    Both(0x40, 0x20, 0x60, ROW6[0]);
    Both(0x40, 0x30, 0x70, ROW7[0]);
    Both(0x80, 0x10, 0x90, ROW9[0]);
    Both(0x80, 0x20, 0xa0, ROW10[0]);
    Both(0x80, 0x30, 0xb0, ROW11[0]);
    Both(0x80, 0x40, 0xc0, ROW12[0]);
    Both(0x80, 0x50, 0xd0, ROW13[0]);
    Both(0x80, 0x60, 0xe0, ROW14[0]);
    Both(0x80, 0x70, 0xf0, ROW15[0]);
    assert r == 0 || r == 1 || r == 2 || r == 3 || r == 4 || r == 5 || r == 6 || r == 7
      || r == 8 || r == 9 || r == 10 || r == 11 || r == 12 || r == 13 || r == 14 || r == 15;
  }

  lemma Spread(r: nat, j: nat)
    requires r < 16 && j < 16
    ensures |TABLE[r]| == 16 && TABLE[r][j] == Xor(TABLE[r][0], ROW0[j])
  {
    assert j == 0 || j == 1 || j == 2 || j == 3 || j == 4 || j == 5 || j == 6 || j == 7
      || j == 8 || j == 9 || j == 10 || j == 11 || j == 12 || j == 13 || j == 14 || j == 15;
    assert r == 0 || r == 1 || r == 2 || r == 3 || r == 4 || r == 5 || r == 6 || r == 7
      || r == 8 || r == 9 || r == 10 || r == 11 || r == 12 || r == 13 || r == 14 || r == 15;
  }

  lemma Digits(i: bv32)
    requires i < 256
    ensures i >> 4 < 16 && i & 0xf < 16 && i == Xor((i >> 4) << 4, i & 0xf)
  {
  }

  /** Every entry is eight steps on its index. */
  lemma EntryIsEight(i: bv32)
    requires i < 256
    ensures Entry(i) == Eight(i)
  {
    hide Eight;
    Digits(i);
    hide Xor;
    var r, j := i >> 4, i & 0xf;
    FirstRow(j);
    FirstColumn(r);
    Spread(r as nat, j as nat);
    EightLinear(r << 4, j);
  }

  // ----- the computation

  lemma IndexOf(crc: bv32, b: bv8)
    ensures Down(Xor(crc, b as bv32)) == Down(crc) && LowByte(Xor(crc, b as bv32)) < 256
  {
  }

  /** Fold the data into a CRC, one lookup a byte. */
  method Crc32(start: bv32, data: seq<bv8>) returns (crc: bv32)
    ensures crc == Reference(start, data)
  {
    hide Xor; hide Eight; hide Steps; hide Divide; hide LowByte; hide Down; hide Entry; hide LowBits;
    crc := Invert(start);
    DivideNone(crc);
    for i := 0 to |data|
      invariant crc == Divide(Invert(start), Message(data[..i]))
    {
      var b := data[i];
      var x := Xor(crc, b as bv32);
      IndexOf(crc, b);
      EntryIsEight(LowByte(x));
      EightByTable(x);
      StepsEight(x);
      ByteIsEight(crc, b);
      MessageNext(data, i);
      DivideJoin(Invert(start), Message(data[..i]), LowBits(b as bv32, 8));
      crc := Xor(Entry(LowByte(x)), Down(crc));
    }
    assert data[..|data|] == data;
    crc := Invert(crc);
  }

  lemma DivideNone(crc: bv32)
    ensures Divide(crc, Message([])) == crc
  {
  }

  lemma {:induction false} MessageJoin(a: seq<bv8>, b: seq<bv8>)
    ensures Message(a + b) == Message(a) + Message(b)
  {
    hide LowBits;
    if a == [] {
      assert a + b == b;
    } else {
      assert (a + b)[1..] == a[1..] + b;
      MessageJoin(a[1..], b);
      assert LowBits(a[0] as bv32, 8) + (Message(a[1..]) + Message(b)) == LowBits(a[0] as bv32,
          8) + Message(a[1..]) + Message(b);
    }
  }

  lemma MessageNext(data: seq<bv8>, i: nat)
    requires i < |data|
    ensures Message(data[..i + 1]) == Message(data[..i]) + LowBits(data[i] as bv32, 8)
  {
    hide LowBits;
    assert data[..i + 1] == data[..i] + [data[i]];
    MessageJoin(data[..i], [data[i]]);
    assert Message([data[i]]) == LowBits(data[i] as bv32, 8) + Message([]);
  }

  /** The CRC of two pieces: continue the CRC of the first over the second. */
  lemma Continues(crc: bv32, a: seq<bv8>, b: seq<bv8>)
    ensures Reference(Reference(crc, a), b) == Reference(crc, a + b)
  {
    hide Divide; hide Message; hide Invert;
    MessageJoin(a, b);
    DivideJoin(Invert(crc), Message(a), Message(b));
    InvertTwice(Divide(Invert(crc), Message(a)));
  }

  // ----- the check value

  /** One byte of a message, when eight steps lead from the register with it to the next one. */
  lemma NextByte(crc: bv32, b: bv8, next: bv32, rest: seq<bv8>)
    requires Eight(Xor(crc, b as bv32)) == next
    ensures Divide(crc, Message([b] + rest)) == Divide(next, Message(rest))
  {
    hide Divide; hide LowBits; hide Steps; hide Eight; hide Xor;
    assert ([b] + rest)[1..] == rest;
    ByteIsEight(crc, b);
    StepsEight(Xor(crc, b as bv32));
    DivideJoin(crc, LowBits(b as bv32, 8), Message(rest));
  }

  /** The CRC of the nine digits 1 to 9, by which CRCs are told apart. */
  lemma CheckValue(data: seq<bv8>)
    requires data == [0x31, 0x32, 0x33, 0x34, 0x35, 0x36, 0x37, 0x38, 0x39]
    ensures Reference(0, data) == 0xcbf4_3926
  {
    assert data[9..] == [];
    forall k | 0 <= k < 9 ensures data[k..] == [data[k]] + data[k + 1..] {
    }
    assert data[0..] == data;
    hide Divide; hide Message;
    DivideNone(0x340bc6d9);
    NextByte(0xffffffff, 0x31, 0x7c231048, data[1..]);
    NextByte(0x7c231048, 0x32, 0xb0acbb32, data[2..]);
    NextByte(0xb0acbb32, 0x33, 0x77b79c2d, data[3..]);
    NextByte(0x77b79c2d, 0x34, 0x641c1f5c, data[4..]);
    NextByte(0x641c1f5c, 0x35, 0x340ac5e3, data[5..]);
    NextByte(0x340ac5e3, 0x36, 0xf68d2c9e, data[6..]);
    NextByte(0xf68d2c9e, 0x37, 0xaffc9660, data[7..]);
    NextByte(0xaffc9660, 0x38, 0x651f2550, data[8..]);
    NextByte(0x651f2550, 0x39, 0x340bc6d9, data[9..]);
  }

  // ----- what the CRC notices

  /** A register can be run backwards, so different registers stay different. */
  lemma ShiftInjective(x: bv32, y: bv32, bit: bool)
    requires Shift(x, bit) == Shift(y, bit)
    ensures x == y
  {
  }

  lemma {:induction false} DivideInjective(x: bv32, y: bv32, bits: seq<bool>)
    requires Divide(x, bits) == Divide(y, bits)
    ensures x == y
    decreases |bits|
  {
    hide Shift;
    if bits != [] {
      DivideInjective(Shift(x, bits[0]), Shift(y, bits[0]), bits[1..]);
      ShiftInjective(x, y, bits[0]);
    }
  }

  lemma {:induction false} StepsInjective(x: bv32, y: bv32, n: nat)
    requires Steps(x, n) == Steps(y, n)
    ensures x == y
    decreases n
  {
    hide Shift;
    if n > 0 {
      StepsInjective(Step(x), Step(y), n - 1);
      ShiftInjective(x, y, false);
    }
  }

  lemma ByteDiffers(crc: bv32, a: bv8, b: bv8)
    requires a != b
    ensures Xor(crc, a as bv32) != Xor(crc, b as bv32)
  {
  }

  /** Different bytes lead the register to different states. */
  lemma ByteNoticed(crc: bv32, a: bv8, b: bv8)
    requires a != b
    ensures Divide(crc, LowBits(a as bv32, 8)) != Divide(crc, LowBits(b as bv32, 8))
  {
    hide Divide; hide LowBits; hide Steps; hide Xor;
    ByteIsEight(crc, a);
    ByteIsEight(crc, b);
    ByteDiffers(crc, a, b);
    if Steps(Xor(crc, a as bv32), 8) == Steps(Xor(crc, b as bv32), 8) {
      StepsInjective(Xor(crc, a as bv32), Xor(crc, b as bv32), 8);
    }
  }

  lemma MessageAround(data: seq<bv8>, i: nat)
    requires i < |data|
    ensures Message(data) == Message(data[..i]) + (LowBits(data[i] as bv32, 8) + Message(data[i + 1..]))
  {
    hide LowBits;
    assert data == data[..i] + data[i..];
    MessageJoin(data[..i], data[i..]);
    assert data[i..][1..] == data[i + 1..];
  }

  lemma MessageWith(data: seq<bv8>, i: nat, b: bv8)
    requires i < |data|
    ensures Message(data[i := b]) == Message(data[..i]) + (LowBits(b as bv32, 8) + Message(data[i + 1..]))
  {
    hide LowBits; hide Message;
    var other := data[i := b];
    assert other[..i] == data[..i] && other[i + 1..] == data[i + 1..];
    MessageAround(other, i);
  }

  lemma MiddleNoticed(crc: bv32, before: seq<bool>, a: bv8, b: bv8, after: seq<bool>)
    requires a != b
    ensures Divide(crc, before + (LowBits(a as bv32, 8) + after)) != Divide(crc,
        before + (LowBits(b as bv32, 8) + after))
  {
    hide Divide; hide LowBits;
    BytesThen(crc, before, a, after);
    BytesThen(crc, before, b, after);
    var x := Divide(crc, before);
    ByteNoticed(x, a, b);
    var y, z := Divide(x, LowBits(a as bv32, 8)), Divide(x, LowBits(b as bv32, 8));
    if Divide(y, after) == Divide(z, after) {
      DivideInjective(y, z, after);
    }
  }

  lemma InvertInjective(x: bv32, y: bv32)
    requires Invert(x) == Invert(y)
    ensures x == y
  {
    hide Invert;
    InvertTwice(x);
    InvertTwice(y);
  }

  /** A change of one byte, whichever of its bits it changes, changes the CRC. */
  lemma OneByteNoticed(start: bv32, data: seq<bv8>, i: nat, b: bv8)
    requires i < |data| && b != data[i]
    ensures Reference(start, data[i := b]) != Reference(start, data)
  {
    hide Divide; hide LowBits; hide Message; hide Invert;
    MessageAround(data, i);
    MessageWith(data, i, b);
    MiddleNoticed(Invert(start), Message(data[..i]), data[i], b, Message(data[i + 1..]));
    if Reference(start, data[i := b]) == Reference(start, data) {
      InvertInjective(Divide(Invert(start), Message(data[i := b])), Divide(Invert(start), Message(data)));
    }
  }

  lemma BytesThen(crc: bv32, before: seq<bool>, b: bv8, after: seq<bool>)
    ensures Divide(crc, before + (LowBits(b as bv32, 8) + after)) == Divide(Divide(Divide(crc, before),
        LowBits(b as bv32, 8)), after)
  {
    hide Divide; hide LowBits;
    DivideJoin(crc, before, LowBits(b as bv32, 8) + after);
    DivideJoin(Divide(crc, before), LowBits(b as bv32, 8), after);
  }
}
