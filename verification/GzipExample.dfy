/** A file that any gzip program reads: the letter "a" in a static block.  It fixes the order of bits
    and bytes, the static code, the check value and the trailer by known values. */
module GzipExample {
  import opened Bits
  import opened BitWriting
  import opened Rfc1951
  import opened Crc32
  import opened CodeTables
  import opened Tokens
  import opened BlockCoding
  import opened Gzip

  const LETTER: byte := 0x61

  // ----- The check value -----

  lemma CrcStep(b: bool, rest: seq<bool>, reg: nat, reg': nat)
    requires Shift(Xor(reg, if b then 1 else 0)) == reg'
    ensures CrcOf([b] + rest, reg) == CrcOf(rest, reg')
  {
    hide Shift, Xor;
    assert ([b] + rest)[1..] == rest;
  }

  lemma {:induction false} XorSplit(k: nat, a: nat, x: nat, b: nat, y: nat)
    requires x < Pow2(k) && y < Pow2(k)
    ensures Xor(a * Pow2(k) + x, b * Pow2(k) + y) == Xor(a, b) * Pow2(k) + Xor(x, y)
  {
    hide Xor, Pow2;
    PowStep(k);
    if k == 0 {
      XorZero(0);
      TimesOne(a, Pow2(k));
      TimesOne(b, Pow2(k));
      TimesOne(Xor(a, b), Pow2(k));
    } else {
      XorSplit(k - 1, a, x / 2, b, y / 2);
      XorBit(a * Pow2(k - 1), x, b * Pow2(k - 1), y, Xor(a, b) * Pow2(k - 1));
      Doubled(a, Pow2(k - 1), Pow2(k));
      Doubled(b, Pow2(k - 1), Pow2(k));
      Doubled(Xor(a, b), Pow2(k - 1), Pow2(k));
    }
  }

  lemma PowStep(k: nat)
    ensures if k == 0 then Pow2(k) == 1 else Pow2(k) == 2 * Pow2(k - 1)
  {
  }

  lemma TimesOne(a: nat, one: nat)
    requires one == 1
    ensures a * one == a
  {
  }

  lemma XorBit(a: nat, x: nat, b: nat, y: nat, q: nat)
    requires Xor(a + x / 2, b + y / 2) == q + Xor(x / 2, y / 2)
    ensures Xor(2 * a + x, 2 * b + y) == 2 * q + Xor(x, y)
  {
    hide Xor;
    XorHalf(2 * a + x, 2 * b + y);
    XorHalf(x, y);
  }

  lemma Doubled(a: nat, p: nat, twice: nat)
    requires twice == 2 * p
    ensures a * twice == 2 * (a * p)
  {
  }

  lemma XorHalf(a: nat, b: nat)
    ensures Xor(a, b) == (if a % 2 != b % 2 then 1 else 0) + 2 * Xor(a / 2, b / 2)
  {
    if a == 0 && b == 0 { assert Xor(0, 0) == 0; }
  }

  function Word(a: nat, b: nat, c: nat, d: nat): nat {
    ((a * 256 + b) * 256 + c) * 256 + d
  }

  lemma XorWords(a: byte, b: byte, c: byte, d: byte, a': byte, b': byte, c': byte, d': byte)
    ensures Xor(Word(a, b, c, d), Word(a', b', c', d')) == Word(Xor(a, a'), Xor(b, b'), Xor(c, c'), Xor(d, d'))
  {
    hide Xor;
    Pow2Values();
    XorSplit(8, a, b, a', b');
    XorSplit(8, a * 256 + b, c, a' * 256 + b', c');
    XorSplit(8, (a * 256 + b) * 256 + c, d, (a' * 256 + b') * 256 + c', d');
  }

  /** Adding a bit to the register. */
  lemma {:induction false} XorZero(a: nat)
    ensures Xor(a, 0) == a
  {
    if a > 0 { XorZero(a / 2); }
  }

  lemma XorOne(a: nat)
    ensures Xor(a, 1) == if a % 2 == 0 then a + 1 else a - 1
  {
    XorHalf(a, 1);
    XorZero(a / 2);
  }

  lemma EvenShift(a: nat)
    requires a % 2 == 0
    ensures Shift(a) == a / 2
  {
    XorZero(a / 2);
  }

  function BitXor(a: nat, b: nat): nat {
    if a % 2 != b % 2 then 1 else 0
  }

  lemma XorPair(a: nat, b: nat)
    ensures Xor(a, b) == BitXor(a, b) + 2 * BitXor(a / 2, b / 2) + 4 * Xor(a / 2 / 2, b / 2 / 2)
  {
    hide Xor;
    XorHalf(a, b);
    XorHalf(a / 2, b / 2);
  }

  lemma XorNibble(a: nat, b: nat)
    ensures Xor(a, b) == BitXor(a, b) + 2 * BitXor(a / 2, b / 2) + 4 * BitXor(a / 2 / 2, b / 2 / 2)
      + 8 * BitXor(a / 2 / 2 / 2, b / 2 / 2 / 2) + 16 * Xor(a / 2 / 2 / 2 / 2, b / 2 / 2 / 2 / 2)
  {
    hide Xor, BitXor;
    XorPair(a, b);
    XorPair(a / 2 / 2, b / 2 / 2);
  }

  lemma OddShift1()
    ensures Xor(0x3fffffff, POLY) == 0xd2477cdf
  {
    hide Xor;
    HighBytes1();
    LowBytes1();
    XorWords(0x3f, 0xff, 0xff, 0xff, 0xed, 0xb8, 0x83, 0x20);
  }

  lemma HighBytes1()
    ensures Xor(0x3f, 0xed) == 0xd2 && Xor(0xff, 0xb8) == 0x47
  {
    hide Xor;
    XorZero(0);
    XorNibble(0x3f, 0xed);
    XorNibble(0x3, 0xe);
    XorNibble(0xff, 0xb8);
    XorNibble(0xf, 0xb);
  }

  lemma LowBytes1()
    ensures Xor(0xff, 0x83) == 0x7c && Xor(0xff, 0x20) == 0xdf
  {
    hide Xor;
    XorZero(0);
    XorNibble(0xff, 0x83);
    XorNibble(0xf, 0x8);
    XorNibble(0xff, 0x20);
    XorNibble(0xf, 0x2);
  }

  lemma OddShift2()
    ensures Xor(0x6923be6f, POLY) == 0x849b3d4f
  {
    hide Xor;
    HighBytes2();
    LowBytes2();
    XorWords(0x69, 0x23, 0xbe, 0x6f, 0xed, 0xb8, 0x83, 0x20);
  }

  lemma HighBytes2()
    ensures Xor(0x69, 0xed) == 0x84 && Xor(0x23, 0xb8) == 0x9b
  {
    hide Xor;
    XorZero(0);
    XorNibble(0x69, 0xed);
    XorNibble(0x6, 0xe);
    XorNibble(0x23, 0xb8);
    XorNibble(0x2, 0xb);
  }

  lemma LowBytes2()
    ensures Xor(0xbe, 0x83) == 0x3d && Xor(0x6f, 0x20) == 0x4f
  {
    hide Xor;
    XorZero(0);
    XorNibble(0xbe, 0x83);
    XorNibble(0xb, 0x8);
    XorNibble(0x6f, 0x20);
    XorNibble(0x6, 0x2);
  }

  lemma OddShift3()
    ensures Xor(0x424d9ea7, POLY) == 0xaff51d87
  {
    hide Xor;
    HighBytes3();
    LowBytes3();
    XorWords(0x42, 0x4d, 0x9e, 0xa7, 0xed, 0xb8, 0x83, 0x20);
  }

  lemma HighBytes3()
    ensures Xor(0x42, 0xed) == 0xaf && Xor(0x4d, 0xb8) == 0xf5
  {
    hide Xor;
    XorZero(0);
    XorNibble(0x42, 0xed);
    XorNibble(0x4, 0xe);
    XorNibble(0x4d, 0xb8);
    XorNibble(0x4, 0xb);
  }

  lemma LowBytes3()
    ensures Xor(0x9e, 0x83) == 0x1d && Xor(0xa7, 0x20) == 0x87
  {
    hide Xor;
    XorZero(0);
    XorNibble(0x9e, 0x83);
    XorNibble(0x9, 0x8);
    XorNibble(0xa7, 0x20);
    XorNibble(0xa, 0x2);
  }

  lemma OddShift4()
    ensures Xor(0x57fa8ec3, POLY) == 0xba420de3
  {
    hide Xor;
    HighBytes4();
    LowBytes4();
    XorWords(0x57, 0xfa, 0x8e, 0xc3, 0xed, 0xb8, 0x83, 0x20);
  }

  lemma HighBytes4()
    ensures Xor(0x57, 0xed) == 0xba && Xor(0xfa, 0xb8) == 0x42
  {
    hide Xor;
    XorZero(0);
    XorNibble(0x57, 0xed);
    XorNibble(0x5, 0xe);
    XorNibble(0xfa, 0xb8);
    XorNibble(0xf, 0xb);
  }

  lemma LowBytes4()
    ensures Xor(0x8e, 0x83) == 0x0d && Xor(0xc3, 0x20) == 0xe3
  {
    hide Xor;
    XorZero(0);
    XorNibble(0x8e, 0x83);
    XorNibble(0x8, 0x8);
    XorNibble(0xc3, 0x20);
    XorNibble(0xc, 0x2);
  }

  lemma LetterBits()
    ensures BytesToBits([LETTER]) == [true, false, false, false, false, true, true, false]
  {
    BytesToBitsOne(LETTER);
    assert BitsOf(0x61, 8) == [true, false, false, false, false, true, true, false];
  }

  /** The register after each bit of the letter. */
  lemma Registers()
    ensures Shift(Xor(0xffffffff, 1)) == 0x7fffffff
    ensures Shift(Xor(0x7fffffff, 0)) == 0xd2477cdf
    ensures Shift(Xor(0xd2477cdf, 0)) == 0x849b3d4f
    ensures Shift(Xor(0x849b3d4f, 0)) == 0xaff51d87
    ensures Shift(Xor(0xaff51d87, 0)) == 0xba420de3
    ensures Shift(Xor(0xba420de3, 1)) == 0x5d2106f1
    ensures Shift(Xor(0x5d2106f1, 1)) == 0x2e908378
    ensures Shift(Xor(0x2e908378, 0)) == 0x174841bc
  {
    hide Xor, Shift;
    XorOne(0xffffffff);
    EvenShift(0xfffffffe);
    XorZero(0x7fffffff);
    OddShift1();
    ShiftOdd(0x7fffffff);
    XorZero(0xd2477cdf);
    OddShift2();
    ShiftOdd(0xd2477cdf);
    XorZero(0x849b3d4f);
    OddShift3();
    ShiftOdd(0x849b3d4f);
    XorZero(0xaff51d87);
    OddShift4();
    ShiftOdd(0xaff51d87);
    XorOne(0xba420de3);
    EvenShift(0xba420de2);
    XorOne(0x5d2106f1);
    EvenShift(0x5d2106f0);
    XorZero(0x2e908378);
    EvenShift(0x2e908378);
  }

  lemma ShiftOdd(a: nat)
    requires a % 2 == 1
    ensures Shift(a) == Xor(a / 2, POLY)
  {
    hide Xor;
  }

  lemma LetterCrc()
    ensures CrcOf(BytesToBits([LETTER]), CRC_START) == 0x1748_41bc && Not32(0x1748_41bc) == 0xe8b7_be43
  {
    hide Shift, Xor, CrcOf;
    LetterBits();
    Registers();
    assert [true, false, false, false, false, true, true, false] == [true] + [false, false, false, false, true, true, false];
    CrcStep(true, [false, false, false, false, true, true, false], 0xffffffff, 0x7fffffff);
    assert [false, false, false, false, true, true, false] == [false] + [false, false, false, true, true, false];
    CrcStep(false, [false, false, false, true, true, false], 0x7fffffff, 0xd2477cdf);
    assert [false, false, false, true, true, false] == [false] + [false, false, true, true, false];
    CrcStep(false, [false, false, true, true, false], 0xd2477cdf, 0x849b3d4f);
    assert [false, false, true, true, false] == [false] + [false, true, true, false];
    CrcStep(false, [false, true, true, false], 0x849b3d4f, 0xaff51d87);
    assert [false, true, true, false] == [false] + [true, true, false];
    CrcStep(false, [true, true, false], 0xaff51d87, 0xba420de3);
    assert [true, true, false] == [true] + [true, false];
    CrcStep(true, [true, false], 0xba420de3, 0x5d2106f1);
    assert [true, false] == [true] + [false];
    CrcStep(true, [false], 0x5d2106f1, 0x2e908378);
    assert [false] == [false] + [];
    CrcStep(false, [], 0x2e908378, 0x174841bc);
    CrcNothing(0x1748_41bc);
  }

  lemma CrcNothing(reg: nat)
    ensures CrcOf([], reg) == reg
  {
  }

  // ----- The block -----

  lemma LetterCode()
    ensures Codeword(FIXED_LLENS, 0x61) == [true, false, false, true, false, false, false, true]
    ensures Codeword(FIXED_LLENS, 256) == [false, false, false, false, false, false, false]
  {
    hide Code, FIXED_LLENS;
    FixedLiteralCodes(0x61);
    FixedLiteralCodes(256);
    assert MsbBits(0x91, 8) == [true, false, false, true, false, false, false, true];
    assert MsbBits(0, 7) == [false, false, false, false, false, false, false];
  }

  /** The block has 18 bits: its head, the code of the letter and the end of the block. */
  const BLOCK: seq<bool> := [true, true, false] + [true, false, false, true, false, false, false, true] + [false, false, false, false, false, false, false]

  lemma BlockIs()
    ensures AllValid([Literal(LETTER)]) && AllCodable(FIXED_LLENS, FIXED_DLENS, [Literal(LETTER)]) && |FIXED_LLENS| == 288
    ensures BlockHead(STATIC_TREES, true) + BlockData(FIXED_LLENS, FIXED_DLENS, [Literal(LETTER)]) == BLOCK
  {
    hide Codeword;
    var ts := [Literal(LETTER)];
    FixedComplete();
    StaticCodable(ts);
    LetterCode();
    assert BitsOf(3, 3) == [true, true, false];
    assert ts[1..] == [];
    assert EncodeTokens(FIXED_LLENS, FIXED_DLENS, ts) == Codeword(FIXED_LLENS, 0x61) + [];
  }

  lemma BlockInflates(rest: seq<bool>)
    ensures Inflate(BLOCK + rest, 80, []) == Some(([LETTER], rest))
  {
    hide InflateBlock, BlockData;
    var ts := [Literal(LETTER)];
    BlockIs();
    assert ts[1..] == [];
    assert Expand([], ts) == [] + [LETTER] == [LETTER];
    StaticMeans(80, ts, [], true);
    assert InflateBlock(BLOCK + rest, 80, []) == Some(([LETTER], rest, true));
  }

  lemma BlockBytes()
    ensures BytesToBits([0x4b, 4, 0]) == BLOCK + Padding(80 + |BLOCK|)
  {
    hide BitsOf;
    assert [0x4b, 4, 0] == [0x4b] + [4] + [0];
    BytesToBitsAppend([0x4b] + [4], [0]);
    BytesToBitsAppend([0x4b], [4]);
    BytesToBitsOne(0x4b);
    BytesToBitsOne(4);
    BytesToBitsOne(0);
    ByteBits();
  }

  lemma ByteBits()
    ensures BitsOf(0x4b, 8) == [true, true, false, true, false, false, true, false]
    ensures BitsOf(4, 8) == [false, false, true, false, false, false, false, false] && BitsOf(0, 8) == [false, false, false, false, false, false, false, false]
    ensures Padding(98) == [false, false, false, false, false, false]
  {
    hide BitsOf;
    FirstByteBits();
    SecondByteBits();
    ThirdByteBits();
    PaddingIs();
  }

  lemma PaddingIs()
    ensures Padding(98) == [false, false, false, false, false, false]
  {
  }

  lemma FirstByteBits()
    ensures BitsOf(0x4b, 8) == [true, true, false, true, false, false, true, false]
  {
  }

  lemma SecondByteBits()
    ensures BitsOf(4, 8) == [false, false, true, false, false, false, false, false]
  {
  }

  lemma ThirdByteBits()
    ensures BitsOf(0, 8) == [false, false, false, false, false, false, false, false]
  {
  }

  // ----- The file -----

  lemma ExampleReads()
    ensures Gunzip([0x1f, 0x8b, 8, 0, 0, 0, 0, 0, 0, 3, 0x4b, 4, 0, 0x43, 0xbe, 0xb7, 0xe8, 1, 0, 0, 0]) == Some([LETTER])
  {
    hide Gunzip, Inflate, BytesToBits, CrcOf, Padding;
    var body: seq<byte> := Header(false) + [0x4b, 4, 0];
    BytesToBitsAppend(Header(false), [0x4b, 4, 0]);
    BlockBytes();
    assert BytesToBits(body) == BytesToBits(Header(false)) + BLOCK + Padding(80 + |BLOCK|);
    forall rest: seq<bool> ensures Inflate(BLOCK + rest, 80, []) == Some(([LETTER], rest)) { BlockInflates(rest); }
    LetterCrc();
    FileReads(body, false, BLOCK, 0xe8b7_be43, 1, [LETTER]);
    assert Le32(0xe8b7_be43) == [0x43, 0xbe, 0xb7, 0xe8] && Le32(1) == [1, 0, 0, 0];
    assert body + Le32(0xe8b7_be43) + Le32(1) == [0x1f, 0x8b, 8, 0, 0, 0, 0, 0, 0, 3, 0x4b, 4, 0, 0x43, 0xbe, 0xb7, 0xe8, 1, 0, 0, 0];
  }
}
