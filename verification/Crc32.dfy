/** The cyclic redundancy check of the gzip trailer: the table-driven form of libbb computes the
    bit-serial shift register that the format defines. */
module Crc32 {
  import opened Bits

  const POLY: nat := 0xedb88320
  const CRC_START: nat := 0xffff_ffff

  /** The exponents below 32 of the generator polynomial of ISO 3309, which RFC 1952 prescribes. */
  const EXPONENTS: seq<nat> := [26, 23, 22, 16, 12, 11, 10, 8, 7, 5, 4, 2, 1, 0]

  /** The polynomial of those exponents, the highest one in the lowest bit. */
  function Mirrored(exponents: seq<nat>): nat
    requires forall i :: 0 <= i < |exponents| ==> exponents[i] < 32
  {
    if exponents == [] then 0 else Pow2(31 - exponents[0]) + Mirrored(exponents[1..])
  }

  lemma PolyIs()
    ensures POLY == Mirrored(EXPONENTS) && CRC_START == Pow2(32) - 1
  {
    hide Pow2, Mirrored;
    Pow2Values();
    HigherPowers();
    NothingMirrored();
    MirrorAt(0);
    MirrorAt(1);
    MirrorAt(2);
    MirrorAt(3);
    MirrorAt(4);
    MirrorAt(5);
    MirrorAt(6);
    MirrorAt(7);
    MirrorAt(8);
    MirrorAt(9);
    MirrorAt(10);
    MirrorAt(11);
    MirrorAt(12);
    MirrorAt(13);
    assert EXPONENTS[0..] == EXPONENTS && EXPONENTS[14..] == [];
  }

  lemma NothingMirrored()
    ensures Mirrored([]) == 0
  {
  }

  lemma MirrorAt(k: nat)
    requires k < 14
    ensures Mirrored(EXPONENTS[k..]) == Pow2(31 - EXPONENTS[k]) + Mirrored(EXPONENTS[k + 1..])
  {
    hide Pow2;
    assert EXPONENTS[k..][0] == EXPONENTS[k] && EXPONENTS[k..][1..] == EXPONENTS[k + 1..];
  }

  lemma HigherPowers()
    ensures Pow2(19) == 0x8_0000 && Pow2(20) == 0x10_0000 && Pow2(21) == 0x20_0000 && Pow2(23) == 0x80_0000 && Pow2(24) == 0x100_0000
    ensures Pow2(26) == 0x400_0000 && Pow2(27) == 0x800_0000 && Pow2(29) == 0x2000_0000 && Pow2(30) == 0x4000_0000
  {
    Pow2Values();
    assert Pow2(18) == 4 * Pow2(16);
    assert Pow2(22) == 2 * Pow2(21);
    assert Pow2(25) == 2 * Pow2(24);
    assert Pow2(28) == 2 * Pow2(27);
  }

  // ----- The definition: one bit at a time -----

  /** One shift of the register. */
  function Shift(c: nat): nat {
    Xor(c / 2, if c % 2 == 1 then POLY else 0)
  }

  /** The register after the bits, in the order of the stream. */
  function CrcOf(bits: seq<bool>, reg: nat): nat
    decreases |bits|
  {
    if bits == [] then reg else CrcOf(bits[1..], Shift(Xor(reg, if bits[0] then 1 else 0)))
  }

  // ----- The table -----

  function Shifts(c: nat, n: nat): nat
    decreases n
  {
    if n == 0 then c else Shifts(Shift(c), n - 1)
  }

  ghost predicate CrcTableOk(t: seq<nat>) {
    |t| == 256 && forall i :: 0 <= i < 256 ==> t[i] == Shifts(i, 8)
  }

  method Crc32FillTable() returns (t: seq<nat>)
    ensures CrcTableOk(t)
  {
    hide Shift;
    t := [];
    for i := 0 to 256
      invariant |t| == i && forall k :: 0 <= k < i ==> t[k] == Shifts(k, 8)
    {
      var c := i;
      for j := 8 downto 0
        invariant Shifts(c, j) == Shifts(i, 8)
      {
        c := NextShift(c);
      }
      t := t + [c];
    }
  }

  /** The loop body of the table filler. */
  function NextShift(c: nat): (r: nat)
    ensures r == Shift(c)
  {
    XorNone(c / 2);
    if c % 2 == 1 then Xor(c / 2, POLY) else c / 2
  }

  // ----- Algebra of exclusive or -----

  lemma {:induction false} XorNone(a: nat)
    ensures Xor(a, 0) == a && Xor(0, a) == a
  {
    if a > 0 { XorNone(a / 2); }
  }

  lemma {:induction false} XorComm(a: nat, b: nat)
    ensures Xor(a, b) == Xor(b, a)
    decreases a + b
  {
    if a > 0 || b > 0 { XorComm(a / 2, b / 2); }
  }

  lemma {:induction false} XorAssoc(a: nat, b: nat, c: nat)
    ensures Xor(Xor(a, b), c) == Xor(a, Xor(b, c))
    decreases a + b + c
  {
    if a > 0 || b > 0 || c > 0 {
      XorStep(a, b);
      XorStep(b, c);
      XorStep(Xor(a, b), c);
      XorStep(a, Xor(b, c));
      XorAssoc(a / 2, b / 2, c / 2);
      HalfEqual(Xor(Xor(a, b), c), Xor(a, Xor(b, c)));
    }
  }

  lemma HalfEqual(x: nat, y: nat)
    requires x / 2 == y / 2 && x % 2 == y % 2
    ensures x == y
  {
  }

  /** (a ^ b) ^ (c ^ d) == (a ^ c) ^ (b ^ d). */
  lemma XorSwap(a: nat, b: nat, c: nat, d: nat)
    ensures Xor(Xor(a, b), Xor(c, d)) == Xor(Xor(a, c), Xor(b, d))
  {
    hide Xor;
    XorAssoc(a, b, Xor(c, d));
    XorAssoc(b, c, d);
    XorComm(b, c);
    XorAssoc(c, b, d);
    XorAssoc(a, c, Xor(b, d));
  }

  lemma {:induction false} XorSelf(a: nat)
    ensures Xor(a, a) == 0
  {
    if a > 0 { XorSelf(a / 2); }
  }

  /** Shifting is linear. */
  lemma ShiftXor(a: nat, b: nat)
    ensures Shift(Xor(a, b)) == Xor(Shift(a), Shift(b))
  {
    hide Xor;
    XorStep(a, b);
    var p, q := if a % 2 == 1 then POLY else 0, if b % 2 == 1 then POLY else 0;
    assert (if Xor(a, b) % 2 == 1 then POLY else 0) == Xor(p, q) by {
      XorSelf(POLY);
      XorSelf(0);
      XorNone(POLY);
    }
    XorSwap(a / 2, p, b / 2, q);
  }

  lemma {:induction false} ShiftsXor(a: nat, b: nat, n: nat)
    ensures Shifts(Xor(a, b), n) == Xor(Shifts(a, n), Shifts(b, n))
    decreases n
  {
    hide Xor, Shift;
    if n > 0 {
      ShiftXor(a, b);
      ShiftsXor(Shift(a), Shift(b), n - 1);
    }
  }

  lemma ShiftEven(h: nat)
    ensures Shift(2 * h) == h
  {
    XorNone(h);
  }

  /** Low bits that are zero are only shifted out. */
  lemma ShiftHigh(h: nat)
    ensures Shifts(256 * h, 8) == h
  {
    hide Shift, Xor;
    ShiftEven(128 * h);
    ShiftEven(64 * h);
    ShiftEven(32 * h);
    ShiftEven(16 * h);
    ShiftEven(8 * h);
    ShiftEven(4 * h);
    ShiftEven(2 * h);
    ShiftEven(h);
    ShiftsStep(256 * h, 8);
    ShiftsStep(128 * h, 7);
    ShiftsStep(64 * h, 6);
    ShiftsStep(32 * h, 5);
    ShiftsStep(16 * h, 4);
    ShiftsStep(8 * h, 3);
    ShiftsStep(4 * h, 2);
    ShiftsStep(2 * h, 1);
    ShiftsStep(h, 0);
  }

  lemma ShiftsStep(c: nat, n: nat)
    ensures Shifts(c, n) == if n == 0 then c else Shifts(Shift(c), n - 1)
  {
  }

  /** Numbers without common bits: exclusive or is addition. */
  lemma {:induction false} XorApart(h: nat, l: nat, k: nat)
    requires l < Pow2(k)
    ensures Xor(h * Pow2(k), l) == h * Pow2(k) + l
  {
    if k == 0 {
      XorNone(h);
    } else {
      var t := h * Pow2(k - 1);
      assert h * Pow2(k) == 2 * t;
      XorStep(2 * t, l);
      XorApart(h, l / 2, k - 1);
      HalfEqual(Xor(2 * t, l), 2 * t + l);
    }
  }

  // ----- One byte -----

  /** Shifting in the bits of a number one by one is the same as mixing them in first. */
  lemma {:induction false} BitsAtOnce(v: nat, n: nat, reg: nat)
    requires v < Pow2(n)
    ensures CrcOf(BitsOf(v, n), reg) == Shifts(Xor(reg, v), n)
  {
    hide Xor, Shift;
    if n == 0 {
      XorNone(reg);
    } else {
      var bit := if v % 2 == 1 then 1 else 0;
      assert BitsOf(v, n)[0] == (v % 2 == 1) && BitsOf(v, n)[1..] == BitsOf(v / 2, n - 1);
      var reg' := Shift(Xor(reg, bit));
      BitsAtOnce(v / 2, n - 1, reg');
      assert Xor(2 * (v / 2), bit) == v by {
        assert Pow2(1) == 2;
        XorApart(v / 2, bit, 1);
      }
      XorComm(2 * (v / 2), bit);
      XorAssoc(reg, bit, 2 * (v / 2));
      ShiftXor(Xor(reg, bit), 2 * (v / 2));
      ShiftEven(v / 2);
    }
  }

  /** One byte by the table. */
  lemma TableByte(t: seq<nat>, reg: nat, b: byte)
    requires CrcTableOk(t)
    ensures Xor(reg % 256, b) < 256
    ensures Xor(t[Xor(reg % 256, b)], reg / 256) == CrcOf(BitsOf(b, 8), reg)
  {
    hide Xor, Shift, CrcOf, Shifts, Pow2;
    var lo, hi := reg % 256, reg / 256;
    assert Pow2(8) == 256 by { Pow2Values(); }
    XorBound(lo, b, 8);
    BitsAtOnce(b, 8, reg);
    assert reg == Xor(256 * hi, lo) by {
      XorApart(hi, lo, 8);
    }
    XorAssoc(256 * hi, lo, b);
    ShiftsXor(256 * hi, Xor(lo, b), 8);
    ShiftHigh(hi);
    XorComm(hi, Shifts(Xor(lo, b), 8));
  }

  // ----- Blocks of bytes -----

  lemma {:induction false} CrcOfAppend(a: seq<bool>, b: seq<bool>, reg: nat)
    ensures CrcOf(a + b, reg) == CrcOf(b, CrcOf(a, reg))
    decreases |a|
  {
    hide Shift, Xor;
    if a == [] {
      assert a + b == b;
    } else {
      assert (a + b)[1..] == a[1..] + b;
      CrcOfAppend(a[1..], b, Shift(Xor(reg, if a[0] then 1 else 0)));
    }
  }

  lemma CrcAppend(a: seq<byte>, b: seq<byte>)
    ensures CrcOf(BytesToBits(a + b), CRC_START) == CrcOf(BytesToBits(b), CrcOf(BytesToBits(a), CRC_START))
  {
    hide CrcOf, BytesToBits;
    BytesToBitsAppend(a, b);
    CrcOfAppend(BytesToBits(a), BytesToBits(b), CRC_START);
  }

  /** `crc32_block_endian0`. */
  method Crc32Block(val: nat, buf: seq<byte>, table: seq<nat>) returns (r: nat)
    requires CrcTableOk(table)
    ensures r == CrcOf(BytesToBits(buf), val)
    ensures val < TWO32 ==> r < TWO32
  {
    hide CrcOf, BytesToBits, CrcTableOk, Xor, BitsOf;
    r := val;
    CrcNone(val);
    TableSize(table);
    assert buf[..0] == [];
    for i := 0 to |buf|
      invariant r == CrcOf(BytesToBits(buf[..i]), val)
    {
      TableByte(table, r, buf[i]);
      assert buf[..i + 1] == buf[..i] + [buf[i]];
      BytesToBitsAppend(buf[..i], [buf[i]]);
      BytesToBitsOne(buf[i]);
      CrcOfAppend(BytesToBits(buf[..i]), BitsOf(buf[i], 8), val);
      r := Xor(table[Xor(r % 256, buf[i])], r / 256);
    }
    assert buf[..|buf|] == buf;
    if val < TWO32 { CrcFits(BytesToBits(buf), val); }
  }

  lemma CrcNone(reg: nat)
    ensures CrcOf(BytesToBits([]), reg) == reg
  {
  }

  lemma TableSize(t: seq<nat>)
    requires CrcTableOk(t)
    ensures |t| == 256
  {
  }

  /** The register keeps to 32 bits. */
  lemma {:induction false} CrcFits(bits: seq<bool>, reg: nat)
    requires reg < TWO32
    ensures CrcOf(bits, reg) < TWO32
    decreases |bits|
  {
    hide Xor, Shift;
    if bits != [] {
      var x := Xor(reg, if bits[0] then 1 else 0);
      Pow2Values();
      XorBound(reg, if bits[0] then 1 else 0, 32);
      ShiftFits(x);
      CrcFits(bits[1..], Shift(x));
    }
  }

  lemma ShiftFits(x: nat)
    requires x < TWO32
    ensures Shift(x) < TWO32
  {
    hide Xor;
    Pow2Values();
    XorBound(x / 2, if x % 2 == 1 then POLY else 0, 32);
  }
}
