/** Bit strings and the unsigned-integer operators of C, over unbounded naturals.

    A bit string is a sequence of booleans in the order in which the bits enter the
    stream.  Section 3.1.1 of RFC 1951 packs data elements starting with the least
    significant bit, so `BitsOf` lists a number least significant bit first. */
module Bits {

  type byte = x: int | 0 <= x < 256

  /** Longest code of the format. */
  const MAX_BITS: nat := 15

  /** Shortest and longest match. */
  const MIN_MATCH: nat := 3
  const MAX_MATCH: nat := 258

  const TWO16: nat := 0x1_0000
  const TWO32: nat := 0x1_0000_0000
  const TWO64: nat := 0x1_0000_0000_0000_0000

  datatype Option<+T> = None | Some(value: T)

  function Pow2(n: nat): (p: nat)
    ensures p >= 1
  {
    if n == 0 then 1 else 2 * Pow2(n - 1)
  }

  /** The low `len` bits of `v`, least significant first. */
  function BitsOf(v: nat, len: nat): (r: seq<bool>)
    ensures |r| == len
  {
    if len == 0 then [] else [v % 2 == 1] + BitsOf(v / 2, len - 1)
  }

  function ValueOf(b: seq<bool>): (v: nat)
    ensures v < Pow2(|b|)
  {
    if b == [] then 0 else (if b[0] then 1 else 0) + 2 * ValueOf(b[1..])
  }

  function BytesToBits(bs: seq<byte>): (r: seq<bool>)
    ensures |r| == 8 * |bs|
  {
    if bs == [] then [] else BitsOf(bs[0], 8) + BytesToBits(bs[1..])
  }

  /** Storing into a 32-, 16- or 8-bit unsigned. */
  function Wrap32(v: int): (r: nat)
    ensures r < TWO32 && (0 <= v < TWO32 ==> r == v)
  {
    v % TWO32
  }

  function Wrap16(v: int): (r: nat)
    ensures r < TWO16 && (0 <= v < TWO16 ==> r == v)
  {
    v % TWO16
  }

  function Wrap8(v: int): (r: byte)
    ensures 0 <= v < 256 ==> r == v
  {
    v % 256
  }

  /** C's `|` on unsigned values. */
  function Or(a: nat, b: nat): (r: nat)
    decreases a + b
  {
    if a == 0 && b == 0 then 0
    else (if a % 2 == 1 || b % 2 == 1 then 1 else 0) + 2 * Or(a / 2, b / 2)
  }

  /** C's `^` on unsigned values. */
  function Xor(a: nat, b: nat): (r: nat)
    decreases a + b
  {
    if a == 0 && b == 0 then 0
    else (if a % 2 != b % 2 then 1 else 0) + 2 * Xor(a / 2, b / 2)
  }

  /** C's `<<` on a 32-bit unsigned, one doubling per position. */
  function Shl32(v: nat, k: nat): (r: nat)
    requires k < 32
    ensures r < TWO32
  {
    if k == 0 then v % TWO32 else 2 * Shl32(v, k - 1) % TWO32
  }

  /** C's `>>` on an unsigned value, one halving per position. */
  function Shr(v: nat, k: nat): (r: nat) {
    if k == 0 then v else Shr(v / 2, k - 1)
  }

  /** The low k bits of a value as a number: C's `v & ((1 << k) - 1)`. */
  function Low(v: nat, k: nat): (r: nat)
    ensures r < Pow2(k)
  {
    if k == 0 then 0 else v % 2 + 2 * Low(v / 2, k - 1)
  }

  lemma {:induction false} ShrShr(v: nat, k: nat)
    ensures Shr(v, k + 1) == Shr(v, k) / 2
  {
    if k > 0 { ShrShr(v / 2, k - 1); }
  }

  lemma WrapAdd(a: int, b: int)
    ensures Wrap32(Wrap32(a) + b) == Wrap32(a + b)
  {
    var q, r := a / TWO32, a % TWO32;
    assert a == TWO32 * q + r;
    assert (r + b) % TWO32 == (TWO32 * q + r + b) % TWO32 by { ModShift(r + b, q); }
  }

  lemma {:induction false} ModShift(x: int, q: int)
    ensures (TWO32 * q + x) % TWO32 == x % TWO32
    decreases if q < 0 then -q else q
  {
    if q > 0 {
      ModShift(x, q - 1);
      assert TWO32 * q + x == (TWO32 * (q - 1) + x) + TWO32;
    } else if q < 0 {
      ModShift(x, q + 1);
      assert TWO32 * (q + 1) + x == (TWO32 * q + x) + TWO32;
    }
  }

  lemma Assoc(a: seq<bool>, b: seq<bool>, c: seq<bool>)
    ensures a + b + c == a + (b + c)
  {
  }

  lemma {:induction false} Pow2Add(a: nat, b: nat)
    ensures Pow2(a + b) == Pow2(a) * Pow2(b)
  {
    if a == 0 {
    } else {
      Pow2Add(a - 1, b);
      assert Pow2(a + b) == 2 * Pow2(a - 1 + b);
      assert 2 * (Pow2(a - 1) * Pow2(b)) == (2 * Pow2(a - 1)) * Pow2(b);
    }
  }

  lemma {:induction false} Pow2Mono(a: nat, b: nat)
    requires a <= b
    ensures Pow2(a) <= Pow2(b)
  {
    if a < b { Pow2Mono(a, b - 1); }
  }

  lemma Pow2Values()
    ensures Pow2(0) == 1 && Pow2(1) == 2 && Pow2(2) == 4 && Pow2(3) == 8 && Pow2(4) == 16
    ensures Pow2(5) == 32 && Pow2(6) == 64 && Pow2(7) == 128 && Pow2(8) == 256
    ensures Pow2(9) == 512 && Pow2(10) == 1024 && Pow2(11) == 2048 && Pow2(12) == 4096
    ensures Pow2(13) == 8192 && Pow2(14) == 16384 && Pow2(15) == 32768 && Pow2(16) == TWO16
    ensures Pow2(31) == 0x8000_0000 && Pow2(32) == TWO32
  {
    assert Pow2(16) == TWO16;
    Pow2Add(16, 16);
    Pow2Add(16, 15);
  }

  lemma Pow2Of64()
    ensures Pow2(64) == 2 * Pow2(63) == TWO64
  {
    Pow2Values();
    Pow2Add(32, 32);
  }

  /** Division and remainder from an explicit decomposition. */
  lemma DivModUnique(v: nat, d: nat, q: nat, r: nat)
    requires d > 0 && r < d && v == q * d + r
    ensures v / d == q && v % d == r
  {
    var q' := v / d;
    var r' := v % d;
    assert v == q' * d + r';
    if q' > q {
      MulGap(q', q, d);
    } else if q' < q {
      MulGap(q, q', d);
    }
  }

  lemma MulGap(a: nat, b: nat, d: nat)
    requires a > b
    ensures a * d >= b * d + d
  {
    var x := a - b - 1;
    assert a * d == (b + 1 + x) * d == b * d + d + x * d;
  }

  lemma TwiceProduct(s: nat, p: nat)
    ensures s * (2 * p) == 2 * (s * p)
  {
  }

  lemma {:induction false} SplitLow(v: nat, k: nat)
    ensures v == Shr(v, k) * Pow2(k) + Low(v, k)
  {
    if k > 0 {
      SplitLow(v / 2, k - 1);
      TwiceProduct(Shr(v, k), Pow2(k - 1));
    }
  }

  lemma LowShrAreModDiv(v: nat, k: nat)
    ensures Low(v, k) == v % Pow2(k) && Shr(v, k) == v / Pow2(k)
  {
    SplitLow(v, k);
    DivModUnique(v, Pow2(k), Shr(v, k), Low(v, k));
  }

  lemma LowShrUnique(v: nat, k: nat, q: nat, r: nat)
    requires r < Pow2(k) && v == q * Pow2(k) + r
    ensures Shr(v, k) == q && Low(v, k) == r
  {
    LowShrAreModDiv(v, k);
    DivModUnique(v, Pow2(k), q, r);
  }

  /** Shifting left in a 32-bit word keeps the low bits that still fit. */
  lemma {:induction false} ShlKeepsLow(v: nat, k: nat)
    requires k < 32
    ensures Shl32(v, k) == Low(v, 32 - k) * Pow2(k)
  {
    if k == 0 {
      LowShrAreModDiv(v, 32);
      Pow2Values();
    } else {
      ShlKeepsLow(v, k - 1);
      var top := LowTop(v, 32 - k);
      assert Pow2(32 - k) * Pow2(k) == TWO32 by {
        Pow2Add(32 - k, k);
        Pow2Values();
      }
      ShlStep(top, Pow2(32 - k), Low(v, 32 - k), Low(v, 33 - k), Pow2(k - 1));
    }
  }

  lemma SumTimes(a: nat, b: nat, c: nat)
    ensures (a + b) * c == a * c + b * c
  {
  }

  lemma ShlStep(top: bool, t: nat, r: nat, r': nat, p: nat)
    requires r' == (if top then t else 0) + r && r < t && t * (2 * p) == TWO32
    ensures 2 * (r' * p) % TWO32 == r * (2 * p)
  {
    TwiceProduct(r', p);
    MulGap(t, r, 2 * p);
    if top { SumTimes(t, r, 2 * p); }
    DivModUnique(2 * (r' * p), TWO32, if top then 1 else 0, r * (2 * p));
  }

  /** One more low bit is one more power of two. */
  lemma {:induction false} LowTop(v: nat, k: nat) returns (top: bool)
    ensures Low(v, k + 1) == (if top then Pow2(k) else 0) + Low(v, k)
  {
    if k == 0 {
      top := v % 2 == 1;
    } else {
      top := LowTop(v / 2, k - 1);
    }
  }

  lemma {:induction false} BitsOfLow(v: nat, k: nat)
    ensures BitsOf(Low(v, k), k) == BitsOf(v, k)
  {
    if k > 0 { BitsOfLow(v / 2, k - 1); }
  }

  lemma {:induction false} BitsOfSplit(v: nat, k: nat, m: nat)
    ensures BitsOf(v, k + m) == BitsOf(v, k) + BitsOf(Shr(v, k), m)
  {
    if k > 0 {
      BitsOfSplit(v / 2, k - 1, m);
      assert BitsOf(v, k + m) == [v % 2 == 1] + BitsOf(v / 2, k - 1 + m);
    }
  }

  /** A low part below 2^k and a high part shifted by k are sent one after the other. */
  lemma BitsOfConcat(a: nat, k: nat, b: nat, m: nat)
    requires a < Pow2(k)
    ensures BitsOf(a + b * Pow2(k), k + m) == BitsOf(a, k) + BitsOf(b, m)
  {
    var v := a + b * Pow2(k);
    LowShrUnique(v, k, b, a);
    BitsOfSplit(v, k, m);
    BitsOfLow(v, k);
  }

  lemma {:induction false} ValueOfBits(v: nat, len: nat)
    requires v < Pow2(len)
    ensures ValueOf(BitsOf(v, len)) == v
  {
    if len > 0 {
      ValueOfBits(v / 2, len - 1);
      assert BitsOf(v, len)[1..] == BitsOf(v / 2, len - 1);
    }
  }

  lemma {:induction false} BytesToBitsAppend(a: seq<byte>, b: seq<byte>)
    ensures BytesToBits(a + b) == BytesToBits(a) + BytesToBits(b)
  {
    hide BitsOf;
    if a == [] {
      assert a + b == b;
    } else {
      BytesToBitsAppend(a[1..], b);
      assert (a + b)[1..] == a[1..] + b;
    }
  }

  lemma BytesToBitsOne(b: byte)
    ensures BytesToBits([b]) == BitsOf(b, 8)
  {
  }

  /** Or of values with disjoint bits is their sum: the low one lies below 2^k and
      the high one is a multiple of it. */
  lemma {:induction false} OrDisjoint(a: nat, b: nat, k: nat)
    requires a < Pow2(k)
    ensures Or(a, b * Pow2(k)) == a + b * Pow2(k)
  {
    if k == 0 {
      OrZero(b);
    } else {
      var p := Pow2(k - 1);
      var c := b * Pow2(k);
      assert c == 2 * (b * p);
      if a == 0 && c == 0 {
      } else {
        OrDisjoint(a / 2, b, k - 1);
      }
    }
  }

  lemma OrBit(v: nat, b: nat)
    requires v % 2 == 0 && b < 2
    ensures Or(v, b) == v + b
  {
    OrZero(v / 2);
  }

  lemma {:induction false} OrZero(b: nat)
    ensures Or(0, b) == b && Or(b, 0) == b
  {
    if b > 0 { OrZero(b / 2); }
  }

  lemma {:induction false} XorBound(a: nat, b: nat, k: nat)
    requires a < Pow2(k) && b < Pow2(k)
    ensures Xor(a, b) < Pow2(k)
  {
    if k > 0 && (a > 0 || b > 0) {
      XorBound(a / 2, b / 2, k - 1);
    }
  }

  /** Xor with a fixed value is injective. */
  lemma {:induction false} XorCancel(x: nat, a: nat, b: nat)
    requires Xor(x, a) == Xor(x, b)
    ensures a == b
    decreases x + a + b
  {
    if x == 0 && a == 0 && b == 0 {
    } else {
      XorStep(x, a);
      XorStep(x, b);
      var x', a', b' := x / 2, a / 2, b / 2;
      XorCancel(x', a', b');
    }
  }

  /** The low k bits of an xor are the xor of the low k bits. */
  lemma {:induction false} XorLow(a: nat, b: nat, k: nat)
    ensures Low(Xor(a, b), k) == Xor(Low(a, k), Low(b, k))
  {
    if k > 0 {
      XorLow(a / 2, b / 2, k - 1);
      var x, y := Low(Xor(a, b), k), Xor(Low(a, k), Low(b, k));
      assert x / 2 == y / 2 && x % 2 == y % 2 by {
        XorStep(a, b);
        XorStep(Low(a, k), Low(b, k));
        LowStep(a, k);
        LowStep(b, k);
        LowStep(Xor(a, b), k);
      }
    }
  }

  lemma LowStep(v: nat, k: nat)
    requires k > 0
    ensures Low(v, k) % 2 == v % 2 && Low(v, k) / 2 == Low(v / 2, k - 1)
  {
  }

  lemma XorStep(a: nat, b: nat)
    ensures Xor(a, b) / 2 == Xor(a / 2, b / 2)
    ensures Xor(a, b) % 2 == if a % 2 != b % 2 then 1 else 0
  {
  }
}
