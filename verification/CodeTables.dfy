/** The length and distance code tables and the static trees that `ct_init` builds, against
    the tables of sections 3.2.5 and 3.2.6 of RFC 1951. */
module CodeTables {
  import opened Bits
  import opened Rfc1951
  import Codes = GenCodes

  const LENGTH_CODES: nat := 29
  const D_CODES: nat := 30

  /** `extra_lbits` and `extra_dbits`. */
  const EXTRA_LBITS: seq<nat> :=
    [0, 0, 0, 0, 0, 0, 0, 0, 1, 1, 1, 1, 2, 2, 2, 2, 3, 3, 3, 3, 4, 4, 4, 4, 5, 5, 5, 5, 0]
  const EXTRA_DBITS: seq<nat> :=
    [0, 0, 0, 0, 1, 1, 2, 2, 3, 3, 4, 4, 5, 5, 6, 6, 7, 7, 8, 8, 9, 9, 10, 10, 11, 11, 12, 12, 13, 13]

  /** The format prescribes as many extra bits. */
  lemma ExtrasAgree()
    ensures EXTRA_LBITS == LENGTH_EXTRA && EXTRA_DBITS == DIST_EXTRA
  {
  }

  // The extra bits that are sent, and the base values that they are added to.

  function LBase(c: nat): (r: nat)
    requires c < LENGTH_CODES
    ensures 3 <= r <= 258
  {
    LENGTH_BASE[c]
  }

  function LExtra(c: nat): (r: nat)
    requires c < LENGTH_CODES
    ensures r <= 5
  {
    EXTRA_LBITS[c]
  }

  function DBase(c: nat): (r: nat)
    requires c < D_CODES
    ensures 1 <= r <= 24577
  {
    DIST_BASE[c]
  }

  function DExtra(c: nat): (r: nat)
    requires c < D_CODES
    ensures r <= 13
  {
    EXTRA_DBITS[c]
  }

  /** Consecutive length codes cover consecutive ranges. */
  lemma LengthStep(c: nat)
    requires c < 28
    ensures LBase(c) + Pow2(LExtra(c)) == if c < 27 then LBase(c + 1) else 259
  {
    Pow2Values();
  }

  lemma DistStep(c: nat)
    requires c < D_CODES
    ensures DBase(c) + Pow2(DExtra(c)) == if c < 29 then DBase(c + 1) else 32769
  {
    Pow2Values();
    if c < 10 {
    } else if c < 20 {
    } else {
    }
  }

  lemma {:induction false} LBaseMono(a: nat, b: nat)
    requires a < b < LENGTH_CODES
    ensures LBase(a) < LBase(b)
  {
    hide LBase, LExtra;
    if a + 1 < b { LBaseMono(a, b - 1); }
    if b == 28 {
      LastLengths();
    } else {
      LengthStep(b - 1);
    }
  }

  lemma LastLengths()
    ensures LBase(0) == 3 && LBase(27) == 227 && LBase(28) == 258 && LExtra(28) == 0 && DBase(0) == 1 && DBase(16) == 257
  {
  }

  lemma {:induction false} DBaseMono(a: nat, b: nat)
    requires a < b < D_CODES
    ensures DBase(a) < DBase(b)
  {
    hide DBase, DExtra;
    if a + 1 < b { DBaseMono(a, b - 1); }
    DistStep(b - 1);
  }

  /** The largest length code whose base does not exceed the length: 258 gets its own code. */
  function LengthCode(len: nat, c: nat): (r: nat)
    requires 3 <= len && c < LENGTH_CODES
    ensures r <= c
  {
    if c == 0 || LBase(c) <= len then c else LengthCode(len, c - 1)
  }

  function DistCode(dist: nat, c: nat): (r: nat)
    requires 1 <= dist && c < D_CODES
    ensures r <= c
  {
    if c == 0 || DBase(c) <= dist then c else DistCode(dist, c - 1)
  }

  function LengthCodeOf(len: nat): (r: nat)
    requires 3 <= len
    ensures r < LENGTH_CODES
  {
    LengthCode(len, 28)
  }

  function DistCodeOf(dist: nat): (r: nat)
    requires 1 <= dist
    ensures r < D_CODES
  {
    DistCode(dist, 29)
  }

  lemma {:induction false} LengthCodeIs(len: nat, c: nat, top: nat)
    requires 3 <= len && c <= top < LENGTH_CODES && LBase(c) <= len && (c < 28 ==> len < LBase(c + 1))
    ensures LengthCode(len, top) == c
  {
    hide LBase;
    if c < top {
      if c + 1 < top { LBaseMono(c + 1, top); }
      LengthCodeIs(len, c, top - 1);
    }
  }

  lemma {:induction false} DistCodeIs(dist: nat, c: nat, top: nat)
    requires 1 <= dist && c <= top < D_CODES && DBase(c) <= dist && (c < 29 ==> dist < DBase(c + 1))
    ensures DistCode(dist, top) == c
  {
    hide DBase;
    if c < top {
      if c + 1 < top { DBaseMono(c + 1, top); }
      DistCodeIs(dist, c, top - 1);
    }
  }

  lemma {:induction false} LengthCodeRange(len: nat, top: nat)
    requires 3 <= len <= 258 && top < LENGTH_CODES && (top < 28 ==> len < LBase(top + 1))
    ensures var c := LengthCode(len, top); LBase(c) <= len < LBase(c) + Pow2(LExtra(c))
  {
    hide LBase, LExtra;
    LastLengths();
    if top == 0 || LBase(top) <= len {
      if top < 28 { LengthStep(top); }
    } else {
      LengthCodeRange(len, top - 1);
    }
  }

  lemma {:induction false} DistCodeRange(dist: nat, top: nat)
    requires 1 <= dist <= 32768 && top < D_CODES && (top < 29 ==> dist < DBase(top + 1))
    ensures var c := DistCode(dist, top); DBase(c) <= dist < DBase(c) + Pow2(DExtra(c))
  {
    hide DBase, DExtra;
    LastLengths();
    if top == 0 || DBase(top) <= dist {
      DistStep(top);
    } else {
      DistCodeRange(dist, top - 1);
    }
  }

  // ----- ct_init: the mapping tables -----

  /** Where the range of length code c starts in length_code. */
  function LStart(c: nat): nat
    requires c <= 28
  {
    if c < 28 then LBase(c) - 3 else 256
  }

  /** Length j + 3 lies in the range of code c, when 258 still counts with code 27. */
  ghost predicate LengthIn(j: nat, c: nat) {
    c < 28 && LStart(c) <= j < LStart(c + 1)
  }

  method InitLengthCodes(lengthCode: array<nat>, baseLength: array<nat>)
    requires lengthCode.Length == 256 && baseLength.Length == LENGTH_CODES && lengthCode != baseLength
    modifies lengthCode, baseLength
    ensures forall lc :: 0 <= lc < 256 ==> lengthCode[lc] == LengthCodeOf(lc + 3)
    ensures forall c :: 0 <= c < 28 ==> baseLength[c] == LBase(c) - 3
  {
    hide LBase, LExtra, LengthCodeOf, Pow2;
    LastLengths();
    var length := 0;
    for code := 0 to LENGTH_CODES - 1
      invariant length == LStart(code)
      invariant forall c :: 0 <= c < code ==> baseLength[c] == LBase(c) - 3
      invariant forall j :: 0 <= j < length ==> LengthIn(j, lengthCode[j])
    {
      baseLength[code] := length;
      LengthStep(code);
      for n := 0 to Pow2(LExtra(code))
        invariant length == LStart(code) + n
        invariant forall c :: 0 <= c <= code ==> baseLength[c] == LBase(c) - 3
        invariant forall j :: 0 <= j < length ==> LengthIn(j, lengthCode[j])
      {
        lengthCode[length] := code;
        length := length + 1;
      }
    }
    lengthCode[length - 1] := 28;
    forall lc | 0 <= lc < 256 ensures lengthCode[lc] == LengthCodeOf(lc + 3) {
      FinalLengthCode(lc, lengthCode[lc]);
    }
  }

  lemma FinalLengthCode(lc: nat, c: nat)
    requires lc < 256 && if lc == 255 then c == 28 else LengthIn(lc, c)
    ensures c == LengthCodeOf(lc + 3)
  {
    hide LBase, LExtra;
    LastLengths();
    LengthCodeIs(lc + 3, c, 28);
  }

  /** `D_CODE` of the source on the table: dist is the distance minus one. */
  function DCodeIndex(dist: nat): nat {
    if dist < 256 then dist else 256 + dist / 128
  }

  /** Where the range of distance code c starts, as distance minus one. */
  function DStart(c: nat): nat
    requires c <= 30
  {
    if c < 30 then DBase(c) - 1 else 32768
  }

  ghost predicate DistIn(d: nat, c: nat) {
    c < D_CODES && DStart(c) <= d < DStart(c + 1)
  }

  lemma DStartStep(c: nat)
    requires c < D_CODES
    ensures DStart(c + 1) == DStart(c) + Pow2(DExtra(c))
    ensures c >= 16 ==> DExtra(c) >= 7 && DStart(c) % 128 == 0 && Pow2(DExtra(c)) == 128 * Pow2(DExtra(c) - 7)
    ensures DStart(0) == 0 && DStart(16) == 256 && DStart(30) == 32768
    ensures c < 16 ==> DStart(c + 1) <= 256
    ensures DStart(c + 1) <= 32768
  {
    DistStep(c);
    Pow2Values();
  }

  method InitDistCodes(distCode: array<nat>, baseDist: array<nat>)
    requires distCode.Length == 512 && baseDist.Length == D_CODES && distCode != baseDist
    modifies distCode, baseDist
    ensures forall d :: 0 <= d < 32768 ==> distCode[DCodeIndex(d)] == DistCodeOf(d + 1)
    ensures forall c :: 0 <= c < D_CODES ==> baseDist[c] == DBase(c) - 1
  {
    hide DBase, DExtra, DistCodeOf, Pow2, DStart;
    DStartStep(0);
    var dist := 0;
    for code := 0 to 16
      invariant dist == DStart(code) <= 256
      invariant forall c :: 0 <= c < code ==> baseDist[c] == DStart(c)
      invariant forall j :: 0 <= j < dist ==> DistIn(j, distCode[j])
    {
      baseDist[code] := dist;
      DStartStep(code);
      for n := 0 to Pow2(DExtra(code))
        invariant dist == DStart(code) + n
        invariant forall c :: 0 <= c <= code ==> baseDist[c] == DStart(c)
        invariant forall j :: 0 <= j < dist ==> DistIn(j, distCode[j])
      {
        distCode[dist] := code;
        dist := dist + 1;
      }
    }
    dist := dist / 128;
    for code := 16 to D_CODES
      invariant 128 * dist == DStart(code) <= 32768
      invariant forall c :: 0 <= c < code ==> baseDist[c] == DStart(c)
      invariant forall j :: 0 <= j < 256 ==> DistIn(j, distCode[j])
      invariant forall k :: 2 <= k < dist ==> DistIn(128 * k, distCode[256 + k])
    {
      baseDist[code] := 128 * dist;
      DStartStep(code);
      for n := 0 to Pow2(DExtra(code) - 7)
        invariant 128 * dist == DStart(code) + 128 * n
        invariant forall c :: 0 <= c <= code ==> baseDist[c] == DStart(c)
        invariant forall j :: 0 <= j < 256 ==> DistIn(j, distCode[j])
        invariant forall k :: 2 <= k < dist ==> DistIn(128 * k, distCode[256 + k])
      {
        distCode[256 + dist] := code;
        dist := dist + 1;
      }
    }
    forall d | 0 <= d < 32768 ensures distCode[DCodeIndex(d)] == DistCodeOf(d + 1) {
      FinalDistCode(d, distCode[DCodeIndex(d)]);
    }
    forall c | 0 <= c < D_CODES ensures baseDist[c] == DBase(c) - 1 {
      StartIsBase(c);
    }
  }

  lemma StartIsBase(c: nat)
    requires c < D_CODES
    ensures DStart(c) == DBase(c) - 1
  {
  }

  lemma FinalDistCode(d: nat, c: nat)
    requires d < 32768 && if d < 256 then DistIn(d, c) else DistIn(128 * (d / 128), c)
    ensures c == DistCodeOf(d + 1)
  {
    hide DBase, DExtra;
    DStartStep(c);
    if c < 29 { DStartStep(c + 1); }
    DistCodeIs(d + 1, c, 29);
  }

  // ----- ct_init: the static trees -----

  lemma {:induction false} CountLenAppend(a: seq<nat>, b: seq<nat>, l: nat)
    ensures CountLen(a + b, l) == CountLen(a, l) + CountLen(b, l)
  {
    if b == [] {
      assert a + b == a;
    } else {
      var n := |b| - 1;
      assert (a + b)[..|a + b| - 1] == a + b[..n];
      CountLenAppend(a, b[..n], l);
    }
  }

  lemma {:induction false} CountLenRepeat(v: nat, n: nat, l: nat)
    ensures CountLen(Repeat(v, n), l) == if l == v then n else 0
  {
    if n > 0 {
      assert Repeat(v, n)[..n - 1] == Repeat(v, n - 1);
      CountLenRepeat(v, n - 1, l);
    }
  }

  lemma {:induction false} KraftAppend(a: seq<nat>, b: seq<nat>, max: nat)
    requires LensWithin(a + b, max)
    ensures LensWithin(a, max) && LensWithin(b, max) && Kraft(a + b, max) == Kraft(a, max) + Kraft(b, max)
  {
    assert forall i :: 0 <= i < |a| ==> (a + b)[i] == a[i];
    assert forall i :: 0 <= i < |b| ==> (a + b)[|a| + i] == b[i];
    if b == [] {
      assert a + b == a;
    } else {
      var n := |b| - 1;
      assert (a + b)[..|a + b| - 1] == a + b[..n];
      KraftAppend(a, b[..n], max);
    }
  }

  lemma {:induction false} KraftRepeat(v: nat, n: nat, max: nat)
    requires 1 <= v <= max
    ensures LensWithin(Repeat(v, n), max) && Kraft(Repeat(v, n), max) == n * Pow2(max - v)
  {
    if n > 0 {
      assert Repeat(v, n)[..n - 1] == Repeat(v, n - 1);
      KraftRepeat(v, n - 1, max);
      assert n * Pow2(max - v) == (n - 1) * Pow2(max - v) + Pow2(max - v);
    }
  }

  /** The numbers of static literal codes of each length. */
  lemma FixedCounts(l: nat)
    ensures CountLen(FIXED_LLENS, l) == if l == 7 then 24 else if l == 8 then 152 else if l == 9 then 112 else 0
  {
    hide CountLen;
    var a, b, c, d := Repeat(8, 144), Repeat(9, 112), Repeat(7, 24), Repeat(8, 8);
    CountLenAppend(a + b + c, d, l);
    CountLenAppend(a + b, c, l);
    CountLenAppend(a, b, l);
    CountLenRepeat(8, 144, l);
    CountLenRepeat(9, 112, l);
    CountLenRepeat(7, 24, l);
    CountLenRepeat(8, 8, l);
  }

  lemma FixedComplete()
    ensures Complete(FIXED_LLENS) && Complete(FIXED_DLENS) && |FIXED_LLENS| == 288 && |FIXED_DLENS| == 32
  {
    hide Kraft;
    var a, b, c, d := Repeat(8, 144), Repeat(9, 112), Repeat(7, 24), Repeat(8, 8);
    KraftAppend(a + b + c, d, MAX_BITS);
    KraftAppend(a + b, c, MAX_BITS);
    KraftAppend(a, b, MAX_BITS);
    KraftRepeat(8, 144, MAX_BITS);
    KraftRepeat(9, 112, MAX_BITS);
    KraftRepeat(7, 24, MAX_BITS);
    KraftRepeat(8, 8, MAX_BITS);
    KraftRepeat(5, 32, MAX_BITS);
    Pow2Values();
  }

  /** Section 3.2.6: the fixed literal codes as the format tabulates them. */
  lemma FixedLiteralCodes(n: nat)
    requires n < 288
    ensures FIXED_LLENS[n] == (if n <= 143 then 8 else if n <= 255 then 9 else if n <= 279 then 7 else 8)
    ensures Code(FIXED_LLENS, n) ==
            if n <= 143 then 0x30 + n else if n <= 255 then 0x190 + (n - 144) else if n <= 279 then n - 256 else 0xC0 + (n - 280)
  {
    hide CountLen, NextCode;
    FixedNext();
    FixedRank(n);
  }

  lemma FixedNext()
    ensures NextCode(FIXED_LLENS, 7) == 0 && NextCode(FIXED_LLENS, 8) == 0x30 && NextCode(FIXED_LLENS, 9) == 0x190
  {
    hide CountLen;
    forall l ensures CountLen(FIXED_LLENS, l) == if l == 7 then 24 else if l == 8 then 152 else if l == 9 then 112 else 0 {
      FixedCounts(l);
    }
    var f := FIXED_LLENS;
    assert NextCode(f, 1) == 0;
    assert NextCode(f, 2) == 0;
    assert NextCode(f, 3) == 0;
    assert NextCode(f, 4) == 0;
    assert NextCode(f, 5) == 0;
    assert NextCode(f, 6) == 0;
    assert NextCode(f, 7) == 0;
    assert NextCode(f, 8) == 48;
  }

  lemma FixedRank(n: nat)
    requires n < 288
    ensures CountLen(FIXED_LLENS[..n], FIXED_LLENS[n])
         == if n <= 143 then n else if n <= 255 then n - 144 else if n <= 279 then n - 256 else 144 + (n - 280)
  {
    hide CountLen;
    var a, b, c := Repeat(8, 144), Repeat(9, 112), Repeat(7, 24);
    var l := FIXED_LLENS[n];
    var k := if n <= 143 then n else if n <= 255 then n - 144 else if n <= 279 then n - 256 else n - 280;
    CountLenRepeat(8, 144, l);
    CountLenRepeat(9, 112, l);
    CountLenRepeat(7, 24, l);
    CountLenRepeat(l, k, l);
    CountLenAppend(a, b, l);
    CountLenAppend(a + b, c, l);
    if n <= 143 {
      assert FIXED_LLENS[..n] == Repeat(8, k);
    } else if n <= 255 {
      assert FIXED_LLENS[..n] == a + Repeat(9, k);
      CountLenAppend(a, Repeat(9, k), l);
    } else if n <= 279 {
      assert FIXED_LLENS[..n] == a + b + Repeat(7, k);
      CountLenAppend(a + b, Repeat(7, k), l);
    } else {
      assert FIXED_LLENS[..n] == a + b + c + Repeat(8, k);
      CountLenAppend(a + b + c, Repeat(8, k), l);
    }
  }

  /** The fixed distance codes are the plain five-bit numbers. */
  lemma FixedDistCode(n: nat)
    requires n < 32
    ensures FIXED_DLENS[n] == 5 && Code(FIXED_DLENS, n) == n
  {
    hide CountLen;
    forall l ensures CountLen(FIXED_DLENS, l) == if l == 5 then 32 else 0 {
      CountLenRepeat(5, 32, l);
    }
    var f := FIXED_DLENS;
    assert NextCode(f, 1) == 0;
    assert NextCode(f, 2) == 0;
    assert NextCode(f, 3) == 0;
    assert NextCode(f, 4) == 0;
    assert FIXED_DLENS[..n] == Repeat(5, n);
    CountLenRepeat(5, n, 5);
  }

  lemma FixedLen(n: nat)
    requires n < 288
    ensures FIXED_LLENS[n] == if n <= 143 then 8 else if n <= 255 then 9 else if n <= 279 then 7 else 8
  {
  }

  /** Fills the lengths from..to-1 of the static literal tree. */
  method FillLens(dl: array<nat>, from: nat, to: nat, v: nat)
    requires from <= to <= dl.Length
    modifies dl
    ensures forall i :: 0 <= i < dl.Length ==> dl[i] == if from <= i < to then v else old(dl[i])
  {
    var n := from;
    while n < to
      invariant from <= n <= to
      invariant forall i :: 0 <= i < dl.Length ==> dl[i] == if from <= i < n then v else old(dl[i])
    {
      dl[n] := v;
      n := n + 1;
    }
  }

  method InitStaticLtree(fc: array<nat>, dl: array<nat>, blCount: array<nat>)
    requires fc.Length == dl.Length == 288 && blCount.Length == MAX_BITS + 1 && fc != dl && fc != blCount && dl != blCount
    requires forall i :: 0 <= i <= MAX_BITS ==> blCount[i] == 0
    modifies fc, dl, blCount
    ensures dl[..] == FIXED_LLENS && forall n :: 0 <= n < 288 ==> Codes.HasCode(fc[n], FIXED_LLENS, n)
  {
    hide CountLen, Kraft, NextCode, Complete, Codes.HasCode, Pow2;
    FillLens(dl, 0, 144, 8);
    FillLens(dl, 144, 256, 9);
    FillLens(dl, 256, 280, 7);
    FillLens(dl, 280, 288, 8);
    FixedComplete();
    forall n | 0 <= n < 288 ensures dl[n] == FIXED_LLENS[n] { FixedLen(n); }
    assert dl[..] == FIXED_LLENS;
    blCount[7] := 279 - 255;
    blCount[8] := (143 + 1) + (287 - 279);
    blCount[9] := 255 - 143;
    forall l | 1 <= l <= MAX_BITS ensures blCount[l] == CountLen(FIXED_LLENS, l) { FixedCounts(l); }
    assert dl[..287 + 1] == FIXED_LLENS;
    CompleteFits(FIXED_LLENS);
    Codes.GenCodes(fc, dl, blCount, 287);
  }

  lemma CompleteFits(lens: seq<nat>)
    requires Complete(lens)
    ensures LensWithin(lens, MAX_BITS) && Kraft(lens, MAX_BITS) <= Pow2(MAX_BITS)
  {
  }

  method InitStaticDtree(fc: array<nat>, dl: array<nat>)
    requires fc.Length == dl.Length == D_CODES && fc != dl
    modifies fc, dl
    ensures FixedDists(fc[..], dl[..], D_CODES)
  {
    hide Codes.HasCode;
    FixedComplete();
    for n := 0 to D_CODES
      invariant FixedDists(fc[..], dl[..], n)
    {
      dl[n] := 5;
      var r := Codes.BiReverse(n, 5);
      StaticDistCode(n, r);
      fc[n] := r;
    }
  }

  /** The first n entries of the static distance tree. */
  ghost predicate FixedDists(fc: seq<nat>, dl: seq<nat>, n: nat) {
    |FIXED_DLENS| == 32 && |fc| == |dl| == D_CODES && n <= D_CODES
    && forall i :: 0 <= i < n ==> dl[i] == 5 && Codes.HasCode(fc[i], FIXED_DLENS, i)
  }

  lemma StaticDistCode(n: nat, r: nat)
    requires n < 32 && r < Pow2(5) && BitsOf(r, 5) == MsbBits(n, 5) && |FIXED_DLENS| == 32
    ensures Codes.HasCode(r, FIXED_DLENS, n)
  {
    hide BitsOf, MsbBits, CountLen, NextCode, Code;
    FixedDistCode(n);
  }
}
