/** Bit reversal and code assignment, as the compressor does them.

    A `ct_data` array of the source is a pair of arrays here: `fc` overlays frequency and
    code, `dl` overlays father node and code length, as the two C unions do. */
module GenCodes {
  import opened Bits
  import opened Rfc1951
  import opened CanonicalCodes

  /** Reverses the low `len` bits of a code. */
  method BiReverse(code: nat, len: nat) returns (res: nat)
    requires 1 <= len <= MAX_BITS
    ensures res < Pow2(len) && BitsOf(res, len) == MsbBits(code, len)
  {
    assert code == Shr(code, 0) && BitsOf(0, 0) == MsbBits(code, 0) && Pow2(0) == 1;
    hide Or, BitsOf, MsbBits, Shr, Wrap32, Pow2;
    res := 0;
    var c, left := code, len;
    ghost var done, half := 0, 0;
    while true
      invariant 1 <= left <= len && done == len - left
      invariant c == Shr(code, done)
      invariant res == 2 * half && half < Pow2(done) && BitsOf(half, done) == MsbBits(code, done)
      decreases left
    {
      ReverseStep(code, done, c, half);
      res := Or(res, c % 2);
      left := left - 1;
      if left <= 0 {
        return;
      }
      done, half := done + 1, res;
      c := c / 2;
      SmallPower(res, done);
      res := Wrap32(2 * res);
    }
  }

  lemma ReverseStep(code: nat, done: nat, c: nat, half: nat)
    requires c == Shr(code, done) && half < Pow2(done) && BitsOf(half, done) == MsbBits(code, done)
    ensures Or(2 * half, c % 2) < Pow2(done + 1)
    ensures BitsOf(Or(2 * half, c % 2), done + 1) == MsbBits(code, done + 1)
    ensures c / 2 == Shr(code, done + 1)
  {
    ShrShr(code, done);
    hide Or, MsbBits, Shr, BitsOf;
    OrBit(2 * half, c % 2);
    BitsOfDouble(half, c % 2, done);
    MsbHead(code, done + 1);
  }

  lemma SmallPower(r: nat, k: nat)
    requires k <= MAX_BITS && r < Pow2(k)
    ensures r < 0x8000
  {
    Pow2Mono(k, MAX_BITS);
    Pow2Values();
  }

  lemma BitsOfDouble(v: nat, b: nat, k: nat)
    requires b < 2
    ensures BitsOf(2 * v + b, k + 1) == [b == 1] + BitsOf(v, k)
  {
    assert (2 * v + b) / 2 == v && (2 * v + b) % 2 == b;
  }

  /** `blCount` holds the number of codes of each length. */
  ghost predicate CountsOf(blCount: seq<nat>, lens: seq<nat>) {
    && |blCount| == MAX_BITS + 1
    && blCount[0] == 0
    && forall l :: 1 <= l <= MAX_BITS ==> blCount[l] == CountLen(lens, l)
  }

  /** Symbol `n` of the tree has been given its codeword. */
  ghost predicate HasCode(code: nat, lens: seq<nat>, n: nat)
    requires n < |lens|
  {
    lens[n] > 0 ==> code < Pow2(lens[n]) && BitsOf(code, lens[n]) == Codeword(lens, n)
  }

  lemma CodesStaySmall(lens: seq<nat>, b: nat)
    requires b <= MAX_BITS && LensWithin(lens, MAX_BITS) && Kraft(lens, MAX_BITS) <= Pow2(MAX_BITS)
    ensures NextCode(lens, b) + (if b == 0 then 0 else CountLen(lens, b)) <= 0x8000
    ensures NextCode(lens, b + 1) == 2 * (NextCode(lens, b) + if b == 0 then 0 else CountLen(lens, b))
  {
    hide CountLen, Kraft;
    EndCodeBound(lens, b, MAX_BITS);
    Pow2Mono(b, MAX_BITS);
    Pow2Values();
  }

  /** The code of the next length, without a wrap. */
  lemma CodeStep(lens: seq<nat>, blCount: seq<nat>, bits: nat)
    requires CountsOf(blCount, lens) && LensWithin(lens, MAX_BITS) && Kraft(lens, MAX_BITS) <= Pow2(MAX_BITS)
    requires 1 <= bits <= MAX_BITS && |blCount| == MAX_BITS + 1
    ensures Wrap32((NextCode(lens, bits - 1) + blCount[bits - 1]) * 2) == NextCode(lens, bits)
  {
    hide CountLen, Kraft, Pow2, NextCode, Wrap32;
    CodesStaySmall(lens, bits - 1);
  }

  /** First code value of every length; the local array next_code of the source. */
  method FirstCodes(blCount: array<nat>, ghost lens: seq<nat>) returns (nextCode: seq<nat>)
    requires blCount.Length == MAX_BITS + 1 && CountsOf(blCount[..], lens)
    requires LensWithin(lens, MAX_BITS) && Kraft(lens, MAX_BITS) <= Pow2(MAX_BITS)
    ensures NextAt(nextCode, lens, 0)
  {
    hide FirstsTo, CountLen, Kraft, Pow2, NextCode, Wrap32, CountsOf, LensWithin;
    nextCode := [0];
    var code := 0;
    FirstsStart(lens);
    for bits := 1 to MAX_BITS + 1
      invariant code == NextCode(lens, bits - 1) && FirstsTo(nextCode, lens, bits)
    {
      CodeStep(lens, blCount[..], bits);
      FirstsMore(nextCode, lens, bits);
      code := Wrap32((code + blCount[bits - 1]) * 2);
      nextCode := nextCode + [code];
    }
    FirstsDone(nextCode, lens);
  }

  ghost predicate FirstsTo(nextCode: seq<nat>, lens: seq<nat>, bits: nat) {
    |nextCode| == bits && forall b :: 1 <= b < bits ==> nextCode[b] == NextCode(lens, b)
  }

  lemma FirstsStart(lens: seq<nat>)
    ensures NextCode(lens, 0) == 0 && FirstsTo([0], lens, 1)
  {
  }

  lemma FirstsMore(nextCode: seq<nat>, lens: seq<nat>, bits: nat)
    requires FirstsTo(nextCode, lens, bits)
    ensures FirstsTo(nextCode + [NextCode(lens, bits)], lens, bits + 1)
  {
    hide NextCode;
  }

  lemma FirstsDone(nextCode: seq<nat>, lens: seq<nat>)
    requires FirstsTo(nextCode, lens, MAX_BITS + 1)
    ensures NextAt(nextCode, lens, 0)
  {
    hide NextCode;
    assert forall b :: CountLen(lens[..0], b) == 0;
  }

  /** Assigns the canonical codes, bit reversed, to all symbols with a nonzero length. */
  method GenCodes(fc: array<nat>, dl: array<nat>, blCount: array<nat>, maxCode: nat)
    requires maxCode < fc.Length && maxCode < dl.Length
    requires fc != dl && fc != blCount
    requires blCount.Length == MAX_BITS + 1 && CountsOf(blCount[..], dl[..maxCode + 1])
    requires LensWithin(dl[..maxCode + 1], MAX_BITS) && Kraft(dl[..maxCode + 1], MAX_BITS) <= Pow2(MAX_BITS)
    modifies fc
    ensures forall n :: 0 <= n <= maxCode ==> HasCode(fc[n], dl[..maxCode + 1], n)
    ensures forall n :: maxCode < n < fc.Length ==> fc[n] == old(fc[n])
  {
    hide BitsOf, MsbBits, Kraft, Pow2, CountLen, NextCode;
    ghost var lens := dl[..maxCode + 1];
    var nextCode := FirstCodes(blCount, lens);
    for n := 0 to maxCode + 1
      invariant dl[..maxCode + 1] == lens
      invariant NextAt(nextCode, lens, n)
      invariant forall m :: 0 <= m < n ==> HasCode(fc[m], lens, m)
      invariant forall m :: maxCode < m < fc.Length ==> fc[m] == old(fc[m])
    {
      var len := dl[n];
      assert len == lens[n];
      NextAtStep(nextCode, lens, n);
      if len != 0 {
        var code := nextCode[len];
        nextCode := nextCode[len := code + 1];
        var r := BiReverse(code, len);
        fc[n] := r;
      }
    }
  }

  /** The running code values when `n` is the next symbol. */
  ghost predicate NextAt(next: seq<nat>, lens: seq<nat>, n: nat)
    requires n <= |lens|
  {
    |next| == MAX_BITS + 1 &&
    forall b :: 1 <= b <= MAX_BITS ==> next[b] == NextCode(lens, b) + CountLen(lens[..n], b)
  }

  lemma NextAtStep(next: seq<nat>, lens: seq<nat>, n: nat)
    requires n < |lens| && lens[n] <= MAX_BITS && NextAt(next, lens, n)
    ensures lens[n] == 0 ==> NextAt(next, lens, n + 1)
    ensures lens[n] > 0 ==> next[lens[n]] == Code(lens, n) && NextAt(next[lens[n] := next[lens[n]] + 1], lens, n + 1)
  {
    hide NextCode;
    assert lens[..n + 1][..n] == lens[..n];
  }
}
