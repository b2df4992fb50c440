/** Canonical codes (section 3.2.2 of RFC 1951) are prefix free, fit their lengths and are
    read back by the reference decoder, whenever the Kraft sum is at most one. */
module CanonicalCodes {
  import opened Bits
  import opened Rfc1951

  // ----- Codes fit their lengths -----

  /** One past the largest code of length `b`. */
  function EndCode(lens: seq<nat>, b: nat): nat {
    if b == 0 then 0 else NextCode(lens, b) + CountLen(lens, b)
  }

  lemma NextFromEnd(lens: seq<nat>, b: nat)
    ensures NextCode(lens, b + 1) == 2 * EndCode(lens, b)
  {
  }

  /** Kraft sum of the symbols with lengths 1..b. */
  function KraftUpTo(lens: seq<nat>, b: nat, max: nat): nat
    requires b <= max
  {
    if b == 0 then 0 else KraftUpTo(lens, b - 1, max) + CountLen(lens, b) * Pow2(max - b)
  }

  lemma {:induction false} KraftUpToSnoc(lens: seq<nat>, l: nat, b: nat, max: nat)
    requires b <= max
    ensures KraftUpTo(lens + [l], b, max) == KraftUpTo(lens, b, max) + if 1 <= l <= b then Pow2(max - l) else 0
  {
    if b > 0 {
      KraftUpToSnoc(lens, l, b - 1, max);
      assert (lens + [l])[..|lens|] == lens;
      OneMore(CountLen(lens, b), Pow2(max - b));
    }
  }

  lemma OneMore(c: nat, p: nat)
    ensures (c + 1) * p == c * p + p
  {
  }

  lemma {:induction false} KraftUpToIsKraft(lens: seq<nat>, max: nat)
    requires LensWithin(lens, max)
    ensures KraftUpTo(lens, max, max) == Kraft(lens, max)
  {
    if lens == [] {
      KraftUpToEmpty(max, max);
    } else {
      var init, l := lens[..|lens| - 1], lens[|lens| - 1];
      KraftUpToIsKraft(init, max);
      KraftUpToSnoc(init, l, max, max);
      assert lens == init + [l];
    }
  }

  lemma {:induction false} KraftUpToEmpty(b: nat, max: nat)
    requires b <= max
    ensures KraftUpTo([], b, max) == 0
  {
    if b > 0 { KraftUpToEmpty(b - 1, max); }
  }

  lemma {:induction false} EndCodeIsKraft(lens: seq<nat>, b: nat, max: nat)
    requires b <= max
    ensures EndCode(lens, b) * Pow2(max - b) == KraftUpTo(lens, b, max)
  {
    hide CountLen;
    if b > 0 {
      EndCodeIsKraft(lens, b - 1, max);
      NextFromEnd(lens, b - 1);
      Doubled(EndCode(lens, b - 1), CountLen(lens, b), Pow2(max - b));
    }
  }

  lemma Doubled(e: nat, c: nat, p: nat)
    ensures (2 * e + c) * p == e * (2 * p) + c * p
  {
  }

  lemma {:induction false} KraftUpToMono(lens: seq<nat>, b: nat, b': nat, max: nat)
    requires b <= b' <= max
    ensures KraftUpTo(lens, b, max) <= KraftUpTo(lens, b', max)
  {
    if b < b' { KraftUpToMono(lens, b, b' - 1, max); }
  }

  /** With a Kraft sum of at most one, all codes of length b are below 2^b. */
  lemma EndCodeBound(lens: seq<nat>, b: nat, max: nat)
    requires b <= max && LensWithin(lens, max) && Kraft(lens, max) <= Pow2(max)
    ensures EndCode(lens, b) <= Pow2(b)
  {
    hide CountLen, NextCode, Kraft, KraftUpTo;
    EndCodeIsKraft(lens, b, max);
    KraftUpToMono(lens, b, max, max);
    KraftUpToIsKraft(lens, max);
    Pow2Add(b, max - b);
    ProductOrder(EndCode(lens, b), Pow2(b), Pow2(max - b));
  }

  lemma ProductOrder(e: nat, p: nat, d: nat)
    requires d > 0 && e * d <= p * d
    ensures e <= p
  {
    if e > p { MulGap(e, p, d); }
  }

  lemma {:induction false} CountLenMono(lens: seq<nat>, i: nat, j: nat, l: nat)
    requires i <= j <= |lens|
    ensures CountLen(lens[..i], l) <= CountLen(lens[..j], l)
  {
    if i < j {
      CountLenMono(lens, i, j - 1, l);
      assert lens[..j][..j - 1] == lens[..j - 1];
    }
  }

  /** Codes of one length are consecutive: later symbols get strictly larger codes. */
  lemma CountLenStrict(lens: seq<nat>, i: nat, j: nat)
    requires i < j <= |lens|
    ensures CountLen(lens[..i], lens[i]) < CountLen(lens[..j], lens[i])
  {
    CountLenMono(lens, i + 1, j, lens[i]);
    assert lens[..i + 1][..i] == lens[..i];
  }

  lemma CodeRange(lens: seq<nat>, n: nat)
    requires n < |lens| && lens[n] > 0
    ensures NextCode(lens, lens[n]) <= Code(lens, n) < EndCode(lens, lens[n])
  {
    CountLenStrict(lens, n, |lens|);
    assert lens[..|lens|] == lens;
  }

  lemma CodeFits(lens: seq<nat>, n: nat, max: nat)
    requires n < |lens| && lens[n] > 0
    requires LensWithin(lens, max) && Kraft(lens, max) <= Pow2(max)
    ensures Code(lens, n) < Pow2(lens[n])
  {
    CodeRange(lens, n);
    EndCodeBound(lens, lens[n], max);
  }

  lemma CodeInjective(lens: seq<nat>, m: nat, n: nat)
    requires m < |lens| && n < |lens| && lens[m] == lens[n] && Code(lens, m) == Code(lens, n)
    ensures m == n
  {
    if m < n { CountLenStrict(lens, m, n); }
    if n < m { CountLenStrict(lens, n, m); }
  }

  // ----- Shorter codes are not prefixes of longer ones -----

  /** Dropping the low bits of a code of length `l` leaves a value past all codes of the
      shorter length `b`. */
  lemma {:induction false} LongerIsBeyond(lens: seq<nat>, b: nat, l: nat, v: nat)
    requires 0 < b < l && v >= NextCode(lens, l)
    ensures Shr(v, l - b) >= EndCode(lens, b)
    decreases l
  {
    NextFromEnd(lens, l - 1);
    if b == l - 1 {
      assert Shr(v, 1) == v / 2 by { ShrShr(v, 0); }
    } else {
      LongerIsBeyond(lens, b, l - 1, v / 2);
    }
  }

  /** No codeword is a prefix of another one. */
  lemma PrefixFree(lens: seq<nat>, m: nat, n: nat)
    requires m < |lens| && n < |lens| && 0 < lens[m] <= lens[n] && m != n
    ensures Shr(Code(lens, n), lens[n] - lens[m]) != Code(lens, m)
  {
    CodeRange(lens, m);
    CodeRange(lens, n);
    if lens[m] < lens[n] {
      LongerIsBeyond(lens, lens[m], lens[n], Code(lens, n));
    } else if Code(lens, m) == Code(lens, n) {
      CodeInjective(lens, m, n);
    }
  }

  // ----- The reference decoder reads codewords -----

  lemma {:induction false} MsbHead(v: nat, k: nat)
    requires k > 0
    ensures MsbBits(v, k) == [Shr(v, k - 1) % 2 == 1] + MsbBits(v, k - 1)
  {
    if k == 1 {
      assert MsbBits(v / 2, 0) == [];
    } else {
      MsbHead(v / 2, k - 1);
    }
  }

  lemma {:induction false} FindCodeMisses(lens: seq<nat>, len: nat, code: nat, n: nat)
    requires n <= |lens|
    requires forall m :: n <= m < |lens| && lens[m] == len ==> Code(lens, m) != code
    ensures FindCode(lens, len, code, n) == None
    decreases |lens| - n
  {
    if n < |lens| { FindCodeMisses(lens, len, code, n + 1); }
  }

  lemma {:induction false} FindCodeHits(lens: seq<nat>, n: nat, from: nat)
    requires from <= n < |lens|
    ensures FindCode(lens, lens[n], Code(lens, n), from) == Some(n)
    decreases n - from
  {
    if lens[from] == lens[n] && Code(lens, from) == Code(lens, n) {
      CodeInjective(lens, from, n);
    } else {
      FindCodeHits(lens, n, from + 1);
    }
  }

  /** After reading the first `b` bits of a codeword the decoder still waits for the rest. */
  lemma {:induction false} DecodePartial(lens: seq<nat>, n: nat, b: nat, rest: seq<bool>)
    requires n < |lens| && b <= lens[n] <= MAX_BITS && lens[n] > 0
    ensures DecodeFrom(lens, MsbBits(Code(lens, n), lens[n] - b) + rest, b, Shr(Code(lens, n), lens[n] - b)) == Some((n, rest))
    decreases lens[n] - b
  {
    var l, c := lens[n], Code(lens, n);
    if b == l {
      FindCodeHits(lens, n, 0);
      assert MsbBits(c, 0) + rest == rest;
    } else {
      var v := Shr(c, l - b);
      forall m | 0 <= m < |lens| && lens[m] == b && b > 0
        ensures Code(lens, m) != v
      {
        PrefixFree(lens, m, n);
      }
      if b > 0 { FindCodeMisses(lens, b, v, 0); }
      MsbHead(c, l - b);
      ShrShr(c, l - b - 1);
      var bits := MsbBits(c, l - b) + rest;
      assert bits[1..] == MsbBits(c, l - b - 1) + rest;
      DecodePartial(lens, n, b + 1, rest);
    }
  }

  lemma {:induction false} ShrAll(v: nat, k: nat)
    requires v < Pow2(k)
    ensures Shr(v, k) == 0
  {
    if k > 0 { ShrAll(v / 2, k - 1); }
  }

  /** Main result of this module: the reference decoder reads every codeword back. */
  lemma DecodeCodeword(lens: seq<nat>, n: nat, rest: seq<bool>)
    requires n < |lens| && 0 < lens[n] <= MAX_BITS
    requires LensWithin(lens, MAX_BITS) && Kraft(lens, MAX_BITS) <= Pow2(MAX_BITS)
    ensures DecodeSymbol(lens, Codeword(lens, n) + rest) == Some((n, rest))
  {
    CodeFits(lens, n, MAX_BITS);
    ShrAll(Code(lens, n), lens[n]);
    DecodePartial(lens, n, 0, rest);
  }
}
