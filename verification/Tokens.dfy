/** LZ77 tokens, their expansion, their coding, and the number of bits they take. */
module Tokens {
  import opened Bits
  import opened Copying
  import opened Rfc1951
  import opened CodeTables
  import opened BitLengths
  import opened BuildTree
  import opened RunLengths
  import opened TreeHeader

  const LITERALS: nat := 256
  const END_BLOCK: nat := 256
  const L_CODES: nat := 286

  datatype Token = Literal(b: byte) | Match(len: nat, dist: nat) {
    predicate Valid() {
      Match? ==> MIN_MATCH <= len <= MAX_MATCH && 1 <= dist <= 32768
    }
  }

  ghost predicate AllValid(ts: seq<Token>) {
    forall i :: 0 <= i < |ts| ==> ts[i].Valid()
  }

  /** Tokens whose matches reach back into what has been produced. */
  ghost predicate Expandable(n: nat, ts: seq<Token>)
    decreases |ts|
  {
    ts == [] || (ts[0].Valid() && (ts[0].Match? ==> ts[0].dist <= n) && Expandable(n + Size(ts[0]), ts[1..]))
  }

  /** Number of bytes a token stands for. */
  function Size(t: Token): nat {
    if t.Literal? then 1 else t.len
  }

  ghost function ExpandOne(out: seq<byte>, t: Token): (r: seq<byte>)
    requires t.Valid() && (t.Match? ==> t.dist <= |out|)
    ensures |r| == |out| + Size(t)
  {
    if t.Literal? then out + [t.b] else CopyMatch(out, t.dist, t.len)
  }

  ghost function Expand(out: seq<byte>, ts: seq<Token>): seq<byte>
    requires Expandable(|out|, ts)
    decreases |ts|
  {
    if ts == [] then out else Expand(ExpandOne(out, ts[0]), ts[1..])
  }

  // ----- Symbols -----

  function LSym(t: Token): (s: nat)
    requires t.Valid()
    ensures s < L_CODES
  {
    if t.Literal? then t.b else LITERALS + 1 + LengthCodeOf(t.len)
  }

  function DSym(t: Token): (s: nat)
    requires t.Valid() && t.Match?
    ensures s < D_CODES
  {
    DistCodeOf(t.dist)
  }

  /** The codes have codewords for the symbols of a token. */
  ghost predicate Codable(l: seq<nat>, d: seq<nat>, t: Token) {
    t.Valid() && LSym(t) < |l| && l[LSym(t)] > 0 && (t.Match? ==> DSym(t) < |d| && d[DSym(t)] > 0)
  }

  ghost predicate AllCodable(l: seq<nat>, d: seq<nat>, ts: seq<Token>) {
    forall i :: 0 <= i < |ts| ==> Codable(l, d, ts[i])
  }

  // ----- Coding -----

  function MatchBits(l: seq<nat>, d: seq<nat>, len: nat, dist: nat): seq<bool>
    requires Match(len, dist).Valid() && LSym(Match(len, dist)) < |l| && DSym(Match(len, dist)) < |d|
  {
    LengthCodeFits(len);
    DistCodeFits(dist);
    var lc, dc := LengthCodeOf(len), DistCodeOf(dist);
    Codeword(l, LITERALS + 1 + lc) + (BitsOf(len - LBase(lc), LExtra(lc)) + (Codeword(d, dc) + BitsOf(dist - DBase(dc), DExtra(dc))))
  }

  lemma LengthCodeFits(len: nat)
    requires 3 <= len <= 258
    ensures var c := LengthCodeOf(len); LBase(c) <= len < LBase(c) + Pow2(LExtra(c))
  {
    LengthCodeRange(len, 28);
  }

  lemma DistCodeFits(dist: nat)
    requires 1 <= dist <= 32768
    ensures var c := DistCodeOf(dist); DBase(c) <= dist < DBase(c) + Pow2(DExtra(c))
  {
    DistCodeRange(dist, 29);
  }

  function EncodeToken(l: seq<nat>, d: seq<nat>, t: Token): seq<bool>
    requires t.Valid() && LSym(t) < |l| && (t.Match? ==> DSym(t) < |d|)
  {
    if t.Literal? then Codeword(l, t.b) else MatchBits(l, d, t.len, t.dist)
  }

  function EncodeTokens(l: seq<nat>, d: seq<nat>, ts: seq<Token>): seq<bool>
    requires AllCodable(l, d, ts)
  {
    if ts == [] then [] else
      assert Codable(l, d, ts[0]);
      EncodeToken(l, d, ts[0]) + EncodeTokens(l, d, ts[1..])
  }

  /** The data of a compressed block: all tokens and the end-of-block symbol. */
  function BlockData(l: seq<nat>, d: seq<nat>, ts: seq<Token>): seq<bool>
    requires AllCodable(l, d, ts) && END_BLOCK < |l|
  {
    EncodeTokens(l, d, ts) + Codeword(l, END_BLOCK)
  }

  lemma MatchDecodes(l: seq<nat>, d: seq<nat>, t: Token, rest: seq<bool>, out: seq<byte>)
    requires Complete(l) && Complete(d) && t.Match? && Codable(l, d, t) && t.dist <= |out|
    ensures DecodeSymbol(l, EncodeToken(l, d, t) + rest).Some?
    ensures DecodeSymbol(l, EncodeToken(l, d, t) + rest).value.0 == LSym(t)
    ensures InflateMatch(LSym(t), d, DecodeSymbol(l, EncodeToken(l, d, t) + rest).value.1, out) == Some((ExpandOne(out, t), rest))
  {
    hide Codeword, DecodeSymbol, Complete, BitsOf, InflateMatch, LengthCodeOf, DistCodeOf, CopyMatch, Pow2, LBase, LExtra, DBase, DExtra;
    LengthCodeFits(t.len);
    DistCodeFits(t.dist);
    var lc, dc := LengthCodeOf(t.len), DistCodeOf(t.dist);
    var x, y, z := BitsOf(t.len - LBase(lc), LExtra(lc)), Codeword(d, dc), BitsOf(t.dist - DBase(dc), DExtra(dc));
    assert EncodeToken(l, d, t) + rest == Codeword(l, LITERALS + 1 + lc) + (x + (y + (z + rest)));
    DecodeComplete(l, LITERALS + 1 + lc, x + (y + (z + rest)));
    MatchRestDecodes(d, t.len, t.dist, lc, dc, rest, out);
  }

  /** What follows the length symbol of a match. */
  lemma MatchRestDecodes(d: seq<nat>, len: nat, dist: nat, lc: nat, dc: nat, rest: seq<bool>, out: seq<byte>)
    requires Complete(d) && dc < |d| && d[dc] > 0 && 1 <= dist <= |out| && lc < LENGTH_CODES && dc < D_CODES
    requires LBase(lc) <= len < LBase(lc) + Pow2(LExtra(lc)) && DBase(dc) <= dist < DBase(dc) + Pow2(DExtra(dc))
    ensures var x, y, z := BitsOf(len - LBase(lc), LExtra(lc)), Codeword(d, dc), BitsOf(dist - DBase(dc), DExtra(dc));
            InflateMatch(LITERALS + 1 + lc, d, x + (y + (z + rest)), out) == Some((CopyMatch(out, dist, len), rest))
  {
    hide Codeword, DecodeSymbol, Complete, BitsOf, ReadBits, CopyMatch, Pow2;
    var z := BitsOf(dist - DBase(dc), DExtra(dc)) + rest;
    ExtrasAgree();
    ReadBack(len - LBase(lc), LExtra(lc), Codeword(d, dc) + z);
    DecodeComplete(d, dc, z);
    ReadBack(dist - DBase(dc), DExtra(dc), rest);
  }

  /** Main result: the reference decoder turns the coded tokens into their expansion. */
  lemma {:induction false} BlockDecodes(l: seq<nat>, d: seq<nat>, ts: seq<Token>, rest: seq<bool>, out: seq<byte>)
    requires Complete(l) && Complete(d) && AllCodable(l, d, ts) && Expandable(|out|, ts)
    requires END_BLOCK < |l| && l[END_BLOCK] > 0
    ensures InflateCodes(l, d, BlockData(l, d, ts) + rest, out) == Some((Expand(out, ts), rest))
    decreases |ts|
  {
    hide Codeword, DecodeSymbol, Complete, EncodeToken, InflateMatch, LengthCodeOf, DistCodeOf, CopyMatch;
    if ts == [] {
      assert BlockData(l, d, ts) + rest == Codeword(l, END_BLOCK) + rest;
      DecodeComplete(l, END_BLOCK, rest);
    } else {
      var t, tail := ts[0], BlockData(l, d, ts[1..]) + rest;
      assert Codable(l, d, t);
      assert BlockData(l, d, ts) + rest == EncodeToken(l, d, t) + tail;
      var out' := ExpandOne(out, t);
      if t.Literal? {
        LiteralDecodes(l, d, t, tail);
      } else {
        MatchDecodes(l, d, t, tail, out);
      }
      BlockDecodes(l, d, ts[1..], rest, out');
    }
  }

  lemma LiteralDecodes(l: seq<nat>, d: seq<nat>, t: Token, rest: seq<bool>)
    requires Complete(l) && t.Literal? && Codable(l, d, t)
    ensures DecodeSymbol(l, EncodeToken(l, d, t) + rest) == Some((t.b as nat, rest))
  {
    hide Codeword, DecodeSymbol, Complete;
    DecodeComplete(l, t.b, rest);
  }

  // ----- Appending tokens -----

  function TotalSize(ts: seq<Token>): nat {
    if ts == [] then 0 else Size(ts[0]) + TotalSize(ts[1..])
  }

  lemma {:induction false} ExpandSize(out: seq<byte>, ts: seq<Token>)
    requires Expandable(|out|, ts)
    ensures |Expand(out, ts)| == |out| + TotalSize(ts)
    decreases |ts|
  {
    if ts != [] { ExpandSize(ExpandOne(out, ts[0]), ts[1..]); }
  }

  lemma {:induction false} ExpandAppend(out: seq<byte>, a: seq<Token>, b: seq<Token>)
    requires Expandable(|out|, a) && Expandable(|Expand(out, a)|, b)
    ensures Expandable(|out|, a + b) && Expand(out, a + b) == Expand(Expand(out, a), b)
    decreases |a|
  {
    if a == [] {
      assert a + b == b;
    } else {
      assert (a + b)[1..] == a[1..] + b;
      ExpandAppend(ExpandOne(out, a[0]), a[1..], b);
    }
  }

  /** One more token. */
  lemma ExpandSnoc(out: seq<byte>, ts: seq<Token>, t: Token)
    requires Expandable(|out|, ts) && t.Valid() && (t.Match? ==> t.dist <= |Expand(out, ts)|)
    ensures Expandable(|out|, ts + [t]) && Expand(out, ts + [t]) == ExpandOne(Expand(out, ts), t)
  {
    var mid := Expand(out, ts);
    assert [t][1..] == [];
    assert Expandable(|mid| + Size(t), []);
    assert Expandable(|mid|, [t]);
    assert Expand(mid, [t]) == Expand(ExpandOne(mid, t), []);
    ExpandAppend(out, ts, [t]);
  }

  // ----- Frequencies and costs -----

  function Zeros(n: nat): (r: seq<nat>)
    ensures |r| == n
  {
    seq(n, _ => 0)
  }

  function Bump(f: seq<nat>, s: nat): (r: seq<nat>)
    requires s < |f|
    ensures |r| == |f|
  {
    f[s := f[s] + 1]
  }

  /** Literal and length symbol counts, with one end-of-block symbol. */
  ghost function LFreqs(ts: seq<Token>): (r: seq<nat>)
    requires AllValid(ts)
    ensures |r| == L_CODES
  {
    if ts == [] then Bump(Zeros(L_CODES), END_BLOCK)
    else Bump(LFreqs(ts[..|ts| - 1]), LSym(ts[|ts| - 1]))
  }

  ghost function DFreqs(ts: seq<Token>): (r: seq<nat>)
    requires AllValid(ts)
    ensures |r| == D_CODES
  {
    if ts == [] then Zeros(D_CODES)
    else
      var t, f := ts[|ts| - 1], DFreqs(ts[..|ts| - 1]);
      if t.Match? then Bump(f, DSym(t)) else f
  }

  lemma {:induction false} WeightedBump(f: seq<nat>, c: seq<nat>, s: nat)
    requires |f| == |c| && s < |f|
    ensures Weighted(Bump(f, s), c) == Weighted(f, c) + c[s]
  {
    var n := |f| - 1;
    var g := Bump(f, s);
    if s == n {
      assert g[..n] == f[..n];
      OneMoreBill(f[n], c[n]);
    } else {
      assert g[..n] == Bump(f[..n], s);
      WeightedBump(f[..n], c[..n], s);
    }
  }

  lemma OneMoreBill(f: nat, b: nat)
    ensures Bill(f + 1, b) == Bill(f, b) + b
  {
  }

  lemma {:induction false} WeightedZeros(n: nat, c: seq<nat>)
    requires |c| == n
    ensures Weighted(Zeros(n), c) == 0
  {
    if n > 0 {
      assert Zeros(n)[..n - 1] == Zeros(n - 1);
      WeightedZeros(n - 1, c[..n - 1]);
    }
  }

  lemma {:induction false} TotalBump(f: seq<nat>, s: nat)
    requires s < |f|
    ensures Total(Bump(f, s)) == Total(f) + 1
  {
    var n := |f| - 1;
    if s == n {
      assert Bump(f, s)[..n] == f[..n];
    } else {
      assert Bump(f, s)[..n] == Bump(f[..n], s);
      TotalBump(f[..n], s);
    }
  }

  lemma {:induction false} TotalZeros(n: nat)
    ensures Total(Zeros(n)) == 0
  {
    if n > 0 {
      assert Zeros(n)[..n - 1] == Zeros(n - 1);
      TotalZeros(n - 1);
    }
  }

  lemma {:induction false} FreqTotals(ts: seq<Token>)
    requires AllValid(ts)
    ensures Total(LFreqs(ts)) == |ts| + 1 && Total(DFreqs(ts)) <= |ts|
  {
    hide Total;
    if ts == [] {
      TotalZeros(L_CODES);
      TotalZeros(D_CODES);
      TotalBump(Zeros(L_CODES), END_BLOCK);
    } else {
      var n := |ts| - 1;
      FreqTotals(ts[..n]);
      TotalBump(LFreqs(ts[..n]), LSym(ts[n]));
      if ts[n].Match? { TotalBump(DFreqs(ts[..n]), DSym(ts[n])); }
    }
  }

  // ----- The three tree descriptions -----

  const L_DESC: TreeDesc := TreeDesc(FIXED_LLENS, EXTRA_LBITS, LITERALS + 1, L_CODES, MAX_BITS)
  const D_DESC: TreeDesc := TreeDesc(FIXED_DLENS, EXTRA_DBITS, 0, D_CODES, MAX_BITS)
  const BL_DESC: TreeDesc := TreeDesc([], EXTRA_BLBITS, 0, 19, 7)

  lemma DescsValid()
    ensures L_DESC.Valid() && D_DESC.Valid() && BL_DESC.Valid()
  {
    FixedComplete();
  }

  function LCosts(l: seq<nat>): (r: seq<nat>)
    ensures |r| == L_CODES
  {
    CodeCosts(L_DESC, l)
  }

  function DCosts(d: seq<nat>): (r: seq<nat>)
    ensures |r| == D_CODES
  {
    CodeCosts(D_DESC, d)
  }

  lemma LCostAt(l: seq<nat>, s: nat)
    requires s < L_CODES && s < |l|
    ensures LCosts(l)[s] == l[s] + if s > 256 then LExtra(s - 257) else 0
  {
  }

  lemma DCostAt(d: seq<nat>, s: nat)
    requires s < D_CODES && s < |d|
    ensures DCosts(d)[s] == d[s] + DExtra(s)
  {
  }

  lemma TokenCost(l: seq<nat>, d: seq<nat>, t: Token)
    requires Codable(l, d, t)
    ensures |EncodeToken(l, d, t)| == LCosts(l)[LSym(t)] + if t.Match? then DCosts(d)[DSym(t)] else 0
  {
    hide Codeword, BitsOf, LengthCodeOf, DistCodeOf, LCosts, DCosts;
    LCostAt(l, LSym(t));
    if t.Match? { DCostAt(d, DSym(t)); }
  }

  lemma {:induction false} EncodeTokensSnoc(l: seq<nat>, d: seq<nat>, ts: seq<Token>, t: Token)
    requires AllCodable(l, d, ts) && Codable(l, d, t)
    ensures AllCodable(l, d, ts + [t]) && EncodeTokens(l, d, ts + [t]) == EncodeTokens(l, d, ts) + EncodeToken(l, d, t)
  {
    hide EncodeToken, Codable;
    assert AllCodable(l, d, ts + [t]);
    if ts == [] {
      assert ts + [t] == [t] && [t][1..] == [];
      assert EncodeTokens(l, d, []) == [];
    } else {
      assert (ts + [t])[1..] == ts[1..] + [t];
      EncodeTokensSnoc(l, d, ts[1..], t);
    }
  }

  /** Exact cost of the block data: the weighted sum over the symbol frequencies. */
  lemma {:induction false} BlockCost(l: seq<nat>, d: seq<nat>, ts: seq<Token>)
    requires AllCodable(l, d, ts) && AllValid(ts) && END_BLOCK < |l|
    ensures |BlockData(l, d, ts)| == Weighted(LFreqs(ts), LCosts(l)) + Weighted(DFreqs(ts), DCosts(d))
    decreases |ts|
  {
    hide EncodeToken, Codeword, Weighted, LCosts, DCosts;
    if ts == [] {
      WeightedZeros(L_CODES, LCosts(l));
      WeightedBump(Zeros(L_CODES), LCosts(l), END_BLOCK);
      WeightedZeros(D_CODES, DCosts(d));
      LCostAt(l, END_BLOCK);
    } else {
      var n := |ts| - 1;
      var init, t := ts[..n], ts[n];
      assert Codable(l, d, t);
      BlockCost(l, d, init);
      assert ts == init + [t];
      EncodeTokensSnoc(l, d, init, t);
      TokenCost(l, d, t);
      WeightedBump(LFreqs(init), LCosts(l), LSym(t));
      if t.Match? { WeightedBump(DFreqs(init), DCosts(d), DSym(t)); }
    }
  }

  /** A static block never takes more than 31 bits per token. */
  lemma {:induction false} StaticBound(ts: seq<Token>)
    requires AllCodable(FIXED_LLENS, FIXED_DLENS, ts)
    ensures |EncodeTokens(FIXED_LLENS, FIXED_DLENS, ts)| <= 31 * |ts|
  {
    hide EncodeToken;
    if ts != [] {
      assert Codable(FIXED_LLENS, FIXED_DLENS, ts[0]);
      StaticToken(ts[0]);
      StaticBound(ts[1..]);
    }
  }

  lemma StaticToken(t: Token)
    requires Codable(FIXED_LLENS, FIXED_DLENS, t)
    ensures |EncodeToken(FIXED_LLENS, FIXED_DLENS, t)| <= 31
  {
    hide LCosts, DCosts, EncodeToken;
    TokenCost(FIXED_LLENS, FIXED_DLENS, t);
    LCostAt(FIXED_LLENS, LSym(t));
    FixedLen(LSym(t));
    if t.Match? { DCostAt(FIXED_DLENS, DSym(t)); }
  }

  /** Every valid token has static codewords. */
  lemma StaticCodable(ts: seq<Token>)
    requires AllValid(ts)
    ensures AllCodable(FIXED_LLENS, FIXED_DLENS, ts) && FIXED_LLENS[END_BLOCK] > 0
  {
    FixedComplete();
    forall i | 0 <= i < |ts| ensures Codable(FIXED_LLENS, FIXED_DLENS, ts[i]) {
      FixedLen(LSym(ts[i]));
    }
    FixedLen(END_BLOCK);
  }
}
