/** What it means for tokens and blocks to stand for a prefix of the input. */
module Lz77 {
  import opened Bits
  import opened Copying
  import opened Tokens
  import opened BlockCoding
  import opened Matching

  /** The `len` bytes at p repeat those `dist` bytes before. */
  ghost predicate MatchAt(data: seq<byte>, p: nat, dist: nat, len: nat) {
    1 <= dist <= p && p + len <= |data| && data[p..p + len] == data[p - dist..p - dist + len]
  }

  /** Copying a match, byte by byte even if it overlaps itself, goes on with the input. */
  lemma {:induction false} CopyIs(data: seq<byte>, p: nat, dist: nat, len: nat)
    requires MatchAt(data, p, dist, len)
    ensures CopyMatch(data[..p], dist, len) == data[..p + len]
    decreases len
  {
    if len > 0 {
      var out := data[..p];
      assert out[|out| - dist] == data[p - dist..p - dist + len][0] == data[p..p + len][0] == data[p];
      assert out + [data[p]] == data[..p + 1];
      MatchTail(data, p, dist, len);
      CopyIs(data, p + 1, dist, len - 1);
    }
  }

  lemma MatchTail(data: seq<byte>, p: nat, dist: nat, len: nat)
    requires MatchAt(data, p, dist, len) && len > 0
    ensures MatchAt(data, p + 1, dist, len - 1)
  {
    assert data[p + 1..p + len] == data[p..p + len][1..];
    assert data[p + 1 - dist..p - dist + len] == data[p - dist..p - dist + len][1..];
  }

  lemma MatchGrows(data: seq<byte>, data': seq<byte>, p: nat, dist: nat, len: nat)
    requires MatchAt(data, p, dist, len) && data <= data'
    ensures MatchAt(data', p, dist, len)
  {
    assert data'[p..p + len] == data[p..p + len];
    assert data'[p - dist..p - dist + len] == data[p - dist..p - dist + len];
  }

  /** A match in the window is a match in the input. */
  lemma WindowMatch(w: seq<byte>, data: seq<byte>, base: nat, end: nat, m: nat, s: nat, n: nat)
    requires GoodMatch(w, m, s, n) && s + n <= end <= |w| && base + end == |data| && w[..end] == data[base..]
    ensures MatchAt(data, base + s, s - m, n)
  {
    SlotsHeld(w, data, base, end, s, n);
    SlotsHeld(w, data, base, end, m, n);
  }

  lemma SlotsHeld(w: seq<byte>, data: seq<byte>, base: nat, end: nat, s: nat, n: nat)
    requires s + n <= end <= |w| && base + end == |data| && w[..end] == data[base..]
    ensures data[base + s..base + s + n] == w[s..s + n]
  {
    assert data[base + s..base + s + n] == data[base..][s..s + n];
    assert w[s..s + n] == w[..end][s..s + n];
  }

  // ----- The blocks sent and the tokens waiting -----

  /** The blocks sent produce data[..from], and the tokens waiting bring it to data[..done]. */
  ghost predicate Coded(start: nat, bits: seq<bool>, data: seq<byte>, from: int, ts: seq<Token>, done: nat) {
    && 0 <= from <= done <= |data| && Carries(start, bits, data[..from])
    && Expandable(from, ts) && Expand(data[..from], ts) == data[..done]
  }

  lemma CodedStart(start: nat, data: seq<byte>)
    ensures Coded(start, [], data, 0, [], 0)
  {
    CarriesNone(start);
    assert data[..0] == [];
  }

  lemma CodedGrows(start: nat, bits: seq<bool>, data: seq<byte>, from: int, ts: seq<Token>, done: nat, data': seq<byte>)
    requires Coded(start, bits, data, from, ts, done) && data <= data'
    ensures Coded(start, bits, data', from, ts, done)
  {
    assert data'[..from] == data[..from] && data'[..done] == data[..done];
  }

  lemma CodedLiteral(start: nat, bits: seq<bool>, data: seq<byte>, from: int, ts: seq<Token>, done: nat)
    requires Coded(start, bits, data, from, ts, done) && done < |data|
    ensures Coded(start, bits, data, from, ts + [Literal(data[done])], done + 1)
  {
    hide Carries, Expandable, Expand;
    ExpandSnoc(data[..from], ts, Literal(data[done]));
    assert data[..done] + [data[done]] == data[..done + 1];
  }

  lemma CodedMatch(start: nat, bits: seq<bool>, data: seq<byte>, from: int, ts: seq<Token>, done: nat, dist: nat, len: nat)
    requires Coded(start, bits, data, from, ts, done) && MatchAt(data, done, dist, len) && Match(len, dist).Valid()
    ensures Coded(start, bits, data, from, ts + [Match(len, dist)], done + len)
  {
    hide Carries, Expandable, Expand;
    ExpandSnoc(data[..from], ts, Match(len, dist));
    CopyIs(data, done, dist, len);
  }

  lemma CodedFlush(start: nat, bits: seq<bool>, data: seq<byte>, from: int, ts: seq<Token>, done: nat, block: seq<bool>)
    requires Coded(start, bits, data, from, ts, done)
    requires BlockMeans(block, start + |bits|, data[..from], Expand(data[..from], ts), false)
    ensures Coded(start, bits + block, data, done, [], done)
  {
    hide Carries, BlockMeans;
    CarriesMore(start, bits, data[..from], block, data[..done]);
  }

  /** The block length that is passed on is the number of bytes the tokens stand for, and it is
      far below the range of a 32-bit word. */
  lemma CodedSpan(start: nat, bits: seq<bool>, data: seq<byte>, from: int, ts: seq<Token>, done: nat)
    requires Coded(start, bits, data, from, ts, done)
    ensures done - from == TotalSize(ts) <= MAX_MATCH * |ts|
  {
    hide Carries, Expand;
    ExpandSize(data[..from], ts);
    SizeBound(from, ts);
  }

  lemma {:induction false} SizeBound(n: nat, ts: seq<Token>)
    requires Expandable(n, ts)
    ensures TotalSize(ts) <= MAX_MATCH * |ts|
    decreases |ts|
  {
    if ts != [] { SizeBound(n + Size(ts[0]), ts[1..]); }
  }

  /** A match that was found for the byte before the current position and is not yet decided on. */
  ghost predicate Pending(data: seq<byte>, pos: nat, available: bool, len: nat, back: nat) {
    && 1 <= len <= MAX_MATCH
    && (len >= MIN_MATCH ==> available && pos >= 1 && back <= MAX_DIST && MatchAt(data, pos - 1, back, len))
  }

  lemma PendingGrows(data: seq<byte>, data': seq<byte>, pos: nat, available: bool, len: nat, back: nat)
    requires Pending(data, pos, available, len, back) && data <= data'
    ensures Pending(data', pos, available, len, back)
  {
    if len >= MIN_MATCH { MatchGrows(data, data', pos - 1, back, len); }
  }
}
