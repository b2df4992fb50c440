/** The compressor: lazy evaluation of matches over a sliding window (`deflate`). */
module Deflating {
  import opened Bits
  import opened BitWriting
  import opened Rfc1951
  import opened Tokens
  import opened TokenBuffers
  import opened BlockCoding
  import opened Blocks
  import opened Readers
  import opened Matching
  import opened Windows
  import opened Lz77

  const TOO_FAR: nat := 4096

  class Deflater {
    const coder: BlockCoder
    const win: SlidingWindow
    const cfg: Config
    var prevLength: nat
    var matchLength: nat
    var matchAvailable: bool
    /** What had been sent before the first block, and the blocks sent since. */
    ghost const prefix: seq<bool>
    ghost var bits: seq<bool>
    /** All tokens made so far, in all blocks. */
    ghost var made: seq<Token>

    ghost function WinRepr(): set<object> {
      {win, win.window, win.prev, win.head, win.reader}
    }

    ghost predicate Apart() {
      && coder.w in coder.repr && coder.w.outbuf in coder.repr && coder.tb in coder.repr && win.Shape() && cfg.Valid() && this !in coder.repr && this !in WinRepr() && coder.repr !! WinRepr()
    }

    /** The input position up to which tokens have been made. */
    ghost function Done(): int
      reads this, win
    {
      win.Pos() - if matchAvailable then 1 else 0
    }

    ghost predicate CoderOk()
      reads this`bits, coder.repr
    {
      coder.Valid() && coder.w.Sent() == prefix + bits
    }

    /** The blocks sent and the tokens waiting stand for the input up to `done`. */
    ghost predicate Sending(done: int)
      reads this, win, win.reader, coder.repr
    {
      && CoderOk() && done >= 0
      && Coded(|prefix|, bits, win.reader.delivered, win.base + win.blockStart, coder.tb.tokens, done)
    }

    /** There is room for one more token. */
    ghost predicate Room()
      reads coder.tb
    {
      |coder.tb.tokens| + 1 < LIT_BUFSIZE
    }

    ghost predicate Looking(input: seq<byte>)
      reads win, win.window, win.prev, win.head, win.reader
    {
      && win.Held() && win.Linked() && win.Fed(input) && (win.lookahead > 0 ==> win.HashReady(win.strstart))
    }

    ghost predicate Waiting()
      reads this, win, win.reader
    {
      && (matchAvailable ==> win.strstart >= 1)
      && Pending(win.reader.delivered, win.Pos(), matchAvailable, matchLength, Back(win.strstart, win.matchStart))
    }

    constructor (coder: BlockCoder, win: SlidingWindow, cfg: Config)
      requires coder.Valid() && coder.tb.tokens == [] && win.Shape() && cfg.Valid()
      requires coder.repr !! {win, win.window, win.prev, win.head, win.reader}
      requires win.base == win.blockStart == 0
      ensures this.coder == coder && this.win == win && Apart() && prefix == coder.w.Sent() && bits == []
      ensures Sending(0) && Room() && !matchAvailable && matchLength == MIN_MATCH - 1
    {
      this.coder, this.win, this.cfg := coder, win, cfg;
      prevLength, matchLength, matchAvailable := 0, MIN_MATCH - 1, false;
      prefix, bits, made := coder.w.Sent(), [], [];
      new;
      assert coder.w.Sent() == prefix + [];
      CodedStart(|prefix|, win.reader.delivered);
    }

    // ----- Making tokens -----

    /** Tallies a literal (dist zero) or a match for the input at `done`. */
    method Tally(dist: nat, lc: byte, ghost done: nat) returns (flush: bool)
      requires Apart() && Sending(done) && Room() && dist <= MAX_DIST
      requires dist == 0 ==> done < |win.reader.delivered| && win.reader.delivered[done] == lc
      requires dist > 0 ==> MatchAt(win.reader.delivered, done, dist, lc + MIN_MATCH)
      modifies coder.repr, this`made
      ensures Sending(done + if dist == 0 then 1 else lc + MIN_MATCH) && (!flush ==> Room())
      ensures coder.tb.tokens == old(coder.tb.tokens) + [if dist == 0 then Literal(lc) else Match(lc + MIN_MATCH, dist)]
      ensures made == old(made) + [if dist == 0 then Literal(lc) else Match(lc + MIN_MATCH, dist)]
    {
      hide BlockCoder.Valid, Coded, EndsBlock, MatchAt;
      ghost var ts, data, from := coder.tb.tokens, win.reader.delivered, win.base + win.blockStart;
      if dist == 0 {
        CodedLiteral(|prefix|, bits, data, from, ts, done);
      } else {
        CodedMatch(|prefix|, bits, data, from, ts, done, dist, lc + MIN_MATCH);
      }
      flush := coder.CtTally(dist, lc, Wrap32(win.strstart - win.blockStart));
      made := made + [if dist == 0 then Literal(lc) else Match(lc + MIN_MATCH, dist)];
    }

    /** `FLUSH_BLOCK`: the tokens stand for the input up to strstart. */
    method FlushBlock(final: bool) returns (ghost block: seq<bool>)
      requires Apart() && win.Held() && Sending(win.Pos()) && |coder.tb.tokens| < LIT_BUFSIZE
      modifies coder.repr, this`bits
      ensures coder.Valid() && coder.tb.tokens == [] && bits == old(bits) + block
      ensures coder.w.Sent() == prefix + bits + if final then Padding(|prefix + bits|) else []
      ensures !final ==> Coded(|prefix|, bits, win.reader.delivered, win.Pos(), [], win.Pos())
      ensures final ==> coder.w.biValid == 0 && forall rest: seq<bool> :: Inflate(bits + rest, |prefix|, []) == Some((win.reader.delivered[..win.Pos()], rest))
    {
      hide BlockCoder.Valid, BlockMeans, Carries, Inflate, ChosenBits, PlanOk, Expand, Expandable, Padding, BitWriter.Sent, BlockCoder.Owns, BlockCoder.Apart;
      ghost var ts, data, from, done := coder.tb.tokens, win.reader.delivered, win.base + win.blockStart, win.Pos();
      CodedSpan(|prefix|, bits, data, from, ts, done);
      var storedLen := Wrap32(win.strstart - win.blockStart);
      assert storedLen == win.strstart - win.blockStart;
      var hasBuf := win.blockStart >= 0;
      if hasBuf {
        BlockBytes(win.window[..], data, win.base, win.blockStart, win.strstart, win.strstart + win.lookahead);
        assert win.window[win.blockStart..win.strstart] == win.window[..][win.blockStart..win.strstart];
      }
      ghost var plan;
      plan, block := coder.FlushBlock(win.window, if hasBuf then win.blockStart else 0, hasBuf, storedLen, final, data[..from]);
      ghost var bits0 := bits;
      bits := bits0 + block;
      assert prefix + bits0 + block == prefix + bits;
      if final {
        forall rest: seq<bool> ensures Inflate(bits + rest, |prefix|, []) == Some((data[..done], rest)) {
          CarriesEnd(|prefix|, bits0, data[..from], block, data[..done], rest);
        }
      } else {
        CodedFlush(|prefix|, bits0, data, from, ts, done, block);
        assert prefix + bits + [] == prefix + bits;
      }
    }

    /** Ends the block if asked to. */
    method FlushIf(flush: bool)
      requires Apart() && win.Held() && Sending(win.Pos()) && |coder.tb.tokens| < LIT_BUFSIZE && (!flush ==> Room())
      modifies coder.repr, this`bits, win`blockStart
      ensures Sending(win.Pos()) && Room() && win.Held() && (old(win.HashReady(win.strstart)) ==> win.HashReady(win.strstart))
    {
      hide BlockCoder.Valid, Coded;
      if flush {
        ghost var _ := FlushBlock(false);
        win.blockStart := win.strstart;
        assert prefix + bits + [] == prefix + bits;
      }
    }

    /** Adopts the match that began one byte before strstart. */
    method TakeMatch(prevMatch: nat)
      requires Apart() && win.Held() && win.LinkedTo(win.strstart + 1) && win.HashReady(win.strstart + 1) && Sending(win.Pos() - 1) && Room()
      requires MIN_MATCH <= prevLength <= MAX_MATCH && Back(win.strstart, prevMatch) <= MAX_DIST
      requires MatchAt(win.reader.delivered, win.Pos() - 1, Back(win.strstart, prevMatch), prevLength)
      modifies coder.repr, this, win`insH, win`strstart, win`lookahead, win`blockStart, win.prev, win.head
      ensures win.Held() && win.Linked() && win.HashReady(win.strstart) && Sending(win.Pos()) && Room()
      ensures !matchAvailable && matchLength == MIN_MATCH - 1
      ensures win.lookahead == old(win.lookahead) - (prevLength - 1) && win.strstart == old(win.strstart) + prevLength - 1
      ensures prevLength == old(prevLength) && made == old(made + [Match(prevLength, Back(win.strstart, prevMatch))])
    {
      hide BlockCoder.Valid, Coded, SlidingWindow.LinkedTo, SlidingWindow.HashReady, SlidingWindow.Held, Back;
      MatchInside(win, Back(win.strstart, prevMatch), prevLength);
      var flush := Tally(Back(win.strstart, prevMatch), prevLength - MIN_MATCH, win.Pos() - 1);
      TokensFit(coder);
      win.Skip(prevLength);
      matchAvailable := false;
      matchLength := MIN_MATCH - 1;
      FlushIf(flush);
    }

    /** Emits the byte before strstart as a literal. */
    method TakeLiteral()
      requires Apart() && win.Held() && win.strstart >= 1 && Sending(win.Pos() - 1) && Room()
      modifies coder.repr, this`bits, this`made, win`blockStart
      ensures Sending(win.Pos()) && Room() && win.Held() && made == old(made + [Literal(win.window[win.strstart - 1])])
    {
      hide BlockCoder.Valid, Coded;
      HeldByte(win.window[..], win.reader.delivered, win.base, win.strstart + win.lookahead, win.strstart - 1);
      var flush := Tally(0, win.window[win.strstart - 1], win.Pos() - 1);
      TokensFit(coder);
      FlushIf(flush);
    }

    // ----- Finding a match -----

    /** Inserts the string at strstart and looks for a match longer than the one before it.  A
        result that is longer is a true match at the position in the input. */
    method FindMatch()
      requires cfg.Valid() && win.Held() && win.Linked() && win.HashReady(win.strstart) && win.lookahead > 0 && 1 <= matchLength <= MAX_MATCH
      requires win.eofile || win.lookahead >= MIN_LOOKAHEAD
      modifies this`prevLength, this`matchLength, win`insH, win`matchStart, win.prev, win.head
      ensures win.Held() && win.LinkedTo(win.strstart + 1) && win.HashReady(win.strstart + 1)
      ensures prevLength == old(matchLength) && NextMatch()
      ensures NotMissed(old(win.head[..]), cfg.maxLazy)
    {
      hide Chained, Rolling, HashAt, MatchAt, Back, Link, Candidate, NoLonger;
      var hashHead := win.Insert();
      LinkCandidate(win.window[..], hashHead, win.strstart);
      prevLength := matchLength;
      matchLength := MIN_MATCH - 1;
      if hashHead != 0 && prevLength < cfg.maxLazy && win.strstart - hashHead <= MAX_DIST {
        var len, start := Search(hashHead);
        matchLength, win.matchStart := len, start;
      }
    }

    /** Searches the chain; the result is cut to the lookahead, and a short match that is too far
        away is dropped. */
    method Search(hashHead: nat) returns (len: nat, start: nat)
      requires cfg.Valid() && win.Held() && win.LinkedTo(win.strstart + 1) && win.lookahead > 0 && 1 <= prevLength <= MAX_MATCH
      requires Candidate(win.window[..], hashHead, win.strstart) && (win.eofile || win.lookahead >= MIN_LOOKAHEAD)
      ensures 1 <= len <= MAX_MATCH
      ensures len >= MIN_MATCH && len > prevLength ==>
                Back(win.strstart + 1, start) <= MAX_DIST && MatchAt(win.reader.delivered, win.Pos(), Back(win.strstart + 1, start), len)
      ensures AtLeastMin(len) >= win.lookahead || NoLonger(win.window[..], hashHead, win.strstart, AtLeastMin(len))
    {
      hide Chained, Found, MatchAt, Wrap32, Back, Candidate, NoLonger;
      ghost var visited;
      len, start, visited := LongestMatch(win.window, win.prev, cfg, hashHead, win.strstart, prevLength, win.matchStart, win.head[..]);
      FoundMatch(win.window[..], win.prev[..], visited, win.reader.delivered, win.base, win.strstart, win.lookahead,
                 prevLength, len, win.matchStart, start);
      HeadBeaten(win.window[..], win.prev[..], visited, win.strstart, prevLength, len, win.matchStart, start, hashHead);
      if len > win.lookahead {
        len := win.lookahead;
      }
      if len == MIN_MATCH && Wrap32(win.strstart - start) > TOO_FAR {
        len := len - 1;
      }
    }

    /** The newest string with the hash of the one at strstart, as the chains stood before, has not
        been passed over: unless it was not looked at because the match before is long enough, or it
        is too far away, it has no match longer than the one found, or than the lookahead; a match of
        MIN_MATCH may have been dropped. */
    ghost predicate NotMissed(head: seq<nat>, maxLazy: nat)
      reads this, win, win.window
    {
      win.Shape() && win.strstart + 2 < win.window.Length &&
      var w, s := win.window[..], win.strstart;
      HashAt(w, s) < |head| &&
      var c := head[HashAt(w, s)];
      c == 0 || prevLength >= maxLazy || s - c > MAX_DIST || AtLeastMin(matchLength) >= win.lookahead
      || NoLonger(w, c, s, AtLeastMin(matchLength))
    }

    // ----- The loop -----

    ghost predicate Inv(input: seq<byte>)
      reads this, WinRepr(), coder.repr
    {
      && Apart() && Looking(input) && Waiting() && Sending(Done()) && Room() && (win.eofile || win.lookahead >= MIN_LOOKAHEAD)
    }

    /** The match found at strstart, as the next step will see it. */
    ghost predicate NextMatch()
      reads this, win, win.reader
    {
      && 1 <= matchLength <= MAX_MATCH
      && (matchLength >= MIN_MATCH && matchLength > prevLength ==>
            var back := Back(win.strstart + 1, win.matchStart);
            back <= MAX_DIST && MatchAt(win.reader.delivered, win.Pos(), back, matchLength))
    }

    /** Adopts the previous match, gives up its first byte as a literal, or waits. */
    method Decide(prevMatch: nat)
      requires Apart() && win.Held() && win.LinkedTo(win.strstart + 1) && win.HashReady(win.strstart + 1) && win.lookahead > 0
      requires Sending(Done()) && Room() && (matchAvailable ==> win.strstart >= 1) && NextMatch()
      requires Pending(win.reader.delivered, win.Pos(), matchAvailable, prevLength, Back(win.strstart, prevMatch))
      modifies coder.repr, this, win`insH, win`strstart, win`lookahead, win`blockStart, win.prev, win.head
      ensures win.Held() && win.Linked() && win.HashReady(win.strstart) && Sending(Done()) && Room() && Waiting()
      ensures win.lookahead >= old(win.lookahead) - MAX_MATCH + 1 && win.Pos() > old(win.Pos())
      ensures made == old(made + if prevLength >= MIN_MATCH && matchLength <= prevLength then [Match(prevLength, Back(win.strstart, prevMatch))]
                                 else if matchAvailable then [Literal(win.window[win.strstart - 1])] else [])
    {
      hide Deflater.CoderOk, Coded, Chained, Rolling, MatchAt, Back;
      if prevLength >= MIN_MATCH && matchLength <= prevLength {
        TakeMatch(prevMatch);
      } else if matchAvailable {
        TakeLiteral();
        win.Advance();
      } else {
        matchAvailable := true;
        win.Advance();
      }
    }

    method Refill(ghost input: seq<byte>)
      requires Apart() && Looking(input) && win.HashReady(win.strstart) && Waiting() && Sending(Done()) && Room()
      requires win.eofile || win.lookahead >= 2
      modifies WinRepr()
      ensures Inv(input) && win.Pos() == old(win.Pos())
    {
      hide Deflater.CoderOk, Coded, Back, Pending,
           SlidingWindow.Held, SlidingWindow.LinkedTo, SlidingWindow.HashReady, SlidingWindow.Fed;
      ghost var data, from, ts, done := win.reader.delivered, win.base + win.blockStart, coder.tb.tokens, Done();
      ghost var pos, back := win.Pos(), Back(win.strstart, win.matchStart);
      win.FillKeepingHash(input);
      assert coder.tb.tokens == ts && CoderOk();
      assert win.base + win.blockStart == from && Done() == done;
      CodedGrows(|prefix|, bits, data, from, ts, done, win.reader.delivered);
      PendingGrows(data, win.reader.delivered, pos, matchAvailable, matchLength, back);
    }

    method Step(ghost input: seq<byte>)
      requires Inv(input) && win.lookahead > 0
      modifies coder.repr, this, WinRepr()
      ensures Inv(input) && win.Pos() > old(win.Pos())
    {
      hide Deflater.CoderOk, Deflater.NextMatch, Deflater.NotMissed, Coded, MatchAt, Back, InputOf, SlidingWindow.LinkedTo, SlidingWindow.HashReady;
      var prevMatch := win.matchStart;
      FindMatch();
      Decide(prevMatch);
      Refill(input);
    }

    /** Main result: whatever pieces the input arrives in, the blocks sent decode to the input.
        The stream is then padded to a byte boundary. */
    method Deflate(ghost input: seq<byte>)
      requires Inv(input)
      modifies coder.repr, this, WinRepr()
      ensures coder.w.Valid() && coder.w.biValid == 0 && coder.w.Sent() == prefix + bits + Padding(|prefix + bits|)
      ensures forall rest: seq<bool> :: Inflate(bits + rest, |prefix|, []) == Some((input, rest))
      ensures win.reader.Valid() && win.reader.delivered == input
    {
      hide Deflater.CoderOk, Coded, MatchAt, Back, Inflate, Padding, SlidingWindow.LinkedTo, SlidingWindow.HashReady;
      while win.lookahead != 0
        invariant Inv(input)
        decreases |input| - win.Pos()
      {
        Step(input);
      }
      EverythingRead(win, input);
      var _ := FinishTokens();
      ghost var _ := FlushBlock(true);
      assert input[..|input|] == input;
      CoderParts(coder);
    }

    method FinishTokens() returns (flush: bool)
      requires Apart() && win.Held() && Sending(Done()) && Room() && (matchAvailable ==> win.strstart >= 1)
      modifies coder.repr, this`made
      ensures Sending(win.Pos()) && win.Held() && |coder.tb.tokens| < LIT_BUFSIZE
    {
      hide Deflater.CoderOk, Coded;
      flush := false;
      if matchAvailable {
        HeldByte(win.window[..], win.reader.delivered, win.base, win.strstart + win.lookahead, win.strstart - 1);
        flush := Tally(0, win.window[win.strstart - 1], win.Pos() - 1);
      }
      CoderTokens();
    }

    lemma CoderTokens()
      requires CoderOk()
      ensures |coder.tb.tokens| < LIT_BUFSIZE
    {
      TokensFit(coder);
    }
  }

  lemma CoderParts(coder: BlockCoder)
    requires coder.Valid()
    ensures coder.w.Valid()
  {
  }

  /** A match lies in what has been read. */
  lemma MatchInside(win: SlidingWindow, back: nat, len: nat)
    requires win.Held() && win.Pos() >= 1 && MatchAt(win.reader.delivered, win.Pos() - 1, back, len)
    ensures len <= win.lookahead + 1
  {
  }

  /** Without lookahead the end of the file has been reached and everything has been delivered. */
  lemma EverythingRead(win: SlidingWindow, input: seq<byte>)
    requires win.Held() && win.Fed(input) && win.eofile && win.lookahead == 0
    ensures win.reader.delivered == input && win.Pos() == |input|
  {
  }

  lemma LinkCandidate(w: seq<byte>, c: nat, s: nat)
    requires s + 2 < |w| && Link(w, c, s, HashAt(w, s))
    ensures c != 0 ==> c < s && (s - c <= MAX_DIST ==> Candidate(w, c, s))
  {
    hide HashAt;
  }

  lemma TokensFit(coder: BlockCoder)
    requires coder.Valid()
    ensures |coder.tb.tokens| < LIT_BUFSIZE
  {
    BufferCounts(coder.tb.State(), coder.tb.tokens);
  }

  /** The bytes of the block are still in the window. */
  lemma BlockBytes(w: seq<byte>, data: seq<byte>, base: nat, blockStart: nat, strstart: nat, end: nat)
    requires blockStart <= strstart <= end <= |w| && base + end == |data| && w[..end] == data[base..]
    ensures data[..base + strstart] == data[..base + blockStart] + w[blockStart..strstart]
  {
    SlotsHeld(w, data, base, end, blockStart, strstart - blockStart);
  }

  function AtLeastMin(len: nat): nat {
    if len < MIN_MATCH then MIN_MATCH else len
  }

  /** The first position visited has no longer match. */
  lemma HeadBeaten(w: seq<byte>, prev: seq<nat>, visited: seq<nat>, s: nat, prevLength: nat, len: nat, start0: nat, start: nat, c: nat)
    requires Found(w, prev, visited, s, prevLength, len, start0, start) && Walk(prev, c, visited)
    ensures NoLonger(w, c, s, len) && NoLonger(w, c, s, AtLeastMin(len))
  {
    hide GoodMatch, NoLonger;
    assert NoLonger(w, visited[0], s, len);
    if len < MIN_MATCH { NoLongerUp(w, c, s, len, MIN_MATCH); }
  }

  /** What the search returns, seen in the input and cut to the lookahead. */
  lemma FoundMatch(w: seq<byte>, prev: seq<nat>, visited: seq<nat>, data: seq<byte>, base: nat, s: nat, lookahead: nat,
                   prevLength: nat, len: nat, start0: nat, start: nat)
    requires Found(w, prev, visited, s, prevLength, len, start0, start)
    requires s + lookahead <= |w| && base + s + lookahead == |data| && w[..s + lookahead] == data[base..]
    ensures prevLength <= len <= MAX_MATCH
    ensures len > prevLength ==>
              var n := if len > lookahead then lookahead else len;
              && start < s && s - start <= MAX_DIST && Back(s + 1, start) == s - start
              && MatchAt(data, base + s, s - start, n)
  {
    hide Beaten, SameBytes, MatchAt;
    if len > prevLength {
      var n := if len > lookahead then lookahead else len;
      SameLess(w, start, s, len, n);
      WindowMatch(w, data, base, s + lookahead, start, s, n);
    }
  }
}
