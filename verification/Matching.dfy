/** The dictionary of strings: the rolling hash, the hash chains in `head` and `prev`, and the
    search for the longest match. */
module Matching {
  import opened Bits

  const WSIZE: nat := 0x8000
  const WINDOW_SIZE: nat := 2 * WSIZE
  const MIN_LOOKAHEAD: nat := MAX_MATCH + MIN_MATCH + 1
  const MAX_DIST: nat := WSIZE - MIN_LOOKAHEAD
  const HASH_BITS: nat := 13
  const HASH_SIZE: nat := 0x2000

  // ----- The rolling hash -----

  /** `UPDATE_HASH`: shift by five bits, mix in a byte, keep thirteen bits. */
  function UpdateHash(h: nat, c: byte): (r: nat)
    ensures r < Pow2(HASH_BITS)
  {
    Low(Xor(32 * h, c), HASH_BITS)
  }

  /** The hash of the three bytes at p. */
  function HashAt(w: seq<byte>, p: nat): nat
    requires p + 2 < |w|
  {
    UpdateHash(UpdateHash(UpdateHash(0, w[p]), w[p + 1]), w[p + 2])
  }

  lemma {:induction false} LowLow(v: nat, m: nat, j: nat)
    requires j <= m
    ensures Low(Low(v, m), j) == Low(v, j)
  {
    if j > 0 {
      LowStep(v, m);
      LowLow(v / 2, m - 1, j - 1);
    }
  }

  lemma LowFive(x: nat, y: nat, k: nat)
    requires Low(x, k) == Low(y, k)
    ensures Low(32 * x, k + 5) == Low(32 * y, k + 5)
  {
    hide Low;
    LowTwice(x, y, k);
    LowTwice(2 * x, 2 * y, k + 1);
    LowTwice(4 * x, 4 * y, k + 2);
    LowTwice(8 * x, 8 * y, k + 3);
    LowTwice(16 * x, 16 * y, k + 4);
  }

  lemma LowTwice(x: nat, y: nat, k: nat)
    requires Low(x, k) == Low(y, k)
    ensures Low(2 * x, k + 1) == Low(2 * y, k + 1)
  {
    assert 2 * x / 2 == x && 2 * y / 2 == y;
  }

  /** Hashes that agree in k low bits agree in k + 5 after the same byte. */
  lemma HashAgree(x: nat, y: nat, c: byte, k: nat, j: nat)
    requires Low(x, k) == Low(y, k) && j <= k + 5 && j <= HASH_BITS
    ensures Low(UpdateHash(x, c), j) == Low(UpdateHash(y, c), j)
  {
    hide Low, Xor;
    LowFive(x, y, k);
    LowLow(32 * x, k + 5, j);
    LowLow(32 * y, k + 5, j);
    XorLow(32 * x, c, j);
    XorLow(32 * y, c, j);
    LowLow(Xor(32 * x, c), HASH_BITS, j);
    LowLow(Xor(32 * y, c), HASH_BITS, j);
  }

  /** After three bytes nothing is left of an older hash: five bits for each are at least HASH_BITS. */
  lemma HashForgets(x: nat, y: nat, a: byte, b: byte, c: byte)
    ensures UpdateHash(UpdateHash(UpdateHash(x, a), b), c) == UpdateHash(UpdateHash(UpdateHash(y, a), b), c)
  {
    hide UpdateHash;
    LowNone(x);
    LowNone(y);
    var xa, ya := UpdateHash(x, a), UpdateHash(y, a);
    HashAgree(x, y, a, 0, 5);
    var xb, yb := UpdateHash(xa, b), UpdateHash(ya, b);
    HashAgree(xa, ya, b, 5, 10);
    HashAgree(xb, yb, c, 10, HASH_BITS);
    LowWhole(UpdateHash(xb, c), HASH_BITS);
    LowWhole(UpdateHash(yb, c), HASH_BITS);
  }

  lemma LowNone(x: nat)
    ensures Low(x, 0) == 0
  {
  }

  lemma {:induction false} LowWhole(v: nat, k: nat)
    requires v < Pow2(k)
    ensures Low(v, k) == v
  {
    if k > 0 { LowWhole(v / 2, k - 1); }
  }

  /** The last byte is determined by the hash and the two bytes before it: HASH_BITS >= 8. */
  lemma HashInjective(h: nat, c: byte, c': byte)
    requires UpdateHash(h, c) == UpdateHash(h, c')
    ensures c == c'
  {
    hide Low, Xor, Pow2;
    XorLow(32 * h, c, HASH_BITS);
    XorLow(32 * h, c', HASH_BITS);
    HashBitsValue();
    LowWhole(c, HASH_BITS);
    LowWhole(c', HASH_BITS);
    XorCancel(Low(32 * h, HASH_BITS), c, c');
  }

  lemma HashBitsValue()
    ensures Pow2(HASH_BITS) == HASH_SIZE
  {
    Pow2Values();
  }

  /** Strings with the same hash and the same first two bytes agree in the third, so the search
      need not compare it. */
  lemma ThirdByte(w: seq<byte>, p: nat, q: nat)
    requires p + 2 < |w| && q + 2 < |w| && HashAt(w, p) == HashAt(w, q) && w[p] == w[q] && w[p + 1] == w[q + 1]
    ensures w[p + 2] == w[q + 2]
  {
    hide UpdateHash;
    HashInjective(UpdateHash(UpdateHash(0, w[p]), w[p + 1]), w[p + 2], w[q + 2]);
  }

  /** A running hash that has taken in the two bytes a and b. */
  ghost predicate Rolling(h: nat, a: byte, b: byte) {
    forall c: byte :: UpdateHash(h, c) == UpdateHash(UpdateHash(UpdateHash(0, a), b), c)
  }

  lemma RollingTwo(x: nat, a: byte, b: byte)
    ensures Rolling(UpdateHash(UpdateHash(x, a), b), a, b)
  {
    hide UpdateHash;
    forall c: byte ensures UpdateHash(UpdateHash(UpdateHash(x, a), b), c) == UpdateHash(UpdateHash(UpdateHash(0, a), b), c) {
      HashForgets(x, 0, a, b, c);
    }
  }

  // ----- Hash chains -----

  /** A link to a position below `below` with hash h, or no link. */
  ghost predicate Link(w: seq<byte>, m: nat, below: nat, h: nat) {
    m == 0 || (m < below && m + 2 < |w| && HashAt(w, m) == h)
  }

  /** The entry for position p, which is not overwritten before WSIZE more insertions. */
  ghost predicate PrevOk(w: seq<byte>, prev: seq<nat>, p: nat) {
    |prev| == WSIZE && p + 2 < |w| && Link(w, prev[p % WSIZE], p, HashAt(w, p))
  }

  ghost predicate HeadOk(w: seq<byte>, head: seq<nat>, next: nat, h: nat) {
    h < |head| && Link(w, head[h], next, h)
  }

  /** The strings at positions 0..next-1 have been inserted. */
  ghost predicate Chained(w: seq<byte>, head: seq<nat>, prev: seq<nat>, next: nat) {
    && |head| == HASH_SIZE && |prev| == WSIZE && next + 2 <= |w|
    && (forall h :: 0 <= h < HASH_SIZE ==> HeadOk(w, head, next, h))
    && (forall p :: 0 <= p < next && next - p <= WSIZE ==> PrevOk(w, prev, p))
  }

  /** One step of `INSERT_STRING` on values. */
  lemma InsertKeeps(w: seq<byte>, head: seq<nat>, prev: seq<nat>, s: nat)
    requires Chained(w, head, prev, s) && s + 2 < |w|
    ensures HashAt(w, s) < HASH_SIZE && Link(w, head[HashAt(w, s)], s, HashAt(w, s))
    ensures Chained(w, head[HashAt(w, s) := s], prev[s % WSIZE := head[HashAt(w, s)]], s + 1)
  {
    hide UpdateHash, HashAt;
    HashInRange(w, s);
    var h := HashAt(w, s);
    assert HeadOk(w, head, s, h);
    var head', prev', next := head[h := s], prev[s % WSIZE := head[h]], s + 1;
    forall g | 0 <= g < HASH_SIZE ensures HeadOk(w, head', next, g) {
      assert HeadOk(w, head, s, g);
    }
    forall p | 0 <= p < s + 1 && s + 1 - p <= WSIZE ensures PrevOk(w, prev', p) {
      if p < s {
        assert PrevOk(w, prev, p);
        OtherSlot(p, s);
      }
    }
  }

  lemma HashInRange(w: seq<byte>, s: nat)
    requires s + 2 < |w|
    ensures HashAt(w, s) < HASH_SIZE
  {
    hide Low, Xor, Pow2;
    HashBitsValue();
  }

  lemma OtherSlot(p: nat, s: nat)
    requires p < s && s - p < WSIZE
    ensures p % WSIZE != s % WSIZE
  {
  }

  /** The chains do not depend on bytes behind the strings that were inserted. */
  lemma ChainsSame(w: seq<byte>, w': seq<byte>, head: seq<nat>, prev: seq<nat>, next: nat)
    requires Chained(w, head, prev, next) && next + 2 <= |w'| && w'[..next + 2] == w[..next + 2]
    ensures Chained(w', head, prev, next)
  {
    hide HashAt;
    forall h | 0 <= h < HASH_SIZE ensures HeadOk(w', head, next, h) {
      assert HeadOk(w, head, next, h);
      if head[h] != 0 { SameHash(w, w', next, head[h]); }
    }
    forall p | 0 <= p < next && next - p <= WSIZE ensures PrevOk(w', prev, p) {
      assert PrevOk(w, prev, p);
      SameHash(w, w', next, p);
      if prev[p % WSIZE] != 0 { SameHash(w, w', next, prev[p % WSIZE]); }
    }
  }

  lemma SameHash(w: seq<byte>, w': seq<byte>, next: nat, m: nat)
    requires next + 2 <= |w| && next + 2 <= |w'| && w'[..next + 2] == w[..next + 2] && m < next
    ensures HashAt(w', m) == HashAt(w, m)
  {
    hide UpdateHash;
    assert w'[m] == w'[..next + 2][m] && w'[m + 1] == w'[..next + 2][m + 1] && w'[m + 2] == w'[..next + 2][m + 2];
    assert w[m] == w[..next + 2][m] && w[m + 1] == w[..next + 2][m + 1] && w[m + 2] == w[..next + 2][m + 2];
  }

  /** A table entry after the window has slid. */
  function Slid(m: nat): nat {
    if m >= WSIZE then m - WSIZE else 0
  }

  function SlidAll(t: seq<nat>): (r: seq<nat>)
    ensures |r| == |t|
  {
    seq(|t|, i requires 0 <= i < |t| => Slid(t[i]))
  }

  /** Sliding keeps every link that still lies in the window and drops the others. */
  lemma SlideKeeps(w: seq<byte>, w': seq<byte>, head: seq<nat>, prev: seq<nat>, next: nat)
    requires Chained(w, head, prev, next) && next >= WSIZE && |w'| == |w|
    requires forall i :: 0 <= i < next + 2 - WSIZE ==> w'[i] == w[i + WSIZE]
    ensures Chained(w', SlidAll(head), SlidAll(prev), next - WSIZE)
  {
    hide HashAt;
    var head', prev', n := SlidAll(head), SlidAll(prev), next - WSIZE;
    forall h | 0 <= h < HASH_SIZE ensures HeadOk(w', head', n, h) {
      assert HeadOk(w, head, next, h);
      LinkSlides(w, w', next, head[h], next, h);
    }
    forall p | 0 <= p < n && n - p <= WSIZE ensures PrevOk(w', prev', p) {
      var q := p + WSIZE;
      assert PrevOk(w, prev, q);
      assert q % WSIZE == p % WSIZE;
      HashSlides(w, w', next, q);
      LinkSlides(w, w', next, prev[p % WSIZE], q, HashAt(w, q));
    }
  }

  lemma HashSlides(w: seq<byte>, w': seq<byte>, next: nat, m: nat)
    requires next + 2 <= |w| == |w'| && WSIZE <= m < next
    requires forall i :: 0 <= i < next + 2 - WSIZE ==> w'[i] == w[i + WSIZE]
    ensures HashAt(w', m - WSIZE) == HashAt(w, m)
  {
    hide UpdateHash;
    var k := m - WSIZE;
    assert w'[k] == w[k + WSIZE] && w'[k + 1] == w[k + 1 + WSIZE] && w'[k + 2] == w[k + 2 + WSIZE];
  }

  lemma LinkSlides(w: seq<byte>, w': seq<byte>, next: nat, m: nat, below: nat, h: nat)
    requires next + 2 <= |w| == |w'| && Link(w, m, below, h) && WSIZE <= below <= next
    requires forall i :: 0 <= i < next + 2 - WSIZE ==> w'[i] == w[i + WSIZE]
    ensures Link(w', Slid(m), below - WSIZE, h)
  {
    hide HashAt;
    if m > WSIZE { HashSlides(w, w', next, m); }
  }

  method InsertString(window: array<byte>, prev: array<nat>, head: array<nat>, insH: nat, s: nat) returns (insH': nat, hashHead: nat)
    requires prev != head && prev as object != window && head as object != window
    requires s + 2 < window.Length && Chained(window[..], head[..], prev[..], s) && Rolling(insH, window[s], window[s + 1])
    modifies prev, head
    ensures Chained(window[..], head[..], prev[..], s + 1) && Rolling(insH', window[s + 1], window[s + 2])
    ensures Link(window[..], hashHead, s, HashAt(window[..], s))
    ensures var h := HashAt(window[..], s);
            h < HASH_SIZE <= head.Length && hashHead == old(head[..])[h] && head[..] == old(head[..])[h := s]
            && WSIZE <= prev.Length && prev[..] == old(prev[..])[s % WSIZE := hashHead]
  {
    hide UpdateHash, Chained, Link;
    ghost var w := window[..];
    InsertKeeps(w, head[..], prev[..], s);
    ChainSizes(w, head[..], prev[..], s);
    RollingTwo(UpdateHash(0, w[s]), w[s + 1], w[s + 2]);
    insH' := UpdateHash(insH, window[s + MIN_MATCH - 1]);
    hashHead := head[insH'];
    ghost var h: seq<nat>, p: seq<nat> := head[..], prev[..];
    prev[s % WSIZE] := hashHead;
    head[insH'] := s;
    assert head[..] == h[insH' := s] && prev[..] == p[s % WSIZE := h[insH']];
  }

  lemma ChainSizes(w: seq<byte>, head: seq<nat>, prev: seq<nat>, next: nat)
    requires Chained(w, head, prev, next)
    ensures |head| == HASH_SIZE && |prev| == WSIZE && next + 2 <= |w|
  {
  }

  // ----- The longest match -----

  /** The tuning values of a compression level. */
  datatype Config = Config(goodMatch: nat, maxChain: nat, maxLazy: nat, niceMatch: nat) {
    /** What the matcher relies on. */
    predicate Valid() {
      maxChain >= 4 && maxLazy <= MAX_MATCH
    }
  }

  /** The values built in when levels are not configurable. */
  const DEFAULT_CONFIG: Config := Config(8, 128, 16, 128)

  /** The values for levels 4 to 9, as they are stored: the chain length by its logarithm, the last
      two halved. */
  const LEVELS: seq<(nat, nat, nat, nat)> :=
    [(4, 4, 2, 8), (8, 5, 8, 16), (8, 7, 8, 64), (8, 8, 16, 64), (32, 10, 64, 129), (32, 12, 129, 129)]

  /** What -1 to -9 set; levels below 4 count as 4. */
  function LevelConfig(level: nat): Config
    requires level <= 9
  {
    var (good, chainShift, lazy2, nice2) := LEVELS[if level <= 4 then 0 else level - 4];
    Config(good, Pow2(chainShift), lazy2 * 2, nice2 * 2)
  }

  /** Every level can be relied on by the matcher, and the values built in are those of level 6. */
  lemma LevelsValid(level: nat)
    requires level <= 9
    ensures DEFAULT_CONFIG.Valid() && LevelConfig(6) == DEFAULT_CONFIG
    ensures var c := LevelConfig(level); c.Valid() && c.maxLazy >= MIN_MATCH && 4 <= c.niceMatch <= MAX_MATCH
  {
    hide Pow2;
    Pow2Values();
  }

  /** n bytes at a and at b are the same. */
  ghost predicate SameBytes(w: seq<byte>, a: nat, b: nat, n: nat) {
    a + n <= |w| && b + n <= |w| && w[a..a + n] == w[b..b + n]
  }

  /** No match at c, cut to MAX_MATCH, is longer than n. */
  ghost predicate NoLonger(w: seq<byte>, c: nat, s: nat, n: nat) {
    n < MAX_MATCH ==> !SameBytes(w, c, s, n + 1)
  }

  lemma NoLongerUp(w: seq<byte>, c: nat, s: nat, n: nat, m: nat)
    requires NoLonger(w, c, s, n) && n <= m
    ensures NoLonger(w, c, s, m)
  {
    if SameBytes(w, c, s, m + 1) { SameLess(w, c, s, m + 1, n + 1); }
  }

  lemma SameLess(w: seq<byte>, a: nat, b: nat, n: nat, m: nat)
    requires SameBytes(w, a, b, n) && m <= n
    ensures SameBytes(w, a, b, m)
  {
    SlicePrefix(w, a, n, m);
    SlicePrefix(w, b, n, m);
  }

  lemma SlicePrefix(w: seq<byte>, a: nat, n: nat, m: nat)
    requires m <= n && a + n <= |w|
    ensures w[a..a + m] == w[a..a + n][..m]
  {
  }

  lemma SameMore(w: seq<byte>, a: nat, b: nat, n: nat)
    requires SameBytes(w, a, b, n) && a + n < |w| && b + n < |w| && w[a + n] == w[b + n]
    ensures SameBytes(w, a, b, n + 1)
  {
    assert w[a..a + n + 1] == w[a..a + n] + [w[a + n]] && w[b..b + n + 1] == w[b..b + n] + [w[b + n]];
  }

  lemma Differs(w: seq<byte>, c: nat, s: nat, k: nat, n: nat)
    requires k <= n && c + k < |w| && s + k < |w| && w[c + k] != w[s + k]
    ensures NoLonger(w, c, s, n)
  {
    if SameBytes(w, c, s, n + 1) { SameAt(w, c, s, n + 1, k); }
  }

  lemma SameAt(w: seq<byte>, a: nat, b: nat, n: nat, k: nat)
    requires SameBytes(w, a, b, n) && k < n
    ensures w[a + k] == w[b + k]
  {
    assert w[a..a + n][k] == w[b..b + n][k];
  }

  /** Where the chain walk stops: window index 0 or too far back. */
  function Limit(strstart: nat): nat {
    if strstart > MAX_DIST then strstart - MAX_DIST else 0
  }

  /** A position that the search may look at. */
  ghost predicate Candidate(w: seq<byte>, c: nat, s: nat) {
    0 < c < s && s - c <= MAX_DIST && s + 2 < |w| && HashAt(w, c) == HashAt(w, s)
  }

  /** A match whose distance the format and the window allow. */
  ghost predicate GoodMatch(w: seq<byte>, m: nat, s: nat, n: nat) {
    m < s && s - m <= MAX_DIST && SameBytes(w, m, s, n)
  }

  /** The positions visited are the chain from c on. */
  ghost predicate Walk(prev: seq<nat>, c: nat, visited: seq<nat>) {
    |prev| == WSIZE && |visited| >= 1 && visited[0] == c
    && forall i :: 1 <= i < |visited| ==> visited[i] == prev[visited[i - 1] % WSIZE]
  }

  ghost predicate Beaten(w: seq<byte>, visited: seq<nat>, s: nat, n: nat) {
    forall i :: 0 <= i < |visited| ==> NoLonger(w, visited[i], s, n)
  }

  /** Following a link from a candidate gives a candidate or ends the walk. */
  lemma NextCandidate(w: seq<byte>, head: seq<nat>, prev: seq<nat>, c: nat, s: nat)
    requires Chained(w, head, prev, s + 1) && Candidate(w, c, s)
    ensures |prev| == WSIZE && prev[c % WSIZE] < c
    ensures prev[c % WSIZE] > Limit(s) ==> Candidate(w, prev[c % WSIZE], s)
  {
    hide HashAt;
    assert PrevOk(w, prev, c);
  }

  /** The length of the match at a candidate, starting with the comparison of byte 3. */
  method CompareFrom3(window: array<byte>, c: nat, s: nat) returns (len: nat)
    requires Candidate(window[..], c, s) && s + MAX_MATCH < window.Length && window[c] == window[s] && window[c + 1] == window[s + 1]
    ensures 3 <= len <= MAX_MATCH && SameBytes(window[..], c, s, len) && NoLonger(window[..], c, s, len)
  {
    hide HashAt;
    ThirdByte(window[..], c, s);
    len := 3;
    while len < MAX_MATCH && window[c + len] == window[s + len]
      invariant 3 <= len <= MAX_MATCH && SameBytes(window[..], c, s, len)
    {
      SameMore(window[..], c, s, len);
      len := len + 1;
    }
    if len < MAX_MATCH { Differs(window[..], c, s, len, len); }
  }

  /** The four comparisons before the full one: what fails them cannot be longer. */
  method Promising(window: array<byte>, c: nat, s: nat, bestLen: nat) returns (ok: bool)
    requires c < s && s + MAX_MATCH < window.Length && 1 <= bestLen <= MAX_MATCH
    ensures ok ==> window[c] == window[s] && window[c + 1] == window[s + 1]
    ensures !ok ==> NoLonger(window[..], c, s, bestLen)
  {
    hide NoLonger;
    ghost var w := window[..];
    ok := true;
    if window[c + bestLen] != window[s + bestLen] {
      Differs(w, c, s, bestLen, bestLen);
      ok := false;
    } else if window[c + bestLen - 1] != window[s + bestLen - 1] {
      Differs(w, c, s, bestLen - 1, bestLen);
      ok := false;
    } else if window[c] != window[s] {
      Differs(w, c, s, 0, bestLen);
      ok := false;
    } else if window[c + 1] != window[s + 1] {
      Differs(w, c, s, 1, bestLen);
      ok := false;
    }
  }

  lemma BeatenMore(w: seq<byte>, visited: seq<nat>, c: nat, s: nat, n: nat, m: nat)
    requires Beaten(w, visited, s, n) && n <= m && NoLonger(w, c, s, m)
    ensures Beaten(w, visited + [c], s, m)
  {
    hide NoLonger;
    forall i | 0 <= i < |visited| + 1 ensures NoLonger(w, (visited + [c])[i], s, m) {
      if i < |visited| { NoLongerUp(w, visited[i], s, n, m); }
    }
  }

  /** The result of the search after the candidates `visited`. */
  ghost predicate Found(w: seq<byte>, prev: seq<nat>, visited: seq<nat>, s: nat, prevLength: nat, bestLen: nat, start0: nat, start: nat) {
    && prevLength <= bestLen <= MAX_MATCH && Beaten(w, visited, s, bestLen)
    && (bestLen == prevLength ==> start == start0)
    && (bestLen > prevLength ==> GoodMatch(w, start, s, bestLen))
  }

  /** One candidate: a strictly longer match replaces the best one. */
  method TryCandidate(window: array<byte>, c: nat, s: nat, bestLen0: nat, matchStart0: nat, ghost prev: seq<nat>, ghost visited: seq<nat>,
                      ghost prevLength: nat, ghost start0: nat) returns (bestLen: nat, matchStart: nat)
    requires Candidate(window[..], c, s) && s + MAX_MATCH < window.Length && prevLength >= 1
    requires Found(window[..], prev, visited, s, prevLength, bestLen0, start0, matchStart0)
    ensures Found(window[..], prev, visited + [c], s, prevLength, bestLen, start0, matchStart) && bestLen >= bestLen0
    ensures bestLen > bestLen0 ==> matchStart == c
    ensures bestLen == bestLen0 ==> matchStart == matchStart0
  {
    hide Beaten, NoLonger, SameBytes, HashAt;
    bestLen, matchStart := bestLen0, matchStart0;
    var ok := Promising(window, c, s, bestLen);
    if ok {
      var len := CompareFrom3(window, c, s);
      if len > bestLen {
        BeatenMore(window[..], visited, c, s, bestLen, len);
        matchStart, bestLen := c, len;
      } else {
        NoLongerUp(window[..], c, s, len, bestLen);
        BeatenMore(window[..], visited, c, s, bestLen, bestLen);
      }
    } else {
      BeatenMore(window[..], visited, c, s, bestLen, bestLen);
    }
  }

  method LongestMatch(window: array<byte>, prev: array<nat>, cfg: Config, curMatch: nat, strstart: nat, prevLength: nat, matchStart0: nat,
                      ghost head: seq<nat>) returns (bestLen: nat, matchStart: nat, ghost visited: seq<nat>)
    requires cfg.Valid() && Chained(window[..], head, prev[..], strstart + 1) && Candidate(window[..], curMatch, strstart)
    requires strstart + MAX_MATCH < window.Length && 1 <= prevLength <= MAX_MATCH
    ensures Found(window[..], prev[..], visited, strstart, prevLength, bestLen, matchStart0, matchStart) && Walk(prev[..], curMatch, visited)
    ensures || bestLen >= cfg.niceMatch
            || |visited| == (if prevLength >= cfg.goodMatch then cfg.maxChain / 4 else cfg.maxChain)
            || prev[visited[|visited| - 1] % WSIZE] <= Limit(strstart)
  {
    hide Beaten, HashAt, Chained, GoodMatch;
    ghost var w, pv: seq<nat> := window[..], prev[..];
    ChainSizes(w, head, pv, strstart + 1);
    var chainLength := if prevLength >= cfg.goodMatch then cfg.maxChain / 4 else cfg.maxChain;
    var limit := Limit(strstart);
    var cur: nat := curMatch;
    bestLen, matchStart, visited := prevLength, matchStart0, [];
    BeatenNone(w, strstart, bestLen);
    ghost var total := chainLength;
    while true
      invariant 1 <= chainLength && |visited| + chainLength == total && Candidate(w, cur, strstart)
      invariant Found(w, pv, visited, strstart, prevLength, bestLen, matchStart0, matchStart) && Walk(pv, curMatch, visited + [cur])
      decreases chainLength
    {
      var before := bestLen;
      bestLen, matchStart := TryCandidate(window, cur, strstart, bestLen, matchStart, pv, visited, prevLength, matchStart0);
      visited := visited + [cur];
      if bestLen > before && bestLen >= cfg.niceMatch {
        break;
      }
      NextCandidate(w, head, pv, cur, strstart);
      cur := prev[cur % WSIZE];
      chainLength := chainLength - 1;
      if cur <= limit || chainLength == 0 {
        break;
      }
    }
  }

  lemma BeatenNone(w: seq<byte>, s: nat, n: nat)
    ensures Beaten(w, [], s, n)
  {
  }
}
