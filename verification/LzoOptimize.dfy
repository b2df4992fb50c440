/** `lzo1x_optimize`: rewrites a compressed block in place while decoding it. */
module LzoOptimize {
  import opened Bits
  import opened Copying
  import opened LzoFormat
  import opened LzoMeaning

  /** Longest block for which a 32-bit count cannot wrap, whatever the block contains. */
  const MAX_BLOCK: nat := 0x100_0000

  // ----- Reading -----

  /** An extended length. */
  method ReadExtended(b: array<byte>, ip0: nat, base: nat) returns (n: nat, ip: nat)
    requires ReadCount(b[..], ip0).Some? && b.Length <= MAX_BLOCK && base <= 31
    ensures ReadCount(b[..], ip0) == Some((n - base, ip)) && base <= n && n + 3 < TWO32
  {
    ghost var c := ReadCount(b[..], ip0).value;
    n, ip := base, ip0;
    while b[ip] == 0
      invariant ip0 <= ip <= |b[..]| && ReadCount(b[..], ip).Some? && base <= n
      invariant ReadCount(b[..], ip).value == (c.0 - (n - base), c.1)
      decreases b.Length - ip
    {
      n := n + 255;
      ip := ip + 1;
    }
    n := n + b[ip];
    ip := ip + 1;
  }

  method ReadMatch(b: array<byte>, mode: Mode, ip: nat) returns (i: Instr)
    requires ip < b.Length <= MAX_BLOCK && !Parse(b[..], mode, ip).Bad?
    ensures i == Parse(b[..], mode, ip)
  {
    hide ReadCount;
    var t: nat := b[ip];
    if t >= 64 {
      var x: nat := b[ip + 1];
      i := Copy(1 + t / 4 % 8 + x * 8, t / 32 - 1 + 2, ip + 2);
    } else if t < 16 {
      var x: nat := b[ip + 1];
      if mode == AfterRun {
        i := Copy(1 + 0x800 + t / 4 + x * 4, 3, ip + 2);
      } else {
        i := Copy(1 + t / 4 + x * 4, 2, ip + 2);
      }
    } else {
      i := ReadLong(b, mode, ip);
    }
  }

  method ReadLong(b: array<byte>, mode: Mode, ip: nat) returns (i: Instr)
    requires ip < b.Length <= MAX_BLOCK && 16 <= b[ip] < 64 && !Parse(b[..], mode, ip).Bad?
    ensures i == Parse(b[..], mode, ip)
  {
    hide ReadCount;
    var t: nat := b[ip];
    var n, p, m4 := t % 32, ip + 1, t < 32;
    if m4 {
      n := t % 8;
    }
    if n == 0 {
      n, p := ReadExtended(b, p, if m4 then 7 else 31);
    }
    var lo: nat, hi: nat := b[p], b[p + 1];
    var off := lo / 4 + hi * 64;
    if !m4 {
      i := Copy(1 + off, n + 2, p + 2);
    } else {
      if t % 16 >= 8 {
        off := off + 0x4000;
      }
      i := if off == 0 then EndMark(p + 2) else Copy(off + 0x4000, n + 2, p + 2);
    }
  }

  /** The copy loop of a match. */
  method CopyLoop(out0: seq<byte>, off: nat, len: nat) returns (out: seq<byte>)
    requires 1 <= off <= |out0|
    ensures out == CopyMatch(out0, off, len)
  {
    out := out0;
    var t := len;
    while t > 0
      invariant 0 <= t <= len && off <= |out| && CopyMatch(out, off, t) == CopyMatch(out0, off, len)
    {
      out := out + [out[|out| - off]];
      t := t - 1;
    }
  }

  // ----- Literals in place of a match -----

  /** The bytes that a match produces. */
  function Produced(out: seq<byte>, off: nat, len: nat): (w: seq<byte>)
    requires 1 <= off <= |out|
    ensures |w| == len
  {
    CopyMatch(out, off, len)[|out|..]
  }

  lemma ProducedIs(out: seq<byte>, off: nat, len: nat)
    requires 1 <= off <= |out|
    ensures CopyMatch(out, off, len) == out + Produced(out, off, len)
  {
  }

  method Copy2(b: array<byte>, at: nat, out: seq<byte>, off: nat)
    requires at + 2 <= b.Length && 1 <= off <= |out|
    modifies b
    ensures b[..] == old(b[..at]) + Produced(out, off, 2) + old(b[at + 2..])
  {
    hide Produced;
    var m := |out| - off;
    ghost var s := b[..];
    TwoBytes(out, off);
    b[at] := out[m];
    b[at + 1] := if off == 1 then out[m] else out[m + 1];
    Put2(s, b[..], at);
  }

  lemma Put2(s: seq<byte>, s': seq<byte>, at: nat)
    requires at + 2 <= |s| == |s'| && forall i :: 0 <= i < at || at + 2 <= i < |s| ==> s'[i] == s[i]
    ensures s' == s[..at] + [s'[at], s'[at + 1]] + s[at + 2..]
  {
  }

  method Copy3(b: array<byte>, at: nat, out: seq<byte>, off: nat)
    requires at + 3 <= b.Length && 1 <= off <= |out|
    modifies b
    ensures b[..] == old(b[..at]) + Produced(out, off, 3) + old(b[at + 3..])
  {
    hide Produced;
    var m := |out| - off;
    ghost var s := b[..];
    ThreeBytes(out, off);
    b[at] := out[m];
    if off == 1 {
      b[at + 1] := out[m];
      b[at + 2] := out[m];
    } else if off == 2 {
      b[at + 1] := out[m + 1];
      b[at + 2] := out[m];
    } else {
      b[at + 1] := out[m + 1];
      b[at + 2] := out[m + 2];
    }
    Put3(s, b[..], at);
  }

  lemma Put3(s: seq<byte>, s': seq<byte>, at: nat)
    requires at + 3 <= |s| == |s'| && forall i :: 0 <= i < at || at + 3 <= i < |s| ==> s'[i] == s[i]
    ensures s' == s[..at] + [s'[at], s'[at + 1], s'[at + 2]] + s[at + 3..]
  {
  }

  lemma ProducedStep(out: seq<byte>, off: nat, n: nat)
    requires 1 <= off <= |out|
    ensures var x := out[|out| - off]; Produced(out, off, n + 1) == [x] + Produced(out + [x], off, n)
  {
    var x := out[|out| - off];
    var a := out + [x];
    ProducedIs(a, off, n);
    assert CopyMatch(out, off, n + 1) == out + ([x] + Produced(a, off, n));
  }

  lemma TwoBytes(out: seq<byte>, off: nat)
    requires 1 <= off <= |out|
    ensures var m := |out| - off; Produced(out, off, 2) == [out[m], if off == 1 then out[m] else out[m + 1]]
  {
    hide Produced;
    var a := out + [out[|out| - off]];
    var c := a + [a[|a| - off]];
    ProducedStep(out, off, 1);
    ProducedStep(a, off, 0);
    assert |Produced(c, off, 0)| == 0;
  }

  lemma ThreeBytes(out: seq<byte>, off: nat)
    requires 1 <= off <= |out|
    ensures var m := |out| - off;
            Produced(out, off, 3) == [out[m], if off == 1 then out[m] else out[m + 1], if off <= 2 then out[m] else out[m + 2]]
  {
    hide Produced;
    var a := out + [out[|out| - off]];
    ProducedStep(out, off, 2);
    TwoBytes(a, off);
  }

  /** Writes the bytes of a short match over the stream. */
  method WriteLits(b: array<byte>, at: nat, out: seq<byte>, off: nat, k: nat)
    requires 2 <= k <= 3 && at + k <= b.Length && 1 <= off <= |out|
    modifies b
    ensures b[..] == old(b[..at]) + Produced(out, off, k) + old(b[at + k..])
  {
    if k == 2 {
      Copy2(b, at, out, off);
    } else {
      Copy3(b, at, out, off);
    }
  }

  /** The previous match announces three literals; the bytes of this one become literals. */
  method RewriteBetweenMatches(b: array<byte>, litp: nat, ip: nat, out: seq<byte>, off: nat, k: nat)
    requires 2 <= k <= 3 && litp < ip && ip + k <= b.Length && 1 <= off <= |out|
    modifies b
    ensures var v := old(b[litp]) / 4 * 4 + 3; v < 256 && b[..] == Overwrite(old(b[..]), litp, v, ip, Produced(out, off, k))
  {
    hide Produced;
    ghost var s := b[..];
    b[litp] := b[litp] / 4 * 4 + 3;
    ghost var v := b[litp];
    assert b[..ip] == s[..litp] + [v] + s[litp + 1..ip] && b[ip + k..] == s[ip + k..];
    WriteLits(b, ip, out, off, k);
  }

  /** Two literal runs with a match between become one. */
  method RewriteBetweenRuns(b: array<byte>, litp: nat, ip: nat, out: seq<byte>, off: nat, v: byte)
    requires litp < ip && ip + 3 <= b.Length && 1 <= off <= |out|
    modifies b
    ensures b[..] == Overwrite(old(b[..]), litp, v, ip, Produced(out, off, 3))
  {
    hide Produced;
    ghost var s := b[..];
    Copy3(b, ip, out, off);
    ghost var w := Produced(out, off, 3);
    assert b[..] == s[..ip] + w + s[ip + 3..];
    b[litp] := v;
    assert b[..] == s[..litp] + [v] + s[litp + 1..ip] + w + s[ip + 3..];
  }

  /** The literals of the previous match, those that replace this one and the run behind it become
      one literal run. */
  method RewriteBeforeRun(b: array<byte>, litp: nat, lit: nat, ip: nat, out: seq<byte>, off: nat, k: nat, v: byte)
    requires 2 <= k <= 3 && litp + 2 + lit == ip && ip + k + 1 <= b.Length && 1 <= off <= |out|
    modifies b
    ensures b[..] == Merge(old(b[..]), litp, v, ip, Produced(out, off, k))
  {
    hide Produced;
    ghost var s, w := b[..], Produced(out, off, k);
    b[litp] := b[litp] / 4 * 4;
    ghost var s1 := b[..];
    WriteLits(b, ip + 1, out, off, k);
    ghost var s2 := b[..];
    MoveUp(b, litp + 2, lit);
    b[litp + 2] := v;
    MergeMade(s, s1, s2, b[..], litp, v, ip, w);
  }

  /** Byte i after the bytes from `at` up to `last` have moved up and v has taken their place. */
  function MovedAt(s: seq<byte>, at: nat, last: nat, v: byte, i: nat): byte
    requires i < |s|
  {
    if i == at then v else if at < i <= last then s[i - 1] else s[i]
  }

  lemma MergeMade(s: seq<byte>, s1: seq<byte>, s2: seq<byte>, s3: seq<byte>, litp: nat, v: byte, ip: nat, w: seq<byte>)
    requires litp + 2 <= ip && ip + |w| + 1 <= |s| == |s3| && |s2| == |s| && s1 == s[litp := s[litp] / 4 * 4]
    requires s2 == s1[..ip + 1] + w + s1[ip + 1 + |w|..]
    requires forall i :: 0 <= i < |s| ==> s3[i] == MovedAt(s2, litp + 2, ip, v, i)
    ensures s3 == Merge(s, litp, v, ip, w)
  {
    hide Merge;
    Spliced(s1, s2, ip + 1, w);
    var m := Merge(s, litp, v, ip, w);
    forall i | 0 <= i < |s| ensures s3[i] == m[i] {
      MergeAt(s, litp, v, ip, w, i);
      var j := if litp + 2 < i <= ip then i - 1 else i;
      assert s3[i] == MovedAt(s2, litp + 2, ip, v, i);
      assert s2[j] == if ip + 1 <= j < ip + 1 + |w| then w[j - ip - 1] else s1[j];
    }
  }

  lemma MergeAt(s: seq<byte>, litp: nat, v: byte, ip: nat, w: seq<byte>, i: nat)
    requires litp + 2 <= ip && ip + |w| + 1 <= |s| && i < |s|
    ensures Merge(s, litp, v, ip, w)[i] ==
            if i == litp then s[litp] / 4 * 4 else if i == litp + 2 then v else if litp + 2 < i <= ip then s[i - 1]
            else if ip < i < ip + 1 + |w| then w[i - ip - 1] else s[i]
  {
  }

  lemma Spliced(s: seq<byte>, s': seq<byte>, at: nat, w: seq<byte>)
    requires at + |w| <= |s| && s' == s[..at] + w + s[at + |w|..]
    ensures |s'| == |s| && forall i :: 0 <= i < |s| ==> s'[i] == if at <= i < at + |w| then w[i - at] else s[i]
  {
  }

  /** `memmove(litp + 1, litp, lit)`. */
  method MoveUp(b: array<byte>, at: nat, n: nat)
    requires at + n + 1 <= b.Length
    modifies b
    ensures forall i :: 0 <= i < b.Length ==> b[i] == old(if at < i <= at + n then b[i - 1] else b[i])
  {
    var s := b[..];
    forall i | at < i <= at + n {
      b[i] := s[i - 1];
    }
  }

  // ----- The walk -----

  /** Where the walk is, what may be rewritten behind it, and that nothing has changed in what the
      stream decodes to. */
  ghost predicate Walking(b: seq<byte>, cap: nat, c: Config, litp: int, lit: nat, outP: seq<byte>, r: Option<(seq<byte>, nat)>) {
    && Anchored(b, cap, c, litp, lit, outP) && Finish(b, cap, c) == r && r.Some?
    && c.ip <= |b| && AtStart(b, c) && c.mode != Start && c.mode != MatchDone
  }

  /** The walk of a stream that decodes never stops short. */
  lemma NotStuck(b: seq<byte>, cap: nat, c: Config)
    requires Finish(b, cap, c).Some? && c.mode != Start && c.mode != MatchDone
    ensures c.ip < |b| && !Step(b, cap, c).Fail?
    ensures !(c.mode == Top && b[c.ip] < 16) ==> !Parse(b, c.mode, c.ip).Bad? && Step(b, cap, c) == TakeMatch(c, Parse(b, c.mode, c.ip))
    ensures Step(b, cap, c).Eof? ==> Finish(b, cap, c) == Some((c.out, Step(b, cap, c).end))
  {
    hide Parse, ReadCount, CopyMatch;
  }

  /** A literal run, its opcode becoming the anchor. */
  method TakeRun(b: array<byte>, cap: nat, c: Config, ghost litp: int, ghost lit: nat, ghost outP: seq<byte>, ghost r: Option<(seq<byte>, nat)>)
    returns (c': Config, litp': int, lit': nat)
    requires Walking(b[..], cap, c, litp, lit, outP, r) && c.mode == Top && c.ip < b.Length <= MAX_BLOCK && b[c.ip] < 16
    ensures Walking(b[..], cap, c', litp', lit', c.out, r) && c.ip < c'.ip
  {
    hide Anchored, Finish, ReadCount;
    ghost var s := b[..];
    var t: nat, ip := b[c.ip], c.ip + 1;
    NotStuck(s, cap, c);
    litp' := c.ip;
    if t == 0 {
      t, ip := ReadExtended(b, ip, 15);
    }
    lit' := t + 3;
    c' := Config(AfterRun, ip + lit', c.out + b[ip..ip + lit']);
    RunAnchor(s, cap, c, litp, lit, outP, c', t);
  }

  /** A match that stays, and the literals it announces. */
  method PassMatch(b: array<byte>, cap: nat, c: Config, i: Instr, ghost litp: int, ghost lit: nat, ghost outP: seq<byte>, ghost r: Option<(seq<byte>, nat)>)
    returns (c': Config, litp': int, lit': nat, ghost outP': seq<byte>)
    requires Walking(b[..], cap, c, litp, lit, outP, r) && c.ip < b.Length && i.Copy? && i == Parse(b[..], c.mode, c.ip)
    requires Step(b[..], cap, c) == TakeMatch(c, i) && 1 <= i.off <= |c.out|
    ensures Walking(b[..], cap, c', litp', lit', outP', r) && c.ip < c'.ip
  {
    hide Anchored, Finish, Parse, CopyMatch, ReadCount;
    ghost var s := b[..];
    var out := CopyLoop(c.out, i.off, i.len);
    ghost var c1 := Config(MatchDone, i.next, out);
    assert Step(s, cap, c) == Next(c1);
    FinishStep(s, cap, c);
    outP', litp', lit' := out, i.next - 2, b[i.next - 2] % 4;
    LitsFollow(s, cap, c1);
    c' := if lit' == 0 then Config(Top, i.next, out) else Config(AfterLits, i.next + lit', out + b[i.next..i.next + lit']);
    MatchAnchor(s, cap, c, litp, lit, outP, c1, c');
  }

  lemma LitsFollow(b: seq<byte>, cap: nat, c: Config)
    requires c.mode == MatchDone && 2 <= c.ip <= |b| && Finish(b, cap, c).Some?
    ensures c.ip + b[c.ip - 2] % 4 <= |b|
    ensures b[c.ip - 2] % 4 == 0 ==> Finish(b, cap, c) == Finish(b, cap, Config(Top, c.ip, c.out))
  {
  }

  /** What a rewrite relies on: the match produces w, announces nothing, and something follows. */
  lemma CanRemove(b: seq<byte>, cap: nat, c: Config, i: Instr)
    requires Finish(b, cap, c).Some? && c.mode != Start && c.mode != MatchDone && c.ip < |b| && i.Copy? && i == Parse(b, c.mode, c.ip)
    requires Step(b, cap, c) == TakeMatch(c, i) && 1 <= i.off <= |c.out| && b[i.next - 2] % 4 == 0
    ensures Removable(b, cap, c, i.next, Produced(c.out, i.off, i.len))
    ensures |c.out| + i.len <= cap
    ensures 1 <= b[i.next] < 16 ==> i.next + 1 + b[i.next] + 3 <= |b|
  {
    hide Finish, Parse, CopyMatch, ReadCount;
    ProducedIs(c.out, i.off, i.len);
    var w := Produced(c.out, i.off, i.len);
    var c1, c2 := Config(MatchDone, i.next, c.out + w), Config(Top, i.next, c.out + w);
    FinishStep(b, cap, c);
    LitsFollow(b, cap, c1);
    RestWithinCap(b, cap, c2);
    NotStuck(b, cap, c2);
  }

  /** A match that can be removed: it produces as many bytes as it takes in the stream, or it is
      a match of three bytes in two that follows a long literal run. */
  ghost predicate Pattern(b: seq<byte>, cap: nat, c: Config, i: Instr) {
    && c.ip < |b| && i.Copy? && i.next < |b| && 1 <= i.off <= |c.out| && Removable(b, cap, c, i.next, Produced(c.out, i.off, i.len)) && |c.out| + i.len <= cap
    && (1 <= b[i.next] < 16 ==> i.next + 1 + b[i.next] + 3 <= |b|)
  }

  lemma SizeOf(b: seq<byte>, mode: Mode, ip: nat)
    requires ip < |b| && Parse(b, mode, ip).Copy?
    ensures var i := Parse(b, mode, ip);
            && (b[ip] < 16 || b[ip] >= 64 ==> i.next == ip + 2)
            && (16 <= b[ip] < 64 && i.len == 3 ==> i.next == ip + 3)
  {
    hide ReadCount;
  }

  /** The match at c.ip announces no literals and its bytes have room for the ones it produces. */
  ghost predicate Replaceable(b: seq<byte>, c: Config, i: Instr, lit: nat)
    requires i.Copy?
  {
    && c.ip < |b| && 2 <= i.next < |b| && b[i.next - 2] % 4 == 0 && 1 <= i.off <= |c.out|
    && var t: nat, f: nat := b[c.ip], b[i.next];
       var short := (t < 16 && c.mode != AfterRun && i.len == 2) || (16 <= t < 64 && i.len == 3);
       || (short && f >= 16 && lit + i.len == 3)
       || (short && lit <= 3 && 1 <= f < 16 && lit + i.len + f < 16)
       || (t >= 64 && i.len == 3 && lit > 3 && 1 <= f < 16 && lit + 3 + f < 16)
  }

  /** The block with literals in place of the match: a fourth literal count or run count at the anchor,
      or one run made of the literals before, those of the match and the run behind. */
  ghost function Rewritten(b: seq<byte>, c: Config, i: Instr, litp: nat, lit: nat): (r: seq<byte>)
    requires i.Copy? && c.ip < |b| && i.next < |b| && 1 <= i.off <= |c.out|
  {
    var w, f: nat := Produced(c.out, i.off, i.len), b[i.next];
    if litp >= c.ip || c.ip + i.len > |b| then b
    else if f >= 16 then Overwrite(b, litp, b[litp] / 4 * 4 + 3, c.ip, w)
    else if lit > 3 then if lit + 3 + f < 256 then Overwrite(b, litp, lit + 3 + f, c.ip, w) else b
    else if litp + 2 > c.ip || c.ip + i.len + 1 > |b| || lit + i.len + f >= 256 then b
    else Merge(b, litp, lit + i.len + f, c.ip, w)
  }

  method BetweenMatchesStep(b: array<byte>, cap: nat, c: Config, i: Instr, litp: nat, lit: nat, ghost outP: seq<byte>, ghost r: Option<(seq<byte>, nat)>)
    returns (c': Config, litp': int, lit': nat, ghost outP': seq<byte>)
    requires Walking(b[..], cap, c, litp, lit, outP, r) && Pattern(b[..], cap, c, i) && i.next == c.ip + i.len && 2 <= i.len
    requires lit + i.len == 3 && b[i.next] >= 16
    modifies b
    ensures Walking(b[..], cap, c', litp', lit', outP', r) && c.ip < c'.ip
    ensures b[..] == Rewritten(old(b[..]), c, i, litp, lit)
  {
    hide Finish, CopyMatch, Step, Produced, LeadLow, Lead, Removable;
    ghost var s, w := b[..], Produced(c.out, i.off, i.len);
    ProducedIs(c.out, i.off, i.len);
    BetweenMatches(s, cap, c, litp, lit, outP, w);
    RewriteBetweenMatches(b, litp, c.ip, c.out, i.off, i.len);
    var out := CopyLoop(c.out, i.off, i.len);
    c', litp', lit', outP' := Config(Top, i.next, out), litp, 3, outP;
  }

  method BeforeRunStep(b: array<byte>, cap: nat, c: Config, i: Instr, litp: nat, lit: nat, ghost outP: seq<byte>, ghost r: Option<(seq<byte>, nat)>)
    returns (c': Config, litp': int, lit': nat, ghost outP': seq<byte>)
    requires Walking(b[..], cap, c, litp, lit, outP, r) && Pattern(b[..], cap, c, i) && i.next == c.ip + i.len && 2 <= i.len <= 3 && lit <= 3
    requires 1 <= b[i.next] < 16 && lit + i.len + b[i.next] < 16
    modifies b
    ensures Walking(b[..], cap, c', litp', lit', outP', r) && c.ip < c'.ip
    ensures b[..] == Rewritten(old(b[..]), c, i, litp, lit)
  {
    hide Walking, CopyMatch, Produced, Removable, Merge;
    ghost var s := b[..];
    var t: nat := b[i.next];
    AnchorPlace(s, cap, c, litp, lit, outP, r);
    BeforeRunWalks(s, cap, c, i, litp, lit, outP, r, t);
    var ip := i.next + 1;
    RewriteBeforeRun(b, litp, lit, c.ip, c.out, i.off, i.len, lit + i.len + t);
    var out := CopyLoop(c.out, i.off, i.len);
    assert b[ip..ip + t + 3] == b[..][ip..ip + t + 3];
    litp', lit', outP' := litp + 2, lit + i.len + t + 3, outP;
    c' := Config(AfterRun, ip + t + 3, out + b[ip..ip + t + 3]);
  }

  lemma AnchorPlace(b: seq<byte>, cap: nat, c: Config, litp: nat, lit: nat, outP: seq<byte>, r: Option<(seq<byte>, nat)>)
    requires Walking(b, cap, c, litp, lit, outP, r) && lit <= 3
    ensures 1 <= litp && litp + 2 + lit == c.ip <= |b|
  {
    hide Finish, LeadLow, Lead;
  }

  /** The walk goes on behind the run that takes in the literals, the match and the next run. */
  lemma BeforeRunWalks(b: seq<byte>, cap: nat, c: Config, i: Instr, litp: nat, lit: nat, outP: seq<byte>, r: Option<(seq<byte>, nat)>, t: byte)
    requires Walking(b, cap, c, litp, lit, outP, r) && Pattern(b, cap, c, i) && i.next == c.ip + i.len && 2 <= i.len <= 3 && lit <= 3
    requires t == b[i.next] && 1 <= t < 16 && lit + i.len + t < 16 && litp + 2 <= c.ip
    ensures var b', ip, ip' := Merge(b, litp, lit + i.len + t, c.ip, Produced(c.out, i.off, i.len)), i.next + 1, i.next + 1 + t + 3;
            ip' <= |b| && Walking(b', cap, Config(AfterRun, ip', CopyMatch(c.out, i.off, i.len) + b'[ip..ip']), litp + 2, lit + i.len + t + 3, outP, r)
  {
    hide Finish, CopyMatch, Step, Produced, LeadLow, Lead, Removable, Merge;
    var w := Produced(c.out, i.off, i.len);
    ProducedIs(c.out, i.off, i.len);
    BeforeRun(b, cap, c, litp, lit, outP, w, t);
    MergeParts(b, litp, lit + i.len + t, c.ip, w);
    TailSlice(b, Merge(b, litp, lit + i.len + t, c.ip, w), i.next + 1, i.next + 1, i.next + 1 + t + 3);
  }

  method BetweenRunsStep(b: array<byte>, cap: nat, c: Config, i: Instr, litp: nat, lit: nat, ghost outP: seq<byte>, ghost r: Option<(seq<byte>, nat)>)
    returns (c': Config, litp': int, lit': nat, ghost outP': seq<byte>)
    requires Walking(b[..], cap, c, litp, lit, outP, r) && Pattern(b[..], cap, c, i) && i.next == c.ip + 2 && i.len == 3 && lit > 3
    requires 1 <= b[i.next] < 16 && lit + 3 + b[i.next] < 16
    modifies b
    ensures Walking(b[..], cap, c', litp', lit', outP', r) && c.ip < c'.ip
    ensures b[..] == Rewritten(old(b[..]), c, i, litp, lit)
  {
    hide Walking, CopyMatch, Produced, Removable, Overwrite;
    ghost var s := b[..];
    var t: nat := b[i.next];
    RunPlace(s, cap, c, litp, lit, outP, r);
    BetweenRunsWalks(s, cap, c, i, litp, lit, outP, r, t);
    var ip := i.next + 1;
    RewriteBetweenRuns(b, litp, c.ip, c.out, i.off, lit + 3 + t);
    var out := CopyLoop(c.out, i.off, i.len);
    assert b[ip..ip + t + 3] == b[..][ip..ip + t + 3];
    litp', lit', outP' := litp, lit + 3 + t + 3, outP;
    c' := Config(AfterRun, ip + t + 3, out + b[ip..ip + t + 3]);
  }

  lemma RunPlace(b: seq<byte>, cap: nat, c: Config, litp: nat, lit: nat, outP: seq<byte>, r: Option<(seq<byte>, nat)>)
    requires Walking(b, cap, c, litp, lit, outP, r) && 3 < lit <= 18
    ensures litp + 1 + lit == c.ip <= |b|
  {
    hide Finish, LeadLow, Lead;
  }

  /** The walk goes on behind the run that takes in the run before, the match and the next run. */
  lemma BetweenRunsWalks(b: seq<byte>, cap: nat, c: Config, i: Instr, litp: nat, lit: nat, outP: seq<byte>, r: Option<(seq<byte>, nat)>, t: byte)
    requires Walking(b, cap, c, litp, lit, outP, r) && Pattern(b, cap, c, i) && i.next == c.ip + 2 && i.len == 3 && lit > 3
    requires t == b[i.next] && 1 <= t < 16 && lit + 3 + t < 16 && litp < c.ip
    ensures var b', ip, ip' := Overwrite(b, litp, lit + 3 + t, c.ip, Produced(c.out, i.off, i.len)), i.next + 1, i.next + 1 + t + 3;
            ip' <= |b| && Walking(b', cap, Config(AfterRun, ip', CopyMatch(c.out, i.off, i.len) + b'[ip..ip']), litp, lit + 3 + t + 3, outP, r)
  {
    hide Finish, CopyMatch, Step, Produced, LeadLow, Lead, Removable, Overwrite;
    var w := Produced(c.out, i.off, i.len);
    ProducedIs(c.out, i.off, i.len);
    BetweenRuns(b, cap, c, litp, lit, outP, w, t);
    OverwriteParts(b, litp, lit + 3 + t, c.ip, w);
    TailSlice(b, Overwrite(b, litp, lit + 3 + t, c.ip, w), i.next + 1, i.next + 1, i.next + 1 + t + 3);
  }

  /** A match, rewritten if one of the five patterns applies. */
  method HandleMatch(b: array<byte>, cap: nat, c: Config, i: Instr, litp: int, lit: nat, ghost outP: seq<byte>, ghost r: Option<(seq<byte>, nat)>)
    returns (c': Config, litp': int, lit': nat, ghost outP': seq<byte>)
    requires Walking(b[..], cap, c, litp, lit, outP, r) && c.ip < b.Length && i.Copy? && i == Parse(b[..], c.mode, c.ip)
    requires Step(b[..], cap, c) == TakeMatch(c, i) && 1 <= i.off <= |c.out|
    modifies b
    ensures Walking(b[..], cap, c', litp', lit', outP', r) && c.ip < c'.ip
    ensures b[..] == if litp >= 0 && Replaceable(old(b[..]), c, i, lit) then Rewritten(old(b[..]), c, i, litp, lit) else old(b[..])
  {
    hide Anchored, Finish, Parse, CopyMatch, ReadCount, Step, Rewritten;
    ghost var s := b[..];
    var t: nat, nl := b[c.ip], b[i.next - 2] % 4;
    if litp >= 0 && nl == 0 {
      CanRemove(s, cap, c, i);
      SizeOf(s, c.mode, c.ip);
      var k: nat, f: nat := i.len, b[i.next];
      var short := (t < 16 && c.mode != AfterRun && k == 2) || (16 <= t < 64 && k == 3);
      if short && f >= 16 && lit + k == 3 {
        c', litp', lit', outP' := BetweenMatchesStep(b, cap, c, i, litp, lit, outP, r);
        return;
      } else if short && lit <= 3 && 1 <= f < 16 && lit + k + f < 16 {
        c', litp', lit', outP' := BeforeRunStep(b, cap, c, i, litp, lit, outP, r);
        return;
      } else if t >= 64 && k == 3 && lit > 3 && 1 <= f < 16 && lit + 3 + f < 16 {
        c', litp', lit', outP' := BetweenRunsStep(b, cap, c, i, litp, lit, outP, r);
        return;
      }
    }
    c', litp', lit', outP' := PassMatch(b, cap, c, i, litp, lit, outP, r);
  }

  /** Main result: the rewritten block decodes to the same output and ends at the same place.  The
      block handed in must be one that the plain walk decodes. */
  method Optimize(b: array<byte>, cap: nat) returns (out: seq<byte>, end: nat)
    requires b.Length <= MAX_BLOCK && Decode(b[..], cap).Some?
    modifies b
    ensures Decode(b[..], cap) == old(Decode(b[..], cap)) == Some((out, end))
  {
    hide Anchored, Finish, Parse, CopyMatch, ReadCount, Step, AtStart;
    ghost var r := Decode(b[..], cap);
    var c, litp, lit := FirstRun(b, cap, r);
    ghost var outP := [];
    while true
      invariant Walking(b[..], cap, c, litp, lit, outP, r)
      decreases b.Length - c.ip
    {
      NotStuck(b[..], cap, c);
      AnchorDecode(b[..], cap, c, litp, lit, outP);
      if c.mode == Top && b[c.ip] < 16 {
        ghost var outP' := c.out;
        c, litp, lit := TakeRun(b, cap, c, litp, lit, outP, r);
        outP := outP';
      } else {
        var i := ReadMatch(b, c.mode, c.ip);
        if i.EndMark? {
          out, end := c.out, i.next;
          return;
        }
        c, litp, lit, outP := HandleMatch(b, cap, c, i, litp, lit, outP, r);
      }
    }
  }

  /** The literals in front of the first instruction. */
  method FirstRun(b: array<byte>, cap: nat, ghost r: Option<(seq<byte>, nat)>) returns (c: Config, litp: int, lit: nat)
    requires r == Decode(b[..], cap) && r.Some?
    ensures Walking(b[..], cap, c, litp, lit, [], r)
  {
    hide Parse, CopyMatch, ReadCount;
    litp, lit := -1, 0;
    StartsWell(b[..], cap);
    if b[0] > 17 {
      var t := b[0] - 17;
      c := Config(if t < 4 then AfterLits else AfterRun, 1 + t, b[1..1 + t]);
    } else {
      c := Config(Top, 0, []);
    }
    assert Step(b[..], cap, START) == Next(c) by {
      assert c.ip > 0 ==> [] + b[..][1..c.ip] == c.out;
    }
    LeadStart(b[..], cap);
    FinishStep(b[..], cap, START);
  }

  lemma StartsWell(b: seq<byte>, cap: nat)
    requires Decode(b, cap).Some?
    ensures |b| > 0 && Step(b, cap, START).Next?
  {
    hide Parse, CopyMatch, ReadCount;
  }
}
