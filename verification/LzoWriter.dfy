/** The bytes of the LZO1X format as the compressor writes them (`code_match`, `STORE_RUN`), and that
    the plain walk reads them back. */
module LzoWriter {
  import opened Bits
  import opened Copying
  import opened LzoFormat
  import opened LzoMeaning

  // ----- The codes of a match, class by class -----

  /** What is left of a length: zero bytes for 255 each, then the rest. */
  function Ext(n: nat): (r: seq<byte>)
    requires n >= 1
    ensures |r| >= 1
  {
    if n > 255 then [0] + Ext(n - 255) else [n]
  }

  /** The opcode of a long match with its length; lengths above `max` do not fit the opcode. */
  function LenBytes(marker: nat, len: nat, max: nat): (r: seq<byte>)
    requires 3 <= len && max >= 3 && marker + max <= 257
    ensures |r| >= 1
  {
    if len <= max then [marker + len - 2] else [marker] + Ext(len - max)
  }

  /** Two bytes; length 2, distance up to 1024, only behind one to three literals. */
  function M1Code(off: nat, nl: nat): (r: seq<byte>)
    requires 1 <= off <= 0x400 && nl <= 3
    ensures |r| == 2
  {
    [4 * ((off - 1) % 4) + nl, (off - 1) / 4]
  }

  /** Two bytes; length 3, distance from 2049 to 3072, only behind four or more literals. */
  function MxCode(off: nat, nl: nat): (r: seq<byte>)
    requires 0x801 <= off <= 0xc00 && nl <= 3
    ensures |r| == 2
  {
    [4 * ((off - 0x801) % 4) + nl, (off - 0x801) / 4]
  }

  /** Two bytes; length 3 to 8, distance up to 2048. */
  function M2Code(len: nat, off: nat, nl: nat): (r: seq<byte>)
    requires 3 <= len <= 8 && 1 <= off <= 0x800 && nl <= 3
    ensures |r| == 2
  {
    [32 * (len - 1) + 4 * ((off - 1) % 8) + nl, (off - 1) / 8]
  }

  /** Distance up to 16384. */
  function M3Code(len: nat, off: nat, nl: nat): seq<byte>
    requires 3 <= len && 1 <= off <= 0x4000 && nl <= 3
  {
    LenBytes(32, len, 33) + [4 * ((off - 1) % 64) + nl, (off - 1) / 64]
  }

  /** Distance from 16385 to 49151. */
  function M4Code(len: nat, off: nat, nl: nat): seq<byte>
    requires 3 <= len && 0x4000 < off <= 0xbfff && nl <= 3
  {
    LenBytes(if off < 0x8000 then 16 else 24, len, 9) + [4 * (off % 64) + nl, off / 64 % 256]
  }

  /** The code at ip. */
  ghost predicate Written(b: seq<byte>, ip: nat, code: seq<byte>) {
    ip + |code| <= |b| && b[ip..ip + |code|] == code
  }

  lemma WrittenAt(b: seq<byte>, ip: nat, code: seq<byte>, i: nat)
    requires Written(b, ip, code) && i < |code|
    ensures b[ip + i] == code[i]
  {
    assert b[ip..ip + |code|][i] == code[i];
  }

  lemma WrittenParts(b: seq<byte>, ip: nat, a: seq<byte>, c: seq<byte>)
    requires Written(b, ip, a + c)
    ensures Written(b, ip, a) && Written(b, ip + |a|, c)
  {
    assert b[ip..ip + |a|] == b[ip..ip + |a + c|][..|a|];
    assert b[ip + |a|..ip + |a| + |c|] == b[ip..ip + |a + c|][|a|..];
  }

  lemma {:induction false} ReadExt(b: seq<byte>, ip: nat, n: nat)
    requires n >= 1 && Written(b, ip, Ext(n))
    ensures ReadCount(b, ip) == Some((n, ip + |Ext(n)|))
    decreases n
  {
    WrittenAt(b, ip, Ext(n), 0);
    if n > 255 {
      WrittenParts(b, ip, [0], Ext(n - 255));
      ReadExt(b, ip + 1, n - 255);
    }
  }

  /** Reading a length back: `field` are the low bits of the opcode. */
  lemma ReadLen(b: seq<byte>, ip: nat, marker: nat, len: nat, max: nat)
    requires 3 <= len && max >= 3 && marker + max <= 257 && Written(b, ip, LenBytes(marker, len, max))
    ensures marker <= b[ip] <= marker + max - 2
    ensures Count(b, b[ip] - marker, max - 2, ip + 1) == Some((len - 2, ip + |LenBytes(marker, len, max)|))
  {
    var code := LenBytes(marker, len, max);
    WrittenAt(b, ip, code, 0);
    if len > max {
      WrittenParts(b, ip, [marker], Ext(len - max));
      ReadExt(b, ip + 1, len - max);
    }
  }

  // ----- Every code is parsed as the match it stands for -----

  lemma ParseM1(b: seq<byte>, mode: Mode, ip: nat, off: nat, nl: nat)
    requires 1 <= off <= 0x400 && nl <= 3 && mode != AfterRun && Written(b, ip, M1Code(off, nl))
    ensures Parse(b, mode, ip) == Copy(off, 2, ip + 2) && b[ip] % 4 == nl && b[ip] < 16
  {
    WrittenAt(b, ip, M1Code(off, nl), 0);
    WrittenAt(b, ip, M1Code(off, nl), 1);
  }

  lemma ParseMx(b: seq<byte>, ip: nat, off: nat, nl: nat)
    requires 0x801 <= off <= 0xc00 && nl <= 3 && Written(b, ip, MxCode(off, nl))
    ensures Parse(b, AfterRun, ip) == Copy(off, 3, ip + 2) && b[ip] % 4 == nl && b[ip] < 16
  {
    WrittenAt(b, ip, MxCode(off, nl), 0);
    WrittenAt(b, ip, MxCode(off, nl), 1);
  }

  lemma ParseM2(b: seq<byte>, mode: Mode, ip: nat, len: nat, off: nat, nl: nat)
    requires 3 <= len <= 8 && 1 <= off <= 0x800 && nl <= 3 && Written(b, ip, M2Code(len, off, nl))
    ensures Parse(b, mode, ip) == Copy(off, len, ip + 2) && b[ip] % 4 == nl && b[ip] >= 64
  {
    WrittenAt(b, ip, M2Code(len, off, nl), 0);
    WrittenAt(b, ip, M2Code(len, off, nl), 1);
    M2Fields(len, (off - 1) % 8, nl);
    DivModUnique(off - 1, 8, (off - 1) / 8, (off - 1) % 8);
  }

  lemma M2Fields(len: nat, low: nat, nl: nat)
    requires 3 <= len <= 8 && low < 8 && nl <= 3
    ensures var t := 32 * (len - 1) + 4 * low + nl; 64 <= t < 256 && t / 4 % 8 == low && t / 32 + 1 == len && t % 4 == nl
  {
    DivModUnique(32 * (len - 1) + 4 * low + nl, 32, len - 1, 4 * low + nl);
    DivModUnique(32 * (len - 1) + 4 * low + nl, 4, 8 * (len - 1) + low, nl);
  }

  lemma TwoOffsetBytes(b: seq<byte>, p: nat, v: nat, nl: nat)
    requires v < 0x4000 && nl <= 3 && Written(b, p, [4 * (v % 64) + nl, v / 64])
    ensures p + 1 < |b| && Offset14(b, p) == v && b[p] % 4 == nl
  {
    var code: seq<byte> := [4 * (v % 64) + nl, v / 64];
    WrittenAt(b, p, code, 0);
    WrittenAt(b, p, code, 1);
    DivModUnique(4 * (v % 64) + nl, 4, v % 64, nl);
  }

  lemma ParseM3(b: seq<byte>, mode: Mode, ip: nat, len: nat, off: nat, nl: nat)
    requires 3 <= len && 1 <= off <= 0x4000 && nl <= 3 && Written(b, ip, M3Code(len, off, nl))
    ensures ip < |b| && Parse(b, mode, ip) == Copy(off, len, ip + |M3Code(len, off, nl)|)
    ensures b[ip + |M3Code(len, off, nl)| - 2] % 4 == nl && b[ip] >= 32
  {
    hide Count, Offset14, LenBytes, Written;
    var head, tail: seq<byte> := LenBytes(32, len, 33), [4 * ((off - 1) % 64) + nl, (off - 1) / 64];
    WrittenParts(b, ip, head, tail);
    ReadLen(b, ip, 32, len, 33);
    TwoOffsetBytes(b, ip + |head|, off - 1, nl);
    assert b[ip] % 32 == b[ip] - 32;
  }

  lemma ParseM4(b: seq<byte>, mode: Mode, ip: nat, len: nat, off: nat, nl: nat)
    requires 3 <= len && 0x4000 < off <= 0xbfff && nl <= 3 && Written(b, ip, M4Code(len, off, nl))
    ensures ip < |b| && Parse(b, mode, ip) == Copy(off, len, ip + |M4Code(len, off, nl)|)
    ensures b[ip + |M4Code(len, off, nl)| - 2] % 4 == nl && b[ip] >= 16
  {
    hide Count, Offset14, LenBytes, Written;
    var marker, v := if off < 0x8000 then 16 else 24, off % 0x4000;
    assert off % 64 == v % 64 && off / 64 % 256 == v / 64 by { LowFourteen(off); }
    var head, tail: seq<byte> := LenBytes(marker, len, 9), [4 * (off % 64) + nl, off / 64 % 256];
    WrittenParts(b, ip, head, tail);
    ReadLen(b, ip, marker, len, 9);
    TwoOffsetBytes(b, ip + |head|, v, nl);
    assert b[ip] % 8 == b[ip] - marker && (b[ip] % 16 >= 8 <==> marker == 24);
  }

  lemma LowFourteen(off: nat)
    requires off < 0x1_0000
    ensures off % 64 == off % 0x4000 % 64 && off / 64 % 256 == off % 0x4000 / 64
  {
    var q, v := off / 0x4000, off % 0x4000;
    DivModUnique(off, 64, 256 * q + v / 64, v % 64);
    DivModUnique(256 * q + v / 64, 256, q, v / 64);
  }

  // ----- Every match parsed is such a code -----

  /** The code at ip that a match was parsed from, with its class and range. */
  ghost predicate CodeOf(b: seq<byte>, mode: Mode, ip: nat, off: nat, len: nat, next: nat) {
    && ip + 2 <= next <= |b|
    && var nl := b[next - 2] % 4;
       if b[ip] < 16 then
         if mode == AfterRun then len == 3 && 0x801 <= off <= 0xc00 && b[ip..next] == MxCode(off, nl)
         else len == 2 && 1 <= off <= 0x400 && b[ip..next] == M1Code(off, nl)
       else if b[ip] >= 64 then 3 <= len <= 8 && 1 <= off <= 0x800 && b[ip..next] == M2Code(len, off, nl)
       else if b[ip] >= 32 then 3 <= len && 1 <= off <= 0x4000 && b[ip..next] == M3Code(len, off, nl)
       else 3 <= len && 0x4000 < off <= 0xbfff && b[ip..next] == M4Code(len, off, nl)
  }

  lemma {:induction false} ExtOf(b: seq<byte>, ip: nat)
    requires ReadCount(b, ip).Some?
    ensures var r := ReadCount(b, ip).value; r.0 >= 1 && b[ip..r.1] == Ext(r.0)
    decreases |b| - ip
  {
    if b[ip] == 0 {
      ExtOf(b, ip + 1);
      var r := ReadCount(b, ip).value;
      assert b[ip..r.1] == [b[ip]] + b[ip + 1..r.1];
    }
  }

  lemma LenOf(b: seq<byte>, ip: nat, marker: nat, max: nat)
    requires ip < |b| && max >= 3 && marker + max <= 257 && marker <= b[ip] <= marker + max - 2
    requires Count(b, b[ip] - marker, max - 2, ip + 1).Some?
    ensures var r := Count(b, b[ip] - marker, max - 2, ip + 1).value;
            r.0 >= 1 && r.1 <= |b| && b[ip..r.1] == LenBytes(marker, r.0 + 2, max)
  {
    var r := Count(b, b[ip] - marker, max - 2, ip + 1).value;
    if b[ip] == marker {
      ExtOf(b, ip + 1);
      assert b[ip..r.1] == [b[ip]] + b[ip + 1..r.1];
    }
  }

  lemma OffsetOf(b: seq<byte>, p: nat)
    requires p + 1 < |b|
    ensures var v := Offset14(b, p); v < 0x4000 && b[p..p + 2] == [4 * (v % 64) + b[p] % 4, v / 64]
  {
    var lo: nat, hi: nat := b[p], b[p + 1];
    DivModUnique(lo / 4 + hi * 64, 64, hi, lo / 4);
    assert lo == 4 * (lo / 4) + lo % 4;
  }

  /** Main lemma: what is parsed as a match is the code that stands for it, in the range of its class. */
  lemma ParsedIsCode(b: seq<byte>, mode: Mode, ip: nat)
    requires ip < |b| && Parse(b, mode, ip).Copy?
    ensures var i := Parse(b, mode, ip); CodeOf(b, mode, ip, i.off, i.len, i.next)
  {
    if b[ip] < 16 || b[ip] >= 64 {
      ParsedShort(b, mode, ip);
    } else if b[ip] >= 32 {
      ParsedM3(b, mode, ip);
    } else {
      ParsedM4(b, mode, ip);
    }
  }

  lemma ParsedShort(b: seq<byte>, mode: Mode, ip: nat)
    requires ip < |b| && Parse(b, mode, ip).Copy? && (b[ip] < 16 || b[ip] >= 64)
    ensures var i := Parse(b, mode, ip); CodeOf(b, mode, ip, i.off, i.len, i.next)
  {
    var t: nat, x: nat := b[ip], b[ip + 1];
    assert b[ip..ip + 2] == [t, x];
    if t >= 64 {
      DivModUnique(t / 4 % 8 + x * 8, 8, x, t / 4 % 8);
      OpcodeParts(t);
    } else {
      DivModUnique(t / 4 + x * 4, 4, x, t / 4);
    }
  }

  lemma OpcodeParts(t: nat)
    ensures t == 32 * (t / 32) + 4 * (t / 4 % 8) + t % 4
  {
    DivModUnique(t / 4, 8, t / 32, t / 4 % 8) by { DivModUnique(t, 32, t / 4 / 8, 4 * (t / 4 % 8) + t % 4); }
  }

  lemma SliceJoin(b: seq<byte>, i: nat, j: nat, k: nat)
    requires i <= j <= k <= |b|
    ensures b[i..k] == b[i..j] + b[j..k]
  {
  }

  lemma ParsedM3(b: seq<byte>, mode: Mode, ip: nat)
    requires ip < |b| && Parse(b, mode, ip).Copy? && 32 <= b[ip] < 64
    ensures var i := Parse(b, mode, ip); CodeOf(b, mode, ip, i.off, i.len, i.next)
  {
    hide Count, Offset14, LenBytes;
    var i := Parse(b, mode, ip);
    assert b[ip] % 32 == b[ip] - 32;
    LenOf(b, ip, 32, 33);
    OffsetOf(b, i.next - 2);
    SliceJoin(b, ip, i.next - 2, i.next);
  }

  lemma ParsedM4(b: seq<byte>, mode: Mode, ip: nat)
    requires ip < |b| && Parse(b, mode, ip).Copy? && 16 <= b[ip] < 32
    ensures var i := Parse(b, mode, ip); CodeOf(b, mode, ip, i.off, i.len, i.next)
  {
    hide Parse, Count, Offset14, LenBytes;
    M4Fields(b, mode, ip);
    var i, marker := Parse(b, mode, ip), if b[ip] < 24 then 16 else 24;
    LenOf(b, ip, marker, 9);
    OffsetOf(b, i.next - 2);
    M4Bytes(i.off, Offset14(b, i.next - 2), b[ip] >= 24);
    SliceJoin(b, ip, i.next - 2, i.next);
  }

  lemma M4Fields(b: seq<byte>, mode: Mode, ip: nat)
    requires ip < |b| && Parse(b, mode, ip).Copy? && 16 <= b[ip] < 32
    ensures var i, marker := Parse(b, mode, ip), if b[ip] < 24 then 16 else 24;
            && Count(b, b[ip] - marker, 7, ip + 1) == Some((i.len - 2, i.next - 2)) && ip + 3 <= i.next <= |b|
            && i.off == 0x4000 + (if b[ip] >= 24 then 0x4000 else 0) + Offset14(b, i.next - 2) && i.off != 0x4000
  {
    hide Count, Offset14;
    assert b[ip] % 8 == b[ip] - (if b[ip] < 24 then 16 else 24) && (b[ip] % 16 >= 8 <==> b[ip] >= 24);
  }

  lemma M4Bytes(off: nat, v: nat, high: bool)
    requires v < 0x4000 && off == 0x4000 + (if high then 0x4000 else 0) + v && off != 0x4000
    ensures 0x4000 < off <= 0xbfff && (high <==> off >= 0x8000) && off % 64 == v % 64 && off / 64 % 256 == v / 64
  {
    LowFourteen(off);
  }

  // ----- Whole blocks -----

  /** Literals, and the match behind them. */
  datatype Piece = Piece(lits: seq<byte>, len: nat, off: nat)

  /** A match that can be coded behind `run` literals. */
  predicate Codable(len: nat, off: nat, run: nat) {
    off >= 1 && if len == 2 then off <= 0x400 && 1 <= run <= 3 else len >= 3 && off <= 0xbfff
  }

  /** `code_match`, with the number of literals that follow, if they are at most three. */
  function MatchCode(len: nat, off: nat, run: nat, nl: nat): (r: seq<byte>)
    requires Codable(len, off, run) && nl <= 3
    ensures |r| >= 2
  {
    if len == 2 then M1Code(off, nl)
    else if len <= 8 && off <= 0x800 then M2Code(len, off, nl)
    else if len == 3 && off <= 0xc00 && run >= 4 then MxCode(off, nl)
    else if off <= 0x4000 then M3Code(len, off, nl)
    else M4Code(len, off, nl)
  }

  /** `STORE_RUN`: up to three literals are announced by the match before them. */
  function RunCode(lits: seq<byte>): (r: seq<byte>)
    ensures |r| >= |lits|
  {
    if |lits| <= 3 then lits
    else if |lits| <= 18 then [|lits| - 3] + lits
    else [0] + Ext(|lits| - 18) + lits
  }

  /** The run that a block begins with. */
  function StartCode(lits: seq<byte>): seq<byte> {
    if lits == [] then [] else if |lits| <= 238 then [17 + |lits|] + lits else RunCode(lits)
  }

  function FirstLits(ps: seq<Piece>, tail: seq<byte>): seq<byte> {
    if ps == [] then tail else ps[0].lits
  }

  /** How many literals the match before announces. */
  function Announced(ps: seq<Piece>, tail: seq<byte>): (n: nat)
    ensures n <= 3
  {
    var n := |FirstLits(ps, tail)|;
    if n <= 3 then n else 0
  }

  /** Every match can be coded and reaches no further back than the output; n bytes have been output. */
  ghost predicate Writable(n: nat, ps: seq<Piece>)
    decreases |ps|
  {
    ps == [] || (Codable(ps[0].len, ps[0].off, |ps[0].lits|) && ps[0].off <= n + |ps[0].lits|
                 && Writable(n + |ps[0].lits| + ps[0].len, ps[1..]))
  }

  /** What the pieces stand for. */
  ghost function Expand(out: seq<byte>, ps: seq<Piece>, tail: seq<byte>): (r: seq<byte>)
    requires Writable(|out|, ps)
    ensures |r| >= |out + FirstLits(ps, tail)|
    decreases |ps|
  {
    if ps == [] then out + tail
    else Expand(CopyMatch(out + ps[0].lits, ps[0].off, ps[0].len), ps[1..], tail)
  }

  /** The bytes behind the literals of the first piece. */
  ghost function Body(n: nat, ps: seq<Piece>, tail: seq<byte>): seq<byte>
    requires Writable(n, ps)
    decreases |ps|
  {
    if ps == [] then [17, 0, 0]
    else
      var p := ps[0];
      MatchCode(p.len, p.off, |p.lits|, Announced(ps[1..], tail))
      + (RunCode(FirstLits(ps[1..], tail)) + Body(n + |p.lits| + p.len, ps[1..], tail))
  }

  /** A block as the compressor writes it. */
  ghost function Block(ps: seq<Piece>, tail: seq<byte>): seq<byte>
    requires Writable(0, ps)
  {
    StartCode(FirstLits(ps, tail)) + Body(0, ps, tail)
  }

  function ModeBehind(run: nat): Mode {
    if run == 0 then Top else if run <= 3 then AfterLits else AfterRun
  }

  lemma ParseMatch(b: seq<byte>, ip: nat, len: nat, off: nat, run: nat, nl: nat)
    requires Codable(len, off, run) && nl <= 3 && Written(b, ip, MatchCode(len, off, run, nl))
    ensures var next := ip + |MatchCode(len, off, run, nl)|;
            && ip < |b| && Parse(b, ModeBehind(run), ip) == Copy(off, len, next)
            && b[next - 2] % 4 == nl && (run == 0 ==> b[ip] >= 16)
  {
    hide Parse, Written, M1Code, M2Code, MxCode, M3Code, M4Code;
    var mode := ModeBehind(run);
    WrittenAt(b, ip, MatchCode(len, off, run, nl), 0);
    if len == 2 {
      ParseM1(b, mode, ip, off, nl);
    } else if len <= 8 && off <= 0x800 {
      ParseM2(b, mode, ip, len, off, nl);
    } else if len == 3 && off <= 0xc00 && run >= 4 {
      ParseMx(b, ip, off, nl);
    } else if off <= 0x4000 {
      ParseM3(b, mode, ip, len, off, nl);
    } else {
      ParseM4(b, mode, ip, len, off, nl);
    }
  }

  /** The rest of b from ip on. */
  ghost predicate Ends(b: seq<byte>, ip: nat, code: seq<byte>) {
    ip <= |b| && b[ip..] == code
  }

  lemma EndsParts(b: seq<byte>, ip: nat, a: seq<byte>, c: seq<byte>)
    requires Ends(b, ip, a + c)
    ensures Written(b, ip, a) && Ends(b, ip + |a|, c)
  {
    assert b[ip..ip + |a|] == b[ip..][..|a|];
    assert b[ip + |a|..] == b[ip..][|a|..];
  }

  /** From the opcode of a match, or the end marker, on. */
  lemma {:induction false} BodyDecodes(b: seq<byte>, cap: nat, ip: nat, out0: seq<byte>, ps: seq<Piece>, tail: seq<byte>)
    requires Writable(|out0|, ps) && |Expand(out0, ps, tail)| <= cap && Ends(b, ip, Body(|out0|, ps, tail))
    ensures Finish(b, cap, Config(ModeBehind(|FirstLits(ps, tail)|), ip, out0 + FirstLits(ps, tail))) == Some((Expand(out0, ps, tail), |b|))
    decreases |ps|, 0
  {
    hide Parse, CopyMatch, MatchCode, RunCode, Step, Announced;
    var lits := FirstLits(ps, tail);
    var c := Config(ModeBehind(|lits|), ip, out0 + lits);
    if ps == [] {
      EndParsed(b, c.mode, ip);
      EndStep(b, cap, c, ip + 3);
      FinishEof(b, cap, c);
    } else {
      var p, rest := ps[0], ps[1..];
      var code := MatchCode(p.len, p.off, |p.lits|, Announced(rest, tail));
      EndsParts(b, ip, code, RunCode(FirstLits(rest, tail)) + Body(|out0| + |p.lits| + p.len, rest, tail));
      ParseMatch(b, ip, p.len, p.off, |p.lits|, Announced(rest, tail));
      MatchStep(b, cap, c, p.off, p.len, ip + |code|);
      FinishStep(b, cap, c);
      RunDecodes(b, cap, ip + |code|, CopyMatch(c.out, p.off, p.len), rest, tail);
    }
  }

  lemma EndParsed(b: seq<byte>, mode: Mode, ip: nat)
    requires Ends(b, ip, [17, 0, 0])
    ensures ip + 3 == |b| && b[ip] == 17 && Parse(b, mode, ip) == EndMark(ip + 3)
  {
    assert b[ip..][0] == 17 && b[ip..][1] == 0 && b[ip..][2] == 0;
  }

  lemma MatchStep(b: seq<byte>, cap: nat, c: Config, off: nat, len: nat, next: nat)
    requires c.mode != Start && c.mode != MatchDone && c.ip < |b| && |c.out| <= cap && (c.mode == Top ==> b[c.ip] >= 16)
    requires Parse(b, c.mode, c.ip) == Copy(off, len, next) && 1 <= off <= |c.out|
    ensures Step(b, cap, c) == Next(Config(MatchDone, next, CopyMatch(c.out, off, len)))
  {
    hide Parse, CopyMatch;
  }

  lemma EndStep(b: seq<byte>, cap: nat, c: Config, next: nat)
    requires c.mode != Start && c.mode != MatchDone && c.ip < |b| && |c.out| <= cap && (c.mode == Top ==> b[c.ip] >= 16)
    requires Parse(b, c.mode, c.ip) == EndMark(next)
    ensures Step(b, cap, c) == Eof(next)
  {
    hide Parse;
  }

  lemma FinishEof(b: seq<byte>, cap: nat, c: Config)
    requires c.ip < |b| && Step(b, cap, c).Eof?
    ensures Finish(b, cap, c) == Some((c.out, Step(b, cap, c).end))
  {
    hide Step;
  }

  /** Behind a match: the literals it announces, or a run, and what follows. */
  lemma {:induction false} RunDecodes(b: seq<byte>, cap: nat, ip: nat, out: seq<byte>, ps: seq<Piece>, tail: seq<byte>)
    requires Writable(|out|, ps) && |Expand(out, ps, tail)| <= cap && ip >= 2
    requires Ends(b, ip, RunCode(FirstLits(ps, tail)) + Body(|out|, ps, tail)) && b[ip - 2] % 4 == Announced(ps, tail)
    ensures Finish(b, cap, Config(MatchDone, ip, out)) == Some((Expand(out, ps, tail), |b|))
    decreases |ps|, 1
  {
    hide Parse, Expand, Body, Count, Ext;
    var lits := FirstLits(ps, tail);
    var c := Config(MatchDone, ip, out);
    EndsParts(b, ip, RunCode(lits), Body(|out|, ps, tail));
    BodyDecodes(b, cap, ip + |RunCode(lits)|, out, ps, tail);
    FinishStep(b, cap, c);
    if |lits| == 0 {
      assert out + lits == out;
    } else if |lits| > 3 {
      RunStep(b, cap, Config(Top, ip, out), lits);
      FinishStep(b, cap, Config(Top, ip, out));
    }
  }

  /** A run of four or more literals. */
  lemma RunStep(b: seq<byte>, cap: nat, c: Config, lits: seq<byte>)
    requires c.mode == Top && |lits| > 3 && Written(b, c.ip, RunCode(lits)) && |c.out| <= cap
    ensures Step(b, cap, c) == Next(Config(AfterRun, c.ip + |RunCode(lits)|, c.out + lits))
  {
    hide Ext, ReadCount;
    WrittenAt(b, c.ip, RunCode(lits), 0);
    if |lits| <= 18 {
      WrittenParts(b, c.ip, [|lits| - 3], lits);
    } else {
      var ext := Ext(|lits| - 18);
      WrittenParts(b, c.ip, [0] + ext, lits);
      WrittenParts(b, c.ip, [0], ext);
      ReadExt(b, c.ip + 1, |lits| - 18);
    }
  }

  /** Main result: the walk decodes a block written by the compressor to what its pieces stand for. */
  lemma BlockDecodes(ps: seq<Piece>, tail: seq<byte>, cap: nat)
    requires Writable(0, ps) && (ps == [] || ps[0].lits != []) && |Expand([], ps, tail)| <= cap
    ensures Decode(Block(ps, tail), cap) == Some((Expand([], ps, tail), |Block(ps, tail)|))
  {
    hide Expand, Body, Finish, StartCode;
    var b, lits, body := Block(ps, tail), FirstLits(ps, tail), Body(0, ps, tail);
    assert b[0..] == b;
    EndsParts(b, 0, StartCode(lits), body);
    if lits == [] { NothingWritten(tail); }
    StartDecodes(b, cap, lits);
    BodyDecodes(b, cap, |StartCode(lits)|, [], ps, tail);
    assert [] + lits == lits;
  }

  lemma NothingWritten(tail: seq<byte>)
    ensures Body(0, [], tail) == [17, 0, 0] && StartCode([]) == []
  {
  }

  /** The literals at the start. */
  lemma StartDecodes(b: seq<byte>, cap: nat, lits: seq<byte>)
    requires Written(b, 0, StartCode(lits)) && (lits == [] ==> Ends(b, 0, [17, 0, 0]))
    ensures Finish(b, cap, START) == Finish(b, cap, Config(ModeBehind(|lits|), |StartCode(lits)|, lits))
  {
    hide Parse, Count, Ext, Finish;
    if lits == [] {
      EndParsed(b, Top, 0);
      FinishStep(b, cap, START);
    } else if |lits| <= 238 {
      WrittenAt(b, 0, StartCode(lits), 0);
      WrittenParts(b, 0, [17 + |lits|], lits);
      FinishStep(b, cap, START);
      assert [] + lits == lits;
    } else {
      LongStart(b, cap, lits);
    }
  }

  lemma LongStart(b: seq<byte>, cap: nat, lits: seq<byte>)
    requires |lits| > 238 && Written(b, 0, RunCode(lits))
    ensures Finish(b, cap, START) == Finish(b, cap, Config(AfterRun, |RunCode(lits)|, lits))
  {
    hide Parse, Count, Ext, Finish;
    WrittenAt(b, 0, RunCode(lits), 0);
    FinishStep(b, cap, START);
    hide RunCode, Written, Step;
    RunStep(b, cap, Config(Top, 0, []), lits);
    FinishStep(b, cap, Config(Top, 0, []));
    assert [] + lits == lits;
  }
}
