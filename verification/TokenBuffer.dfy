/** The packed token buffers: literals and lengths in `l_buf`, distances in `d_buf`, and one
    flag bit per token in `flag_buf`, least significant bit first. */
module TokenBuffers {
  import opened Bits
  import opened BitWriting
  import opened Tokens
  import opened Rfc1951
  import opened CodeTables
  import opened TreeHeader

  const LIT_BUFSIZE: nat := 0x2000
  const DIST_BUFSIZE: nat := 0x2000

  /** What goes into l_buf for a token. */
  function LcOf(t: Token): byte
    requires t.Valid()
  {
    if t.Literal? then t.b else t.len - 3
  }

  /** Distances minus one of the matches, in order. */
  function Dists(ts: seq<Token>): (r: seq<nat>)
    requires AllValid(ts)
    ensures |r| <= |ts|
  {
    if ts == [] then []
    else
      var t := ts[|ts| - 1];
      Dists(ts[..|ts| - 1]) + if t.Match? then [t.dist - 1] else []
  }

  function Flags(ts: seq<Token>): (r: seq<bool>)
    ensures |r| == |ts|
  {
    seq(|ts|, i requires 0 <= i < |ts| => ts[i].Match?)
  }

  /** The tokens of group j of eight; the last group may be shorter. */
  function Group(ts: seq<Token>, j: nat): (r: seq<Token>)
    requires 8 * j <= |ts|
    ensures |r| == if |ts| < 8 * j + 8 then |ts| - 8 * j else 8
  {
    if |ts| < 8 * j + 8 then ts[8 * j..] else ts[8 * j..8 * j + 8]
  }

  function FlagByte(ts: seq<Token>, j: nat): (r: nat)
    requires 8 * j <= |ts|
  {
    ValueOf(Flags(Group(ts, j)))
  }

  /** The buffers and their running indices. */
  datatype Pack = Pack(lbuf: seq<byte>, dbuf: seq<nat>, fbuf: seq<byte>,
                       lastLit: nat, lastDist: nat, lastFlags: nat, flags: nat, flagBit: nat)

  ghost predicate LitsOk(lbuf: seq<byte>, ts: seq<Token>) {
    |ts| <= |lbuf| && forall i :: 0 <= i < |ts| ==> ts[i].Valid() && lbuf[i] == LcOf(ts[i])
  }

  /** The first n groups of flags have been saved. */
  ghost predicate GroupsOk(fbuf: seq<byte>, ts: seq<Token>, n: nat) {
    n <= |fbuf| && 8 * n <= |ts| && forall j :: 0 <= j < n ==> fbuf[j] == FlagByte(ts, j)
  }

  ghost predicate Packed(p: Pack, ts: seq<Token>) {
    && AllValid(ts) && |ts| < LIT_BUFSIZE
    && |p.lbuf| == LIT_BUFSIZE && |p.dbuf| == DIST_BUFSIZE && |p.fbuf| == LIT_BUFSIZE / 8
    && p.lastLit == |ts| && p.lastDist == |Dists(ts)| && p.lastFlags == |ts| / 8
    && LitsOk(p.lbuf, ts)
    && p.dbuf[..p.lastDist] == Dists(ts)
    && GroupsOk(p.fbuf, ts, |ts| / 8)
    && p.flags == FlagByte(ts, |ts| / 8)
    && p.flagBit == Pow2(|ts| % 8)
  }

  /** Storing one token: lc as in l_buf, dist the distance or zero for a literal. */
  function Push(p: Pack, dist: nat, lc: byte): Pack
    requires p.lastLit < |p.lbuf| && p.lastDist < |p.dbuf| && p.lastFlags < |p.fbuf|
  {
    var lbuf := p.lbuf[p.lastLit := lc];
    var lit := p.lastLit + 1;
    var isMatch := dist != 0;
    var dbuf := if isMatch then p.dbuf[p.lastDist := dist - 1] else p.dbuf;
    var ld := if isMatch then p.lastDist + 1 else p.lastDist;
    var flags := if isMatch then Or(p.flags, p.flagBit) else p.flags;
    if lit % 8 == 0 then
      Pack(lbuf, dbuf, p.fbuf[p.lastFlags := Wrap8(flags)], lit, ld, p.lastFlags + 1, 0, 1)
    else
      Pack(lbuf, dbuf, p.fbuf, lit, ld, p.lastFlags, flags, Wrap8(2 * p.flagBit))
  }

  lemma {:induction false} ValueOfSnoc(b: seq<bool>, x: bool)
    ensures ValueOf(b + [x]) == ValueOf(b) + if x then Pow2(|b|) else 0
  {
    if b == [] {
      assert b + [x] == [x] && [x][1..] == [];
    } else {
      assert (b + [x])[1..] == b[1..] + [x];
      ValueOfSnoc(b[1..], x);
    }
  }

  /** The flag byte of the running group after one more token. */
  lemma FlagSnoc(ts: seq<Token>, t: Token)
    ensures var k, j := |ts| % 8, |ts| / 8;
            && FlagByte(ts, j) < Pow2(k)
            && FlagByte(ts + [t], j) == (if t.Match? then Or(FlagByte(ts, j), Pow2(k)) else FlagByte(ts, j))
            && FlagByte(ts + [t], j) < Pow2(k + 1) && Pow2(k + 1) <= 256
  {
    hide ValueOf, Or;
    var k, j := |ts| % 8, |ts| / 8;
    var g := Group(ts, j);
    assert |g| == k;
    assert Group(ts + [t], j) == g + [t];
    assert Flags(g + [t]) == Flags(g) + [t.Match?];
    ValueOfSnoc(Flags(g), t.Match?);
    OrDisjoint(FlagByte(ts, j), 1, k);
    assert Pow2(8) == 256;
    Pow2Mono(k + 1, 8);
  }

  lemma SameGroups(ts: seq<Token>, t: Token, j: nat)
    requires 8 * j + 8 <= |ts|
    ensures FlagByte(ts + [t], j) == FlagByte(ts, j)
  {
    assert Group(ts + [t], j) == Group(ts, j);
  }

  lemma EmptyGroup(ts: seq<Token>)
    requires |ts| % 8 == 0
    ensures FlagByte(ts, |ts| / 8) == 0
  {
    assert Group(ts, |ts| / 8) == [];
  }

  lemma LitsMore(lbuf: seq<byte>, ts: seq<Token>, t: Token)
    requires LitsOk(lbuf, ts) && t.Valid() && |ts| < |lbuf|
    ensures LitsOk(lbuf[|ts| := LcOf(t)], ts + [t])
  {
  }

  lemma DistsMore(dbuf: seq<nat>, ts: seq<Token>, t: Token)
    requires AllValid(ts) && t.Valid() && |Dists(ts)| < |dbuf| && dbuf[..|Dists(ts)|] == Dists(ts)
    ensures AllValid(ts + [t]) && Dists(ts + [t]) == Dists(ts) + if t.Match? then [t.dist - 1] else []
    ensures t.Match? ==> dbuf[|Dists(ts)| := t.dist - 1][..|Dists(ts)| + 1] == Dists(ts + [t])
  {
    assert (ts + [t])[..|ts|] == ts;
    assert Dists(ts + [t]) == Dists(ts) + if t.Match? then [t.dist - 1] else [];
    if t.Match? { PutNext(dbuf, |Dists(ts)|, t.dist - 1); }
  }

  lemma PutNext(s: seq<nat>, n: nat, v: nat)
    requires n < |s|
    ensures s[n := v][..n + 1] == s[..n] + [v]
  {
  }

  /** The flags after one more token. */
  lemma FlagsMore(fbuf: seq<byte>, ts: seq<Token>, t: Token, flags: nat)
    requires GroupsOk(fbuf, ts, |ts| / 8) && |ts| / 8 < |fbuf| && |ts| + 1 < LIT_BUFSIZE
    requires flags == if t.Match? then Or(FlagByte(ts, |ts| / 8), Pow2(|ts| % 8)) else FlagByte(ts, |ts| / 8)
    ensures var ts' := ts + [t];
            if |ts'| % 8 == 0 then
              && flags < 256 && |ts'| / 8 == |ts| / 8 + 1 && GroupsOk(fbuf[|ts| / 8 := flags], ts', |ts'| / 8) && FlagByte(ts', |ts'| / 8) == 0
            else
              && |ts'| / 8 == |ts| / 8 && |ts'| % 8 == |ts| % 8 + 1 && GroupsOk(fbuf, ts', |ts'| / 8) && FlagByte(ts', |ts'| / 8) == flags
  {
    hide ValueOf, FlagByte, Or;
    var ts', j := ts + [t], |ts| / 8;
    FlagSnoc(ts, t);
    forall i | 0 <= i < j ensures FlagByte(ts', i) == FlagByte(ts, i) { SameGroups(ts, t, i); }
    if |ts'| % 8 == 0 { EmptyGroup(ts'); }
  }

  lemma NextBit(k: nat)
    requires k < 7
    ensures Wrap8(2 * Pow2(k)) == Pow2(k + 1)
  {
    assert Pow2(7) == 128;
    Pow2Mono(k + 1, 7);
  }

  /** Storing a token appends it to the list. */
  lemma PushPacked(p: Pack, ts: seq<Token>, t: Token)
    requires Packed(p, ts) && t.Valid() && |ts| + 1 < LIT_BUFSIZE
    ensures p.lastLit < |p.lbuf| && p.lastDist < |p.dbuf| && p.lastFlags < |p.fbuf|
    ensures Packed(Push(p, if t.Match? then t.dist else 0, LcOf(t)), ts + [t])
  {
    hide FlagByte, Or, LitsOk, GroupsOk, Dists, Pow2, Wrap8;
    LitsMore(p.lbuf, ts, t);
    DistsMore(p.dbuf, ts, t);
    var flags := if t.Match? then Or(p.flags, p.flagBit) else p.flags;
    FlagsMore(p.fbuf, ts, t, flags);
    if (|ts| + 1) % 8 == 0 {
      WrapByte(flags);
      PowZero();
    } else {
      NextBit(|ts| % 8);
    }
  }

  lemma WrapByte(v: nat)
    requires v < 256
    ensures Wrap8(v) == v
  {
  }

  lemma PowZero()
    ensures Pow2(0) == 1
  {
  }

  lemma PackedEmpty(p: Pack)
    requires |p.lbuf| == LIT_BUFSIZE && |p.dbuf| == DIST_BUFSIZE && |p.fbuf| == LIT_BUFSIZE / 8
    requires p.lastLit == p.lastDist == p.lastFlags == p.flags == 0 && p.flagBit == 1
    ensures Packed(p, [])
  {
    EmptyGroup([]);
  }

  class TokenBuffer {
    const lBuf: array<byte>
    const dBuf: array<nat>
    const flagBuf: array<byte>
    var lastLit: nat
    var lastDist: nat
    var lastFlags: nat
    var flags: nat
    var flagBit: nat
    /** The tokens stored since the last reset. */
    ghost var tokens: seq<Token>

    ghost function State(): Pack
      reads this, lBuf, dBuf, flagBuf
    {
      Pack(lBuf[..], dBuf[..], flagBuf[..], lastLit, lastDist, lastFlags, flags, flagBit)
    }

    ghost predicate Shape() {
      && lBuf != flagBuf && lBuf as object != dBuf && flagBuf as object != dBuf
      && lBuf.Length == LIT_BUFSIZE && dBuf.Length == DIST_BUFSIZE && flagBuf.Length == LIT_BUFSIZE / 8
    }

    ghost predicate Valid()
      reads this, lBuf, dBuf, flagBuf
    {
      Shape() && Packed(State(), tokens)
    }

    constructor ()
      ensures Shape() && Valid() && tokens == [] && fresh(lBuf) && fresh(dBuf) && fresh(flagBuf)
    {
      lBuf := new byte[LIT_BUFSIZE](_ => 0);
      dBuf := new nat[DIST_BUFSIZE](_ => 0);
      flagBuf := new byte[LIT_BUFSIZE / 8](_ => 0);
      lastLit, lastDist, lastFlags, flags, flagBit := 0, 0, 0, 0, 1;
      tokens := [];
      new;
      PackedEmpty(State());
    }

    /** The part of `init_block` that empties the buffers. */
    method Reset()
      requires Shape()
      modifies this
      ensures Valid() && tokens == []
    {
      lastLit, lastDist, lastFlags, flags, flagBit := 0, 0, 0, 0, 1;
      tokens := [];
      PackedEmpty(State());
    }

    /** The part of `ct_tally` that stores a token: a literal byte when dist is zero, else a match
        length minus three. */
    method Store(dist: nat, lc: byte)
      requires Valid() && |tokens| + 1 < LIT_BUFSIZE && dist <= 32768
      modifies this, lBuf, dBuf, flagBuf
      ensures Valid() && tokens == old(tokens) + [if dist == 0 then Literal(lc) else Match(lc + 3, dist)]
    {
      hide Packed, Or, Wrap8;
      ghost var p, t := State(), if dist == 0 then Literal(lc) else Match(lc + 3, dist);
      PushPacked(p, tokens, t);
      lBuf[lastLit] := lc;
      lastLit := lastLit + 1;
      if dist != 0 {
        dBuf[lastDist] := dist - 1;
        lastDist := lastDist + 1;
        flags := Or(flags, flagBit);
      }
      flagBit := Wrap8(2 * flagBit);
      if lastLit % 8 == 0 {
        flagBuf[lastFlags] := Wrap8(flags);
        lastFlags := lastFlags + 1;
        flags := 0;
        flagBit := 1;
      }
      tokens := tokens + [t];
      assert State() == Push(p, dist, lc);
    }

    /** Saves the flags of the last group, as `flush_block` does first. */
    method SaveFlags()
      requires Valid()
      modifies flagBuf
      ensures Valid() && FlagsSaved()
    {
      ghost var p := State();
      LastGroup(p, tokens);
      flagBuf[lastFlags] := Wrap8(flags);
      SaveKeeps(p, tokens);
      assert State() == p.(fbuf := p.fbuf[p.lastFlags := flags]);
    }

    /** All groups, the last one included, are in flag_buf. */
    ghost predicate FlagsSaved()
      requires Valid()
      reads this, lBuf, dBuf, flagBuf
    {
      GroupsSaved(flagBuf[..], tokens)
    }
  }

  ghost predicate GroupsSaved(fbuf: seq<byte>, ts: seq<Token>) {
    |ts| / 8 < |fbuf| && forall j :: 0 <= j <= |ts| / 8 ==> fbuf[j] == FlagByte(ts, j)
  }

  lemma LastGroup(p: Pack, ts: seq<Token>)
    requires Packed(p, ts)
    ensures p.lastFlags < |p.fbuf| && p.flags < 256
  {
    FlagSnoc(ts, Literal(0));
  }

  lemma SaveKeeps(p: Pack, ts: seq<Token>)
    requires Packed(p, ts) && p.flags < 256
    ensures p.lastFlags < |p.fbuf| && Packed(p.(fbuf := p.fbuf[p.lastFlags := p.flags]), ts)
    ensures GroupsSaved(p.fbuf[p.lastFlags := p.flags], ts)
  {
    hide FlagByte;
  }

  // ----- Replaying the tokens -----

  lemma {:induction false} ValueBit(b: seq<bool>, r: nat)
    requires r < |b|
    ensures Shr(ValueOf(b), r) % 2 == if b[r] then 1 else 0
  {
    if r > 0 { ValueBit(b[1..], r - 1); }
  }

  /** Bit i % 8 of the flag byte of its group tells whether token i is a match. */
  lemma FlagAt(ts: seq<Token>, i: nat)
    requires i < |ts|
    ensures Shr(FlagByte(ts, i / 8), i % 8) % 2 == if ts[i].Match? then 1 else 0
  {
    hide ValueOf, Shr;
    var j, r := i / 8, i % 8;
    assert Group(ts, j)[r] == ts[i];
    ValueBit(Flags(Group(ts, j)), r);
  }

  lemma {:induction false} DistAt(ts: seq<Token>, i: nat)
    requires AllValid(ts) && i < |ts| && ts[i].Match?
    ensures |Dists(ts[..i])| < |Dists(ts)| && Dists(ts)[|Dists(ts[..i])|] == ts[i].dist - 1
    decreases |ts|
  {
    var n := |ts| - 1;
    if i < n {
      DistAt(ts[..n], i);
      assert ts[..n][..i] == ts[..i];
    }
  }

  lemma DistsNext(ts: seq<Token>, i: nat)
    requires AllValid(ts) && i < |ts|
    ensures |Dists(ts[..i + 1])| == |Dists(ts[..i])| + if ts[i].Match? then 1 else 0
  {
    assert ts[..i + 1][..i] == ts[..i];
  }

  // ----- compress_block -----

  /** The mapping tables that `ct_init` fills. */
  datatype Tables = Tables(lengthCode: seq<nat>, baseLength: seq<nat>, distCode: seq<nat>, baseDist: seq<nat>) {
    ghost predicate Valid() {
      && |lengthCode| == 256 && |baseLength| == LENGTH_CODES && |distCode| == 512 && |baseDist| == D_CODES
      && (forall lc :: 0 <= lc < 256 ==> lengthCode[lc] == LengthCodeOf(lc + 3))
      && (forall c :: 0 <= c < 28 ==> baseLength[c] == LBase(c) - 3)
      && (forall d :: 0 <= d < 32768 ==> distCode[DCodeIndex(d)] == DistCodeOf(d + 1))
      && (forall c :: 0 <= c < D_CODES ==> baseDist[c] == DBase(c) - 1)
    }

    /** `D_CODE`. */
    function DCode(dist: nat): nat
      requires |distCode| == 512 && dist < 32768
    {
      if dist < 256 then distCode[dist] else distCode[256 + dist / 128]
    }
  }

  method InitTables() returns (t: Tables)
    ensures t.Valid()
  {
    hide LengthCodeOf, DistCodeOf, LBase, DBase;
    var lengthCode, baseLength := new nat[256](_ => 0), new nat[LENGTH_CODES](_ => 0);
    var distCode, baseDist := new nat[512](_ => 0), new nat[D_CODES](_ => 0);
    InitLengthCodes(lengthCode, baseLength);
    InitDistCodes(distCode, baseDist);
    t := Tables(lengthCode[..], baseLength[..], distCode[..], baseDist[..]);
  }

  /** A code tree as `compress_block` reads it. */
  datatype CodeTree = CodeTree(fc: seq<nat>, dl: seq<nat>)

  ghost predicate Serves(t: CodeTree, lens: seq<nat>, s: nat) {
    s < |t.fc| && s < |t.dl| && CodeReady(t.fc[s], t.dl[s], lens, s)
  }

  ghost predicate ServesToken(lt: CodeTree, dt: CodeTree, l: seq<nat>, d: seq<nat>, t: Token) {
    Codable(l, d, t) && Serves(lt, l, LSym(t)) && (t.Match? ==> Serves(dt, d, DSym(t)))
  }

  /** Both trees have codewords for everything in the block. */
  ghost predicate ServesBlock(lt: CodeTree, dt: CodeTree, l: seq<nat>, d: seq<nat>, ts: seq<Token>) {
    Serves(lt, l, END_BLOCK) && forall i :: 0 <= i < |ts| ==> ServesToken(lt, dt, l, d, ts[i])
  }

  lemma TableLength(tb: Tables, len: nat)
    requires tb.Valid() && 3 <= len <= 258
    ensures var c := tb.lengthCode[len - 3];
            && c == LengthCodeOf(len) && c < LENGTH_CODES && LBase(c) <= len && len - LBase(c) < Pow2(LExtra(c))
            && (LExtra(c) > 0 ==> len - 3 - tb.baseLength[c] == len - LBase(c))
  {
    hide LengthCodeOf, LBase, LExtra, DistCodeOf, DBase;
    LengthCodeFits(len);
    if LengthCodeOf(len) == 28 { LastLengths(); }
  }

  lemma TableDist(tb: Tables, dist: nat)
    requires tb.Valid() && 1 <= dist <= 32768
    ensures var c := tb.DCode(dist - 1);
            && c == DistCodeOf(dist) && c < D_CODES && DBase(c) <= dist && dist - DBase(c) < Pow2(DExtra(c))
            && dist - 1 - tb.baseDist[c] == dist - DBase(c)
  {
    hide LengthCodeOf, LBase, DistCodeOf, DBase, DExtra;
    DistCodeFits(dist);
    assert tb.DCode(dist - 1) == tb.distCode[DCodeIndex(dist - 1)];
  }

  method SendSymbol(w: BitWriter, t: CodeTree, s: nat, ghost lens: seq<nat>)
    requires w.Valid() && Serves(t, lens, s)
    modifies w, w.outbuf
    ensures w.Valid() && w.Sent() == old(w.Sent()) + Codeword(lens, s)
  {
    hide BitsOf, Pow2, Codeword;
    w.SendBits(t.fc[s], t.dl[s]);
  }

  method SendExtra(w: BitWriter, value: nat, extra: nat)
    requires w.Valid() && extra <= 16 && value < Pow2(extra)
    modifies w, w.outbuf
    ensures w.Valid() && w.Sent() == old(w.Sent()) + BitsOf(value, extra)
  {
    if extra != 0 {
      w.SendBits(value, extra);
    }
  }

  method SendLength(w: BitWriter, tables: Tables, lt: CodeTree, lc: byte, ghost l: seq<nat>)
    requires w.Valid() && tables.Valid() && Serves(lt, l, LITERALS + 1 + LengthCodeOf(lc + 3))
    modifies w, w.outbuf
    ensures LBase(LengthCodeOf(lc + 3)) <= lc + 3
    ensures var c := LengthCodeOf(lc + 3);
            w.Valid() && w.Sent() == old(w.Sent()) + Codeword(l, c + LITERALS + 1) + BitsOf(lc + 3 - LBase(c), LExtra(c))
  {
    hide BitsOf, Pow2, Codeword, Serves, Tables.Valid, LengthCodeOf, LBase, LExtra;
    TableLength(tables, lc + 3);
    TableSizes(tables);
    var code := tables.lengthCode[lc];
    SendSymbol(w, lt, code + LITERALS + 1, l);
    var extra := LExtra(code);
    NoExtra(extra, lc + 3 - LBase(code));
    SendExtra(w, if extra != 0 then lc - tables.baseLength[code] else 0, extra);
  }

  method SendDist(w: BitWriter, tables: Tables, dt: CodeTree, dist: nat, ghost d: seq<nat>)
    requires w.Valid() && tables.Valid() && dist < 32768 && Serves(dt, d, DistCodeOf(dist + 1))
    modifies w, w.outbuf
    ensures DBase(DistCodeOf(dist + 1)) <= dist + 1
    ensures var c := DistCodeOf(dist + 1);
            w.Valid() && w.Sent() == old(w.Sent()) + Codeword(d, c) + BitsOf(dist + 1 - DBase(c), DExtra(c))
  {
    hide BitsOf, Pow2, Codeword, Serves, Tables.Valid, Tables.DCode, DistCodeOf, DBase, DExtra;
    TableDist(tables, dist + 1);
    TableSizes(tables);
    var code := tables.DCode(dist);
    SendSymbol(w, dt, code, d);
    SendExtra(w, dist - tables.baseDist[code], DExtra(code));
  }

  method SendMatch(w: BitWriter, tables: Tables, lt: CodeTree, dt: CodeTree, lc: byte, dist: nat, ghost l: seq<nat>, ghost d: seq<nat>)
    requires w.Valid() && tables.Valid() && dist < 32768 && ServesToken(lt, dt, l, d, Match(lc + 3, dist + 1))
    modifies w, w.outbuf
    ensures w.Valid() && w.Sent() == old(w.Sent()) + EncodeToken(l, d, Match(lc + 3, dist + 1))
  {
    hide BitsOf, Pow2, Codeword, Serves, Tables.Valid, LengthCodeOf, DistCodeOf, LBase, DBase, LExtra, DExtra, EncodeToken;
    ghost var start := w.Sent();
    SendLength(w, tables, lt, lc, l);
    SendDist(w, tables, dt, dist, d);
    JoinMatch(start, l, d, lc + 3, dist + 1);
  }

  lemma TableSizes(tb: Tables)
    requires tb.Valid()
    ensures |tb.lengthCode| == 256 && |tb.baseLength| == LENGTH_CODES && |tb.distCode| == 512 && |tb.baseDist| == D_CODES
  {
  }

  lemma NoExtra(extra: nat, v: nat)
    requires v < Pow2(extra)
    ensures extra == 0 ==> v == 0
  {
  }

  lemma JoinMatch(start: seq<bool>, l: seq<nat>, d: seq<nat>, len: nat, dist: nat)
    requires Codable(l, d, Match(len, dist))
    ensures LBase(LengthCodeOf(len)) <= len && DBase(DistCodeOf(dist)) <= dist
    ensures var lc, dc := LengthCodeOf(len), DistCodeOf(dist);
            start + Codeword(l, lc + LITERALS + 1) + BitsOf(len - LBase(lc), LExtra(lc)) + Codeword(d, dc) + BitsOf(dist - DBase(dc), DExtra(dc))
            == start + EncodeToken(l, d, Match(len, dist))
  {
    hide BitsOf, Codeword, LengthCodeOf, DistCodeOf, LBase, DBase, LExtra, DExtra, Pow2;
    LengthCodeFits(len);
    DistCodeFits(dist);
  }

  /** The number stored for token i and its flag, as the replay loop reads them. */
  lemma ReplayAt(p: Pack, ts: seq<Token>, i: nat)
    requires Packed(p, ts) && i < |ts|
    ensures p.lbuf[i] == LcOf(ts[i])
    ensures ts[i].Match? ==> |Dists(ts[..i])| < |p.dbuf| && p.dbuf[|Dists(ts[..i])|] == ts[i].dist - 1
    ensures |Dists(ts[..i + 1])| == |Dists(ts[..i])| + if ts[i].Match? then 1 else 0
  {
    hide FlagByte, Dists;
    DistsNext(ts, i);
    if ts[i].Match? {
      DistAt(ts, i);
      assert p.dbuf[..p.lastDist][|Dists(ts[..i])|] == ts[i].dist - 1;
    }
  }

  /** The flag variable before token i: what is left of its group's byte. */
  ghost function FlagLeft(ts: seq<Token>, i: nat): nat
    requires i <= |ts|
  {
    if i % 8 == 0 then 0 else Shr(FlagByte(ts, i / 8), i % 8)
  }

  lemma FlagStep(fbuf: seq<byte>, ts: seq<Token>, i: nat, flag: nat)
    requires i < |ts| && GroupsSaved(fbuf, ts) && flag == if i % 8 == 0 then fbuf[i / 8] else FlagLeft(ts, i)
    ensures flag % 2 == (if ts[i].Match? then 1 else 0)
    ensures (i + 1) % 8 != 0 ==> flag / 2 == FlagLeft(ts, i + 1)
  {
    hide FlagByte;
    FlagAt(ts, i);
    ShrShr(FlagByte(ts, i / 8), i % 8);
    if (i + 1) % 8 != 0 {
      assert (i + 1) / 8 == i / 8 && (i + 1) % 8 == i % 8 + 1;
    }
  }

  /** The running indices of the replay, before token lx. */
  ghost predicate Replaying(ts: seq<Token>, lx: nat, dx: nat, fx: nat, flag: nat) {
    lx <= |ts| && AllValid(ts) && dx == |Dists(ts[..lx])| && (lx % 8 != 0 ==> flag == FlagLeft(ts, lx)) && fx == (lx + 7) / 8
  }

  /** Reads one token from the buffers. */
  method NextToken(tb: TokenBuffer, lx: nat, dx0: nat, fx0: nat, flag0: nat) returns (isMatch: bool, lc: byte, dist: nat, dx: nat, fx: nat, flag: nat)
    requires tb.Valid() && tb.FlagsSaved() && lx < |tb.tokens| && Replaying(tb.tokens, lx, dx0, fx0, flag0)
    ensures Replaying(tb.tokens, lx + 1, dx, fx, flag)
    ensures var t := tb.tokens[lx]; t.Valid() && isMatch == t.Match? && lc == LcOf(t) && (isMatch ==> dist == t.dist - 1)
  {
    hide FlagByte, Dists, FlagLeft, GroupsSaved;
    ghost var ts, p := tb.tokens, tb.State();
    fx, flag := fx0, flag0;
    SavedSize(p.fbuf, ts, lx);
    if lx % 8 == 0 {
      flag := tb.flagBuf[fx];
      fx := fx + 1;
    }
    FlagStep(p.fbuf, ts, lx, flag);
    ReplayAt(p, ts, lx);
    isMatch, lc, dist, dx := flag % 2 == 1, tb.lBuf[lx], 0, dx0;
    if isMatch {
      dist := tb.dBuf[dx];
      dx := dx + 1;
    }
    flag := flag / 2;
  }

  method CompressBlock(w: BitWriter, tb: TokenBuffer, tables: Tables, lt: CodeTree, dt: CodeTree, ghost l: seq<nat>, ghost d: seq<nat>)
    requires w.Valid() && tb.Valid() && tb.FlagsSaved() && tables.Valid() && ServesBlock(lt, dt, l, d, tb.tokens)
    requires w.outbuf != tb.lBuf && w.outbuf != tb.flagBuf && w.outbuf as object != tb.dBuf
    requires w as object != tb as object
    modifies w, w.outbuf
    ensures w.Valid() && AllCodable(l, d, tb.tokens) && END_BLOCK < |l|
    ensures w.Sent() == old(w.Sent()) + BlockData(l, d, tb.tokens)
  {
    hide Packed, EncodeTokens, EncodeToken, Codeword, Serves, GroupsSaved, Replaying, AllCodable, Tables.Valid, LSym, DSym;
    ghost var start, ts, p := w.Sent(), tb.tokens, tb.State();
    BlockCodable(lt, dt, l, d, ts);
    PackSizes(p, ts);
    var lx, dx, fx, flag := 0, 0, 0, 0;
    TokensNone(l, d);
    ReplayStart(ts);
    assert ts[..0] == [];
    while lx < tb.lastLit
      invariant w.Valid() && tb.Valid() && tb.State() == p && 0 <= lx <= |ts| && Replaying(ts, lx, dx, fx, flag)
      invariant AllCodable(l, d, ts[..lx]) && w.Sent() == start + EncodeTokens(l, d, ts[..lx])
    {
      var isMatch, lc, dist;
      isMatch, lc, dist, dx, fx, flag := NextToken(tb, lx, dx, fx, flag);
      assert ServesToken(lt, dt, l, d, ts[lx]);
      assert ts[..lx + 1] == ts[..lx] + [ts[lx]];
      EncodeTokensSnoc(l, d, ts[..lx], ts[lx]);
      Assoc(start, EncodeTokens(l, d, ts[..lx]), EncodeToken(l, d, ts[lx]));
      ReplayToken(w, tables, lt, dt, isMatch, lc, dist, ts[lx], l, d);
      lx := lx + 1;
    }
    assert ts[..|ts|] == ts;
    SendSymbol(w, lt, END_BLOCK, l);
    Assoc(start, EncodeTokens(l, d, ts), Codeword(l, END_BLOCK));
  }

  lemma ReplayStart(ts: seq<Token>)
    requires AllValid(ts)
    ensures Replaying(ts, 0, 0, 0, 0)
  {
    assert ts[..0] == [];
  }

  method ReplayToken(w: BitWriter, tables: Tables, lt: CodeTree, dt: CodeTree, isMatch: bool, lc: byte, dist: nat,
                     ghost t: Token, ghost l: seq<nat>, ghost d: seq<nat>)
    requires w.Valid() && tables.Valid() && ServesToken(lt, dt, l, d, t) && isMatch == t.Match? && lc == LcOf(t)
    requires isMatch ==> dist == t.dist - 1
    modifies w, w.outbuf
    ensures w.Valid() && w.Sent() == old(w.Sent()) + EncodeToken(l, d, t)
  {
    hide EncodeToken, Serves, Tables.Valid, Codeword;
    if !isMatch {
      LiteralBits(l, d, t);
      SendSymbol(w, lt, lc, l);
    } else {
      SendMatch(w, tables, lt, dt, lc, dist, l, d);
    }
  }

  lemma LiteralBits(l: seq<nat>, d: seq<nat>, t: Token)
    requires t.Literal? && Codable(l, d, t)
    ensures EncodeToken(l, d, t) == Codeword(l, t.b)
  {
  }

  lemma SavedSize(fbuf: seq<byte>, ts: seq<Token>, i: nat)
    requires GroupsSaved(fbuf, ts) && i < |ts|
    ensures i / 8 < |fbuf|
  {
  }

  lemma TokensNone(l: seq<nat>, d: seq<nat>)
    ensures AllCodable(l, d, []) && EncodeTokens(l, d, []) == [] && Dists([]) == []
  {
  }

  lemma PackSizes(p: Pack, ts: seq<Token>)
    requires Packed(p, ts)
    ensures p.lastLit == |ts| <= |p.lbuf| && AllValid(ts)
  {
  }

  lemma BlockCodable(lt: CodeTree, dt: CodeTree, l: seq<nat>, d: seq<nat>, ts: seq<Token>)
    requires ServesBlock(lt, dt, l, d, ts)
    ensures AllCodable(l, d, ts) && END_BLOCK < |l|
  {
    forall i | 0 <= i < |ts| ensures Codable(l, d, ts[i]) {
      assert ServesToken(lt, dt, l, d, ts[i]);
    }
  }
}
