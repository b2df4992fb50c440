/** One block from its tokens: the trees, the exact sizes, the choice of the block type and the
    bits that are sent (`init_block`, `ct_tally`, `flush_block`). */
module Blocks {
  import opened Bits
  import opened BitWriting
  import opened Rfc1951
  import opened CodeTables
  import opened BitLengths
  import opened BuildTree
  import opened RunLengths
  import opened TreeHeader
  import opened Tokens
  import opened TokenBuffers
  import opened TreeMerge
  import opened BlockTrees
  import opened BlockCoding
  import Codes = GenCodes

  /** The code lengths of a dynamic block and the number of code length codes it sends. */
  datatype Plan = Plan(l: seq<nat>, d: seq<nat>, cl: seq<nat>, blcodes: nat)

  ghost predicate PlanOk(p: Plan, ts: seq<Token>) {
    && HeaderOk(p.l, p.d, p.cl, p.blcodes) && AllValid(ts) && |ts| < LIT_BUFSIZE
    && AllCodable(p.l, p.d, ts) && END_BLOCK < |p.l| && p.l[END_BLOCK] > 0
  }

  ghost function DynamicBits(p: Plan, ts: seq<Token>): seq<bool>
    requires PlanOk(p, ts)
  {
    HeaderBits(p.l, p.d, p.cl, p.blcodes) + BlockData(p.l, p.d, ts)
  }

  ghost function StaticBits(ts: seq<Token>): seq<bool>
    requires AllValid(ts)
  {
    StaticCodable(ts);
    FixedComplete();
    BlockData(FIXED_LLENS, FIXED_DLENS, ts)
  }

  /** Bytes that a block of `n` bits and its three head bits take. */
  function Lenb(n: nat): nat {
    (n + 3 + 7) / 8
  }

  /** The dynamic trees hold the codes of the plan. */
  ghost predicate TreesReady(lt: CodeTree, dt: CodeTree, bt: CodeTree, p: Plan, ts: seq<Token>) {
    && PlanOk(p, ts) && ServesBlock(lt, dt, p.l, p.d, ts) && Guarded(lt.dl, p.l) && Guarded(dt.dl, p.d)
    && CodesReady(bt.fc, bt.dl, p.cl) && BL_CODES <= |bt.dl| && bt.dl[..BL_CODES] == p.cl
  }

  // ----- Building the trees -----

  lemma DescsSmall()
    ensures L_DESC.elems == L_CODES < Pow2(L_DESC.maxLength) && D_DESC.elems == D_CODES < Pow2(D_DESC.maxLength)
  {
    Pow2Values();
  }

  /** Both costs of a block, from the two trees. */
  lemma TreeCosts(lfc: seq<nat>, ldl: seq<nat>, lMax: nat, dfc: seq<nat>, ddl: seq<nat>, dMax: nat, ts: seq<Token>,
                  opt1: nat, stat1: nat, opt: nat, stat: nat)
    requires AllValid(ts) && |ts| < LIT_BUFSIZE
    requires TreeDone(lfc, ldl, lMax, LFreqs(ts), L_DESC, 0, 0, opt1, stat1)
    requires TreeDone(dfc, ddl, dMax, DFreqs(ts), D_DESC, opt1, stat1, opt, stat)
    ensures 256 <= lMax < L_CODES && dMax < D_CODES && lMax < |ldl| && dMax < |ddl|
    ensures var l, d := ldl[..lMax + 1], ddl[..dMax + 1];
            && Complete(l) && Complete(d) && AllCodable(l, d, ts) && l[END_BLOCK] > 0
            && ServesBlock(CodeTree(lfc, ldl), CodeTree(dfc, ddl), l, d, ts)
            && opt == |BlockData(l, d, ts)| < 400_000 && stat == |StaticBits(ts)| < 400_000
  {
    hide TreeDone, Weighted, CodeCosts, Wrap32, Complete, CodesReady, ServesBlock, LFreqs, DFreqs, BlockData, Kraft, AllCodable;
    TreeSizes(lfc, ldl, lMax, LFreqs(ts), L_DESC, 0, 0, opt1, stat1);
    TreeSizes(dfc, ddl, dMax, DFreqs(ts), D_DESC, opt1, stat1, opt, stat);
    var l, d := ldl[..lMax + 1], ddl[..dMax + 1];
    BlockServed(lfc, ldl, lMax, dfc, ddl, dMax, ts, 0, 0, opt1, stat1, opt1, stat1, opt, stat);
    BlockCodable(CodeTree(lfc, ldl), CodeTree(dfc, ddl), l, d, ts);
    DataCost(l, d, ts);
    StaticCodable(ts);
    FixedComplete();
    FixedWithin();
    DataCost(FIXED_LLENS, FIXED_DLENS, ts);
  }

  lemma FixedWithin()
    ensures LensWithin(FIXED_LLENS, MAX_BITS) && LensWithin(FIXED_DLENS, MAX_BITS)
  {
  }

  lemma {:induction false} FreqsFit(ts: seq<Token>)
    requires AllValid(ts) && |ts| < LIT_BUFSIZE
    ensures Total(LFreqs(ts)) + 2 < TWO16 && Total(DFreqs(ts)) + 2 < TWO16
  {
    FreqTotals(ts);
  }

  /** The literal and the distance tree. */
  method BuildDataTrees(ta: TreeArrays, ghost ts: seq<Token>) returns (lMax: nat, dMax: nat, optLen: nat, staticLen: nat)
    requires ta.Separate() && AllValid(ts) && |ts| < LIT_BUFSIZE
    requires ta.lFc[..L_CODES] == LFreqs(ts) && ta.dFc[..D_CODES] == DFreqs(ts)
    modifies ta.heap, ta.depth, ta.blCount, ta.lFc, ta.lDl, ta.dFc, ta.dDl
    ensures 256 <= lMax < L_CODES && dMax < D_CODES
    ensures var l, d := ta.lDl[..][..lMax + 1], ta.dDl[..][..dMax + 1];
            && Complete(l) && Complete(d) && AllCodable(l, d, ts) && l[END_BLOCK] > 0
            && ServesBlock(CodeTree(ta.lFc[..], ta.lDl[..]), CodeTree(ta.dFc[..], ta.dDl[..]), l, d, ts)
            && optLen == |BlockData(l, d, ts)| < 400_000 && staticLen == |StaticBits(ts)| < 400_000
            && Minimal(LFreqs(ts), Padded(l, L_CODES), MAX_BITS) && Minimal(DFreqs(ts), Padded(d, D_CODES), MAX_BITS)
  {
    hide TreeDone, Wrap32, Complete, ServesBlock, LFreqs, DFreqs, BlockData, AllCodable, AllValid, Total, Pow2, TreeDesc.Valid, Minimal,
         StaticBits;
    DescsValid();
    DescsSmall();
    FreqsFit(ts);
    ZeroWraps();
    var opt1, stat1;
    lMax, opt1, stat1 := BuildTree.BuildTree(ta.heap, ta.depth, ta.blCount, ta.lFc, ta.lDl, L_DESC, 0, 0, 0, 0);
    ghost var lfc: seq<nat>, ldl: seq<nat> := ta.lFc[..], ta.lDl[..];
    TreeWraps(lfc, ldl, lMax, LFreqs(ts), L_DESC, 0, 0, opt1, stat1);
    PaddedLens(lfc, ldl, lMax, LFreqs(ts), L_DESC, 0, 0, opt1, stat1);
    assert ta.lDl[..L_CODES] == ldl[..L_CODES];
    assert ta.dFc[..D_DESC.elems] == DFreqs(ts);
    dMax, optLen, staticLen := BuildTree.BuildTree(ta.heap, ta.depth, ta.blCount, ta.dFc, ta.dDl, D_DESC, opt1, stat1, opt1, stat1);
    assert ta.lFc[..] == lfc && ta.lDl[..] == ldl;
    PaddedLens(ta.dFc[..], ta.dDl[..], dMax, DFreqs(ts), D_DESC, opt1, stat1, optLen, staticLen);
    assert ta.dDl[..D_CODES] == ta.dDl[..][..D_CODES];
    TreeCosts(lfc, ldl, lMax, ta.dFc[..], ta.dDl[..], dMax, ts, opt1, stat1, optLen, staticLen);
  }

  /** Lengths up to the largest code, and zeros for the other symbols. */
  function Padded(lens: seq<nat>, n: nat): (r: seq<nat>)
    requires |lens| <= n
    ensures |r| == n
  {
    lens + Zeros(n - |lens|)
  }

  lemma PaddedLens(fc: seq<nat>, dl: seq<nat>, maxCode: nat, f0: seq<nat>, desc: TreeDesc, o: int, st: int, opt: nat, stat: nat)
    requires TreeDone(fc, dl, maxCode, f0, desc, o, st, opt, stat)
    ensures maxCode < desc.elems <= |dl| && dl[..desc.elems] == Padded(dl[..maxCode + 1], desc.elems)
  {
    hide Weighted, CodeCosts, Codes.HasCode, Wrap32, Kraft, Complete;
  }

  /** The three trees of a plan, each against every prefix code for its symbols. */
  ghost predicate PlanMinimal(p: Plan, ts: seq<Token>) {
    && AllValid(ts) && |p.l| <= L_CODES && |p.d| <= D_CODES
    && Minimal(LFreqs(ts), Padded(p.l, L_CODES), MAX_BITS) && Minimal(DFreqs(ts), Padded(p.d, D_CODES), MAX_BITS)
    && Minimal(SymCounts(RunItems(p.l) + RunItems(p.d)), p.cl, 7)
  }

  lemma ZeroWraps()
    ensures Wrap32(0) == 0
  {
  }

  lemma TreeWraps(fc: seq<nat>, dl: seq<nat>, maxCode: nat, f0: seq<nat>, desc: TreeDesc, o: int, st: int, opt: nat, stat: nat)
    requires TreeDone(fc, dl, maxCode, f0, desc, o, st, opt, stat)
    ensures opt == Wrap32(opt) && stat == Wrap32(stat)
  {
    hide TreeDone, Weighted, CodeCosts, Complete, CodesReady;
    TreeSizes(fc, dl, maxCode, f0, desc, o, st, opt, stat);
  }

  /** Guards behind the lengths do not change any code. */
  lemma GuardKeeps(lt: CodeTree, dt: CodeTree, ldl: seq<nat>, ddl: seq<nat>, l: seq<nat>, d: seq<nat>, ts: seq<Token>)
    requires ServesBlock(lt, dt, l, d, ts) && |l| < |lt.dl| && |d| < |dt.dl|
    requires ldl == lt.dl[|l| := GUARD] && ddl == dt.dl[|d| := GUARD]
    ensures ServesBlock(CodeTree(lt.fc, ldl), CodeTree(dt.fc, ddl), l, d, ts)
  {
    hide LSym, DSym, Codes.HasCode;
    forall i | 0 <= i < |ts| ensures ServesToken(CodeTree(lt.fc, ldl), CodeTree(dt.fc, ddl), l, d, ts[i]) {
      assert ServesToken(lt, dt, l, d, ts[i]);
    }
  }

  /** All three trees, and the exact number of bits of both encodings. */
  method BuildTrees(ta: TreeArrays, ghost ts: seq<Token>) returns (lMax: nat, dMax: nat, maxBlindex: nat, optLen: nat, staticLen: nat, ghost p: Plan)
    requires ta.Separate() && AllValid(ts) && |ts| < LIT_BUFSIZE
    requires ta.lFc[..L_CODES] == LFreqs(ts) && ta.dFc[..D_CODES] == DFreqs(ts) && ta.blFc[..BL_CODES] == Zeros(BL_CODES)
    modifies ta.All()
    ensures TreesReady(CodeTree(ta.lFc[..], ta.lDl[..]), CodeTree(ta.dFc[..], ta.dDl[..]), CodeTree(ta.blFc[..], ta.blDl[..]), p, ts)
    ensures lMax + 1 == |p.l| && dMax + 1 == |p.d| && maxBlindex + 1 == p.blcodes
    ensures optLen == |DynamicBits(p, ts)| < 405_000 && staticLen == |StaticBits(ts)| < 405_000
    ensures PlanMinimal(p, ts)
  {
    hide Minimal, SymCounts, Runs, RunItems, Complete, ServesBlock, LFreqs, DFreqs, BlockData, AllCodable, AllValid, StaticBits, HeaderBits, Sendable, CodesReady, Guarded,
         LensWithin;
    ghost var bl: seq<nat> := ta.blFc[..];
    lMax, dMax, optLen, staticLen := BuildDataTrees(ta, ts);
    ghost var lt, dt := CodeTree(ta.lFc[..], ta.lDl[..]), CodeTree(ta.dFc[..], ta.dDl[..]);
    ghost var l, d := lt.dl[..lMax + 1], dt.dl[..dMax + 1];
    assert l == ta.lDl[..lMax + 1] && d == ta.dDl[..dMax + 1];
    assert ta.blFc[..] == bl;
    assert ta.blFc[..BL_CODES] == bl[..BL_CODES];
    ghost var o, st, cl := optLen, staticLen, [];
    maxBlindex, optLen, staticLen, cl := BuildBlTree(ta, lMax, dMax, optLen, staticLen, o, st, l, d);
    assert ta.lFc[..] == lt.fc && ta.dFc[..] == dt.fc;
    GuardKeeps(lt, dt, ta.lDl[..], ta.dDl[..], l, d, ts);
    p := Plan(l, d, cl, maxBlindex + 1);
    HeaderCost(l, d, cl, maxBlindex + 1);
    assert ta.blDl[..][..BL_CODES] == ta.blDl[..BL_CODES];
  }

  // ----- Choosing the block type -----

  /** A static block of at most 8191 tokens is short enough for the 16-bit length field, so a
      stored block, which is shorter, is too. */
  lemma StoredFits(ts: seq<Token>)
    requires AllValid(ts) && |ts| < LIT_BUFSIZE
    ensures Lenb(|StaticBits(ts)|) < TWO16
  {
    hide BlockData, AllCodable, EncodeTokens, AllValid;
    StaticCodable(ts);
    FixedComplete();
    StaticSize(ts);
  }

  lemma StaticSize(ts: seq<Token>)
    requires AllCodable(FIXED_LLENS, FIXED_DLENS, ts) && END_BLOCK < |FIXED_LLENS|
    ensures |BlockData(FIXED_LLENS, FIXED_DLENS, ts)| <= 31 * |ts| + 7
  {
    hide EncodeTokens, AllCodable, Codeword;
    StaticBound(ts);
    FixedLen(END_BLOCK);
  }

  ghost function Best(p: Plan, ts: seq<Token>): (r: nat)
    requires PlanOk(p, ts)
    ensures r < TWO16
  {
    StoredFits(ts);
    var optb, statb := Lenb(|DynamicBits(p, ts)|), Lenb(|StaticBits(ts)|);
    if statb <= optb then statb else optb
  }

  /** The block that is sent after `pos` bits.  `data` is what the tokens stand for, if the window
      still holds it. */
  ghost function ChosenBits(p: Plan, ts: seq<Token>, pos: nat, data: Option<seq<byte>>, final: bool): seq<bool>
    requires PlanOk(p, ts)
  {
    if data.Some? && |data.value| + 4 <= Best(p, ts) then BlockHead(STORED_BLOCK, final) + StoredBits(pos + 3, data.value)
    else if Lenb(|StaticBits(ts)|) <= Lenb(|DynamicBits(p, ts)|) then BlockHead(STATIC_TREES, final) + StaticBits(ts)
    else BlockHead(DYN_TREES, final) + DynamicBits(p, ts)
  }

  /** Whatever type is chosen, the block decodes to the expansion of its tokens. */
  lemma ChosenMeans(p: Plan, ts: seq<Token>, pos: nat, data: Option<seq<byte>>, final: bool, out: seq<byte>)
    requires PlanOk(p, ts) && Expandable(|out|, ts) && (data.Some? ==> Expand(out, ts) == out + data.value)
    ensures BlockMeans(ChosenBits(p, ts, pos, data, final), pos, out, Expand(out, ts), final)
  {
    hide BlockMeans, HeaderOk, AllCodable, BlockData, HeaderBits, Expandable, BlockHead, StoredBits, Best;
    if data.Some? && |data.value| + 4 <= Best(p, ts) {
      StoredMeans(pos, data.value, out, final);
    } else if Lenb(|StaticBits(ts)|) <= Lenb(|DynamicBits(p, ts)|) {
      StaticMeans(pos, ts, out, final);
    } else {
      DynamicMeans(pos, p.l, p.d, p.cl, p.blcodes, ts, out, final);
      PlanHeader(p, ts);
      var h, a, b := BlockHead(DYN_TREES, final), HeaderBits(p.l, p.d, p.cl, p.blcodes), BlockData(p.l, p.d, ts);
      assert h + a + b == h + (a + b);
    }
  }

  lemma PlanHeader(p: Plan, ts: seq<Token>)
    requires PlanOk(p, ts)
    ensures |p.l| >= 257 && |p.d| >= 1 && 4 <= p.blcodes <= BL_CODES && |p.cl| == BL_CODES
    ensures Sendable(p.cl, RunItems(p.l) + RunItems(p.d))
  {
  }

  // ----- When to end a block -----

  /** Estimated bits of a block: eight per token, and five and the extra bits per distance. */
  function Estimate(ts: seq<Token>): nat
    requires AllValid(ts)
  {
    if ts == [] then 0
    else
      var t := ts[|ts| - 1];
      Estimate(ts[..|ts| - 1]) + 8 + if t.Match? then 5 + DExtra(DSym(t)) else 0
  }

  ghost predicate EndsBlock(ts: seq<Token>, inLength: nat)
    requires AllValid(ts)
  {
    || (|ts| % 4096 == 0 && |Dists(ts)| < |ts| / 2 && Estimate(ts) / 8 < inLength / 2)
    || |ts| == LIT_BUFSIZE - 1 || |Dists(ts)| == DIST_BUFSIZE
  }

  lemma {:induction false} EstimateCost(ts: seq<Token>)
    requires AllValid(ts)
    ensures Estimate(ts) == 8 * |ts| + Weighted(DFreqs(ts), DCosts(FIXED_DLENS))
  {
    hide Weighted, DCosts;
    if ts == [] {
      WeightedZeros(D_CODES, DCosts(FIXED_DLENS));
    } else {
      var n := |ts| - 1;
      EstimateCost(ts[..n]);
      if ts[n].Match? {
        FixedComplete();
        WeightedBump(DFreqs(ts[..n]), DCosts(FIXED_DLENS), DSym(ts[n]));
        DCostAt(FIXED_DLENS, DSym(ts[n]));
      }
    }
  }

  lemma {:induction false} FreqAtMost(f: seq<nat>, s: nat)
    requires s < |f|
    ensures f[s] <= Total(f)
  {
    if s < |f| - 1 { FreqAtMost(f[..|f| - 1], s); }
  }

  /** The sum over the distance codes that `ct_tally` computes. */
  method DistBits(dFc: array<nat>, start: nat) returns (total: nat)
    requires dFc.Length >= D_CODES
    ensures total == start + Weighted(dFc[..D_CODES], DCosts(FIXED_DLENS))
  {
    hide Weighted, DCosts;
    FixedComplete();
    ghost var f: seq<nat>, c := dFc[..D_CODES], DCosts(FIXED_DLENS);
    total := start;
    WeightedNone(f, c);
    for dcode := 0 to D_CODES
      invariant f == dFc[..D_CODES] && total == start + Weighted(f[..dcode], c[..dcode])
    {
      DCostAt(FIXED_DLENS, dcode);
      WeightedNext(f, c, dcode);
      total := total + Bill(dFc[dcode], 5 + DExtra(dcode));
    }
    assert f[..D_CODES] == f && c[..D_CODES] == c;
  }

  lemma WeightedNone(f: seq<nat>, c: seq<nat>)
    ensures Weighted(f[..0], c[..0]) == 0
  {
  }

  lemma WeightedNext(f: seq<nat>, c: seq<nat>, k: nat)
    requires |f| == |c| && k < |f|
    ensures Weighted(f[..k + 1], c[..k + 1]) == Weighted(f[..k], c[..k]) + Bill(f[k], c[k])
  {
    hide Bill;
    assert f[..k + 1][..k] == f[..k] && c[..k + 1][..k] == c[..k];
  }

  // ----- The block coder -----

  method ZeroFill(a: array<nat>, n: nat)
    requires n <= a.Length
    modifies a
    ensures a[..n] == Zeros(n)
  {
    for i := 0 to n
      invariant forall k :: 0 <= k < i ==> a[k] == 0
    {
      a[i] := 0;
    }
  }

  method NewArrays() returns (ta: TreeArrays)
    ensures ta.Separate() && fresh(ta.All()) && forall i :: 0 <= i <= MAX_BITS ==> ta.blCount[i] == 0
  {
    var heap, depth := new nat[HEAP_SIZE](_ => 0), new nat[HEAP_SIZE](_ => 0);
    var blCount := new nat[MAX_BITS + 1](_ => 0);
    var lFc, lDl := new nat[HEAP_SIZE](_ => 0), new nat[HEAP_SIZE](_ => 0);
    var dFc, dDl := new nat[2 * D_CODES + 1](_ => 0), new nat[2 * D_CODES + 1](_ => 0);
    var blFc, blDl := new nat[2 * BL_CODES + 1](_ => 0), new nat[2 * BL_CODES + 1](_ => 0);
    ta := TreeArrays(heap, depth, blCount, lFc, lDl, dFc, dDl, blFc, blDl);
  }

  method InitStatics(blCount: array<nat>) returns (l: CodeTree, d: CodeTree)
    requires blCount.Length == MAX_BITS + 1 && forall i :: 0 <= i <= MAX_BITS ==> blCount[i] == 0
    modifies blCount
    ensures CodesReady(l.fc, l.dl, FIXED_LLENS) && |d.fc| == |d.dl| == D_CODES && FixedDists(d.fc, d.dl, D_CODES)
  {
    hide Codes.HasCode;
    var lFc, lDl := new nat[288](_ => 0), new nat[288](_ => 0);
    InitStaticLtree(lFc, lDl, blCount);
    var dFc, dDl := new nat[D_CODES](_ => 0), new nat[D_CODES](_ => 0);
    InitStaticDtree(dFc, dDl);
    FixedWithin();
    FixedComplete();
    l, d := CodeTree(lFc[..], lDl[..]), CodeTree(dFc[..], dDl[..]);
  }

  class BlockCoder {
    const w: BitWriter
    const tb: TokenBuffer
    const ta: TreeArrays
    const tables: Tables
    /** The static trees; they do not change after their construction. */
    const staticL: CodeTree
    const staticD: CodeTree

    /** Everything the coder changes. */
    ghost const repr: set<object>

    ghost predicate Owns() {
      repr == {w, w.outbuf, tb, tb.lBuf, tb.dBuf, tb.flagBuf} + ta.All()
    }

    /** No two of the arrays are the same. */
    ghost predicate Apart() {
      && Owns() && ta.Separate() && w.outbuf != tb.lBuf && w.outbuf != tb.flagBuf && w.outbuf as object != tb.dBuf
      && w.outbuf !in ta.All() && tb.lBuf !in ta.All() && tb.dBuf !in ta.All() && tb.flagBuf !in ta.All()
    }

    ghost predicate StaticsReady() {
      && tables.Valid() && CodesReady(staticL.fc, staticL.dl, FIXED_LLENS)
      && |staticD.fc| == |staticD.dl| == D_CODES && FixedDists(staticD.fc, staticD.dl, D_CODES)
    }

    ghost predicate Counting()
      reads tb, ta.lFc, ta.dFc, ta.blFc
    {
      && AllValid(tb.tokens) && ta.Separate()
      && ta.lFc[..L_CODES] == LFreqs(tb.tokens) && ta.dFc[..D_CODES] == DFreqs(tb.tokens)
      && ta.blFc[..BL_CODES] == Zeros(BL_CODES)
    }

    ghost predicate Valid()
      reads repr
    {
      Apart() && StaticsReady() && w.Valid() && tb.Valid() && Counting()
    }

    /** `ct_init`: the tables, the static trees and the first block. */
    constructor (w: BitWriter)
      requires w.Valid()
      ensures Valid() && tb.tokens == [] && this.w == w && fresh(repr - {w, w.outbuf})
    {
      hide Packed, Tables.Valid, CodesReady, FixedDists, LFreqs, DFreqs, TokenBuffer.Valid, TokenBuffer.Shape, BlockCoder.Counting, BitWriter.Valid;
      var arrays := NewArrays();
      var t := InitTables();
      var l, d := InitStatics(arrays.blCount);
      this.w, ta, tables, staticL, staticD := w, arrays, t, l, d;
      var buffer := new TokenBuffer();
      tb := buffer;
      repr := {w, w.outbuf, buffer, buffer.lBuf, buffer.dBuf, buffer.flagBuf} + arrays.All();
      new;
      InitBlock();
    }

    method InitBlock()
      requires Apart() && tb.Shape()
      modifies tb, ta.lFc, ta.dFc, ta.blFc
      ensures tb.Valid() && tb.tokens == [] && Counting()
    {
      hide Packed;
      ZeroFill(ta.lFc, L_CODES);
      ZeroFill(ta.dFc, D_CODES);
      ZeroFill(ta.blFc, BL_CODES);
      ghost var z: seq<nat> := ta.lFc[..L_CODES];
      ta.lFc[END_BLOCK] := 1;
      assert ta.lFc[..L_CODES] == Bump(z, END_BLOCK);
      tb.Reset();
    }

    /** Saves a token and counts its symbols; true if the block should end here.  `inLength` is
        the number of input bytes since the start of the block. */
    method CtTally(dist: nat, lc: byte, inLength: nat) returns (flush: bool)
      requires Valid() && |tb.tokens| + 1 < LIT_BUFSIZE && dist <= 32768
      modifies repr
      ensures Valid() && tb.tokens == old(tb.tokens) + [if dist == 0 then Literal(lc) else Match(lc + 3, dist)]
      ensures flush == EndsBlock(tb.tokens, inLength) && w.Sent() == old(w.Sent())
      ensures !flush ==> |tb.tokens| + 1 < LIT_BUFSIZE
    {
      hide Packed, Tables.Valid, CodesReady, FixedDists, LFreqs, DFreqs, LSym, DSym, EndsBlock, AllValid;
      ghost var ts, t := tb.tokens, if dist == 0 then Literal(lc) else Match(lc + 3, dist);
      CountToken(ta, tables, dist, lc, ts);
      ghost var lf: seq<nat>, df: seq<nat>, bf: seq<nat> := ta.lFc[..L_CODES], ta.dFc[..D_CODES], ta.blFc[..BL_CODES];
      tb.Store(dist, lc);
      assert ta.lFc[..L_CODES] == lf && ta.dFc[..D_CODES] == df && ta.blFc[..BL_CODES] == bf;
      BufferCounts(tb.State(), tb.tokens);
      flush := BlockEnds(ta, tb.lastLit, tb.lastDist, inLength, tb.tokens);
    }

    /** Sends the block in the shortest form and starts the next one.  The bytes the tokens stand
        for are passed if the window still holds them. */
    method FlushBlock(window: array<byte>, bufStart: nat, hasBuf: bool, storedLen: nat, final: bool, ghost out: seq<byte>)
      returns (ghost p: Plan, ghost bits: seq<bool>)
      requires Valid() && window !in repr && (hasBuf ==> bufStart + storedLen <= window.Length)
      requires Expandable(|out|, tb.tokens)
      requires hasBuf ==> Expand(out, tb.tokens) == out + window[bufStart..bufStart + storedLen]
      modifies repr
      ensures Valid() && tb.tokens == [] && PlanOk(p, old(tb.tokens))
      ensures bits == ChosenBits(p, old(tb.tokens), |old(w.Sent())|,
                                 if hasBuf then Some(window[bufStart..bufStart + storedLen]) else None, final)
      ensures BlockMeans(bits, |old(w.Sent())|, out, Expand(out, old(tb.tokens)), final)
      ensures w.Sent() == old(w.Sent()) + bits + if final then Padding(|old(w.Sent()) + bits|) else []
      ensures final ==> w.biValid == 0
    {
      hide Packed, Tables.Valid, CodesReady, FixedDists, LFreqs, DFreqs, AllValid, PlanOk, Expandable, BlockMeans, ChosenBits, TreesReady,
           DynamicBits, StaticBits, Padding, GroupsSaved, Zeros, Lenb;
      ghost var ts, pos, data := tb.tokens, |w.Sent()|, if hasBuf then Some(window[bufStart..bufStart + storedLen]) else None;
      BufferCounts(tb.State(), ts);
      p, bits := EncodeBlock(window, bufStart, hasBuf, storedLen, final, data);
      ChosenMeans(p, ts, pos, data, final, out);
      FinishBlock(final);
    }

    method EncodeBlock(window: array<byte>, bufStart: nat, hasBuf: bool, storedLen: nat, final: bool, ghost data: Option<seq<byte>>)
      returns (ghost p: Plan, ghost bits: seq<bool>)
      requires Valid() && window !in repr && (hasBuf ==> bufStart + storedLen <= window.Length)
      requires data == if hasBuf then Some(window[bufStart..bufStart + storedLen]) else None
      modifies w, w.outbuf, tb.flagBuf, ta.All()
      ensures w.Valid() && tb.Valid() && PlanOk(p, tb.tokens)
      ensures bits == ChosenBits(p, tb.tokens, |old(w.Sent())|, data, final) && w.Sent() == old(w.Sent()) + bits
    {
      hide Packed, Tables.Valid, CodesReady, FixedDists, LFreqs, DFreqs, AllValid, PlanOk, ChosenBits, TreesReady,
           GroupsSaved, Zeros, IsChosen;
      ghost var sent, win := w.Sent(), window[..];
      var lMax, dMax, maxBlindex, kind;
      lMax, dMax, maxBlindex, kind, p := PrepareBlock(hasBuf, storedLen, data);
      assert w.Valid() && w.Sent() == sent && window[..] == win;
      bits := SendChosen(kind, window, bufStart, storedLen, final, lMax, dMax, maxBlindex, p, data);
    }

    /** The trees, the sizes and the choice. */
    method PrepareBlock(hasBuf: bool, storedLen: nat, ghost data: Option<seq<byte>>)
      returns (lMax: nat, dMax: nat, maxBlindex: nat, kind: nat, ghost p: Plan)
      requires Valid() && data.Some? == hasBuf && (hasBuf ==> |data.value| == storedLen)
      modifies tb.flagBuf, ta.All()
      ensures tb.Valid() && tb.FlagsSaved() && IsChosen(kind, p, tb.tokens, data)
      ensures TreesReady(CodeTree(ta.lFc[..], ta.lDl[..]), CodeTree(ta.dFc[..], ta.dDl[..]), CodeTree(ta.blFc[..], ta.blDl[..]), p, tb.tokens)
      ensures lMax + 1 == |p.l| && dMax + 1 == |p.d| && maxBlindex + 1 == p.blcodes
    {
      hide Packed, Tables.Valid, CodesReady, FixedDists, LFreqs, DFreqs, AllValid, PlanOk, TreesReady, DynamicBits, StaticBits,
           GroupsSaved, Zeros, IsChosen;
      ghost var ts := tb.tokens;
      BufferCounts(tb.State(), ts);
      tb.SaveFlags();
      ghost var st := tb.State();
      var optLen, staticLen;
      lMax, dMax, maxBlindex, optLen, staticLen, p := BuildTrees(ta, ts);
      assert tb.State() == st;
      PlanIsOk(ta, p, ts);
      kind := ChooseKind(optLen, staticLen, hasBuf, storedLen, p, ts, data);
    }

    /** The block in the chosen form. */
    method SendChosen(kind: nat, window: array<byte>, bufStart: nat, storedLen: nat, final: bool, lMax: nat, dMax: nat, maxBlindex: nat,
                      ghost p: Plan, ghost data: Option<seq<byte>>) returns (ghost bits: seq<bool>)
      requires Apart() && StaticsReady() && w.Valid() && tb.Valid() && tb.FlagsSaved() && window != w.outbuf && IsChosen(kind, p, tb.tokens, data)
      requires TreesReady(CodeTree(ta.lFc[..], ta.lDl[..]), CodeTree(ta.dFc[..], ta.dDl[..]), CodeTree(ta.blFc[..], ta.blDl[..]), p, tb.tokens)
      requires lMax + 1 == |p.l| && dMax + 1 == |p.d| && maxBlindex + 1 == p.blcodes
      requires data.Some? ==> bufStart + storedLen <= window.Length && data == Some(window[bufStart..bufStart + storedLen])
      modifies w, w.outbuf
      ensures w.Valid() && tb.Valid() && PlanOk(p, tb.tokens)
      ensures bits == ChosenBits(p, tb.tokens, |old(w.Sent())|, data, final) && w.Sent() == old(w.Sent()) + bits
    {
      hide Packed, Tables.Valid, CodesReady, FixedDists, AllValid, PlanOk, ChosenBits, TreesReady, DynamicBits, StaticBits,
           GroupsSaved, IsChosen, StoredBits, BlockHead;
      ghost var ts, pos, st := tb.tokens, |w.Sent()|, tb.State();
      KindBits(kind, p, ts, pos, data, final);
      BufferCounts(st, ts);
      bits := ChosenBits(p, ts, pos, data, final);
      if kind == STORED_BLOCK {
        SendStored(window, bufStart, storedLen, final);
      } else if kind == STATIC_TREES {
        SendStatic(final);
      } else {
        SendDynamic(lMax, dMax, maxBlindex, final, p);
      }
      assert tb.State() == st;
    }

    method FinishBlock(final: bool)
      requires Apart() && StaticsReady() && w.Valid() && tb.Valid()
      modifies w, w.outbuf, tb, ta.lFc, ta.dFc, ta.blFc
      ensures Valid() && tb.tokens == [] && (final ==> w.biValid == 0)
      ensures w.Sent() == old(w.Sent()) + if final then Padding(|old(w.Sent())|) else []
    {
      hide Packed, Tables.Valid, CodesReady, FixedDists, LFreqs, DFreqs, AllValid, Padding, Zeros;
      InitBlock();
      if final {
        w.BiWindup();
      }
    }

    method SendStored(window: array<byte>, bufStart: nat, storedLen: nat, final: bool)
      requires w.Valid() && window != w.outbuf && bufStart + storedLen <= window.Length && storedLen < TWO16
      modifies w, w.outbuf
      ensures w.Valid()
      ensures w.Sent() == old(w.Sent()) + (BlockHead(STORED_BLOCK, final) + StoredBits(|old(w.Sent())| + 3, window[bufStart..bufStart + storedLen]))
    {
      hide BlockHead, StoredBits, StoredHeaderBits, BytesToBits, Padding;
      ghost var sent, data := w.Sent(), window[bufStart..bufStart + storedLen];
      SendHead(w, STORED_BLOCK, final);
      w.CopyBlock(window, bufStart, storedLen, true);
      assert window[bufStart..bufStart + storedLen] == data;
      JoinStored(sent, BlockHead(STORED_BLOCK, final), data);
    }

    method SendStatic(final: bool)
      requires Apart() && StaticsReady() && w.Valid() && tb.Valid() && tb.FlagsSaved() && AllValid(tb.tokens)
      modifies w, w.outbuf
      ensures w.Valid() && w.Sent() == old(w.Sent()) + (BlockHead(STATIC_TREES, final) + StaticBits(tb.tokens))
    {
      hide Packed, Tables.Valid, CodesReady, FixedDists, AllValid, ServesBlock, BlockHead, BlockData, StaticBits, GroupsSaved;
      ghost var sent, ts := w.Sent(), tb.tokens;
      SendHead(w, STATIC_TREES, final);
      StaticServes(staticL, staticD, ts);
      CompressBlock(w, tb, tables, staticL, staticD, FIXED_LLENS, FIXED_DLENS);
      StaticIs(ts);
      Assoc(sent, BlockHead(STATIC_TREES, final), StaticBits(ts));
    }

    method SendDynamic(lMax: nat, dMax: nat, maxBlindex: nat, final: bool, ghost p: Plan)
      requires Apart() && tables.Valid() && w.Valid() && tb.Valid() && tb.FlagsSaved()
      requires TreesReady(CodeTree(ta.lFc[..], ta.lDl[..]), CodeTree(ta.dFc[..], ta.dDl[..]), CodeTree(ta.blFc[..], ta.blDl[..]), p, tb.tokens)
      requires lMax + 1 == |p.l| && dMax + 1 == |p.d| && maxBlindex + 1 == p.blcodes
      modifies w, w.outbuf
      ensures w.Valid() && PlanOk(p, tb.tokens) && w.Sent() == old(w.Sent()) + (BlockHead(DYN_TREES, final) + DynamicBits(p, tb.tokens))
    {
      hide Packed, Tables.Valid, CodesReady, AllValid, PlanOk, TreesReady, Guarded, HeaderOk, ServesBlock, HeaderBits, BlockData, DynamicBits,
           GroupsSaved, AllCodable, BlockHead;
      ghost var lt, dt, ts, sent := CodeTree(ta.lFc[..], ta.lDl[..]), CodeTree(ta.dFc[..], ta.dDl[..]), tb.tokens, w.Sent();
      ReadyParts(lt, dt, CodeTree(ta.blFc[..], ta.blDl[..]), p, ts);
      SendHead(w, DYN_TREES, final);
      assert ta.blDl[..BL_CODES] == ta.blDl[..][..BL_CODES];
      SendAllTrees(w, lMax + 1, dMax + 1, maxBlindex + 1, ta.blFc, ta.blDl, ta.lDl, ta.dDl, p.cl, p.l, p.d);
      CompressBlock(w, tb, tables, CodeTree(ta.lFc[..], ta.lDl[..]), CodeTree(ta.dFc[..], ta.dDl[..]), p.l, p.d);
      JoinDynamic(sent, BlockHead(DYN_TREES, final), p, ts);
    }
  }

  lemma KindBits(kind: nat, p: Plan, ts: seq<Token>, pos: nat, data: Option<seq<byte>>, final: bool)
    requires IsChosen(kind, p, ts, data)
    ensures PlanOk(p, ts)
    ensures kind == STORED_BLOCK ==> data.Some? && |data.value| < TWO16
                                     && ChosenBits(p, ts, pos, data, final) == BlockHead(kind, final) + StoredBits(pos + 3, data.value)
    ensures kind == STATIC_TREES ==> ChosenBits(p, ts, pos, data, final) == BlockHead(kind, final) + StaticBits(ts)
    ensures kind == STORED_BLOCK || kind == STATIC_TREES || ChosenBits(p, ts, pos, data, final) == BlockHead(DYN_TREES, final) + DynamicBits(p, ts)
  {
    hide BlockHead, StoredBits, StaticBits, DynamicBits, Best;
  }

  /** The kind that goes with the chosen bits. */
  ghost predicate IsChosen(kind: nat, p: Plan, ts: seq<Token>, data: Option<seq<byte>>)
  {
    PlanOk(p, ts) &&
    if data.Some? && |data.value| + 4 <= Best(p, ts) then kind == STORED_BLOCK
    else if Lenb(|StaticBits(ts)|) <= Lenb(|DynamicBits(p, ts)|) then kind == STATIC_TREES
    else kind == DYN_TREES
  }

  /** The size of a form in bytes, the head of the block and the fill bits included; a stored block has
        four bytes for its length, and its head is not counted. */
  ghost function FormBytes(kind: nat, p: Plan, ts: seq<Token>, data: Option<seq<byte>>): nat
    requires PlanOk(p, ts) && (kind == STORED_BLOCK ==> data.Some?)
  {
    if kind == STORED_BLOCK then |data.value| + 4
    else if kind == STATIC_TREES then (|BlockHead(STATIC_TREES, false) + StaticBits(ts)| + 7) / 8
    else (|BlockHead(DYN_TREES, false) + DynamicBits(p, ts)| + 7) / 8
  }

  /** No available form is shorter than the one chosen. */
  lemma NoneIsShorter(kind: nat, p: Plan, ts: seq<Token>, data: Option<seq<byte>>, other: nat)
    requires IsChosen(kind, p, ts, data) && other in {STORED_BLOCK, STATIC_TREES, DYN_TREES} && (other == STORED_BLOCK ==> data.Some?)
    ensures FormBytes(kind, p, ts, data) <= FormBytes(other, p, ts, data)
  {
    hide PlanOk, StaticBits, DynamicBits;
  }

  /** The comparison of the sizes in bytes. */
  method ChooseKind(optLen: nat, staticLen: nat, hasBuf: bool, storedLen: nat, ghost p: Plan, ghost ts: seq<Token>, ghost data: Option<seq<byte>>)
    returns (kind: nat)
    requires PlanOk(p, ts) && optLen == |DynamicBits(p, ts)| && staticLen == |StaticBits(ts)|
    requires data.Some? == hasBuf && (hasBuf ==> |data.value| == storedLen)
    ensures IsChosen(kind, p, ts, data)
  {
    hide PlanOk, DynamicBits, StaticBits;
    var optLenb, staticLenb := (optLen + 3 + 7) / 8, (staticLen + 3 + 7) / 8;
    if staticLenb <= optLenb {
      optLenb := staticLenb;
    }
    if storedLen + 4 <= optLenb && hasBuf {
      kind := STORED_BLOCK;
    } else if staticLenb == optLenb {
      kind := STATIC_TREES;
    } else {
      kind := DYN_TREES;
    }
  }

  method SendHead(w: BitWriter, kind: nat, final: bool)
    requires w.Valid() && kind < 3
    modifies w, w.outbuf
    ensures w.Valid() && w.Sent() == old(w.Sent()) + BlockHead(kind, final)
  {
    hide BitsOf;
    Pow2Values();
    w.SendBits(2 * kind + if final then 1 else 0, 3);
  }

  lemma PlanIsOk(ta: TreeArrays, p: Plan, ts: seq<Token>)
    requires TreesReady(CodeTree(ta.lFc[..], ta.lDl[..]), CodeTree(ta.dFc[..], ta.dDl[..]), CodeTree(ta.blFc[..], ta.blDl[..]), p, ts)
    ensures PlanOk(p, ts)
  {
  }

  lemma JoinStored(sent: seq<bool>, head: seq<bool>, data: seq<byte>)
    requires |data| < TWO16 && |head| == 3
    ensures sent + head + Padding(|sent + head|) + StoredHeaderBits(|data|, true) + BytesToBits(data)
            == sent + (head + StoredBits(|sent| + 3, data))
  {
    hide Padding, StoredHeaderBits, BytesToBits;
    assert |sent + head| == |sent| + 3;
    Regroup5(sent, head, Padding(|sent| + 3), StoredHeaderBits(|data|, true), BytesToBits(data));
  }

  lemma Regroup5(a: seq<bool>, b: seq<bool>, c: seq<bool>, d: seq<bool>, e: seq<bool>)
    ensures a + b + c + d + e == a + (b + (c + (d + e)))
  {
    Assoc(a + b + c, d, e);
    Assoc(a + b, c, d + e);
    Assoc(a, b, c + (d + e));
  }

  lemma StaticIs(ts: seq<Token>)
    requires AllValid(ts) && AllCodable(FIXED_LLENS, FIXED_DLENS, ts) && END_BLOCK < |FIXED_LLENS|
    ensures StaticBits(ts) == BlockData(FIXED_LLENS, FIXED_DLENS, ts)
  {
  }

  lemma JoinDynamic(sent: seq<bool>, head: seq<bool>, p: Plan, ts: seq<Token>)
    requires PlanOk(p, ts)
    ensures |p.l| >= 257 && |p.d| >= 1 && 4 <= p.blcodes <= BL_CODES && |p.cl| == BL_CODES && Sendable(p.cl, RunItems(p.l) + RunItems(p.d))
    ensures sent + head + HeaderBits(p.l, p.d, p.cl, p.blcodes) + BlockData(p.l, p.d, ts) == sent + (head + DynamicBits(p, ts))
  {
    hide HeaderBits, BlockData, Sendable, Complete, AllCodable, AllValid;
  }

  lemma ReadyParts(lt: CodeTree, dt: CodeTree, bt: CodeTree, p: Plan, ts: seq<Token>)
    requires TreesReady(lt, dt, bt, p, ts)
    ensures PlanOk(p, ts) && HeaderOk(p.l, p.d, p.cl, p.blcodes) && ServesBlock(lt, dt, p.l, p.d, ts) && Guarded(lt.dl, p.l) && Guarded(dt.dl, p.d)
    ensures CodesReady(bt.fc, bt.dl, p.cl) && BL_CODES <= |bt.dl| && bt.dl[..BL_CODES] == p.cl
  {
    hide HeaderOk, ServesBlock, Guarded, CodesReady;
  }

  /** The static trees serve every block. */
  lemma StaticServes(lt: CodeTree, dt: CodeTree, ts: seq<Token>)
    requires AllValid(ts) && CodesReady(lt.fc, lt.dl, FIXED_LLENS)
    requires |dt.fc| == |dt.dl| == D_CODES && FixedDists(dt.fc, dt.dl, D_CODES)
    ensures ServesBlock(lt, dt, FIXED_LLENS, FIXED_DLENS, ts)
  {
    hide Codes.HasCode, LSym, DSym, CodesReady;
    StaticCodable(ts);
    FixedComplete();
    ReadySymbol(lt.fc, lt.dl, FIXED_LLENS, END_BLOCK);
    forall i | 0 <= i < |ts| ensures ServesToken(lt, dt, FIXED_LLENS, FIXED_DLENS, ts[i]) {
      assert Codable(FIXED_LLENS, FIXED_DLENS, ts[i]);
      ReadySymbol(lt.fc, lt.dl, FIXED_LLENS, LSym(ts[i]));
    }
  }

  /** Counts the symbols of a token. */
  method CountToken(ta: TreeArrays, tables: Tables, dist: nat, lc: byte, ghost ts: seq<Token>)
    requires ta.Separate() && tables.Valid() && AllValid(ts) && |ts| + 1 < LIT_BUFSIZE && dist <= 32768
    requires ta.lFc[..L_CODES] == LFreqs(ts) && ta.dFc[..D_CODES] == DFreqs(ts)
    modifies ta.lFc, ta.dFc
    ensures var ts' := ts + [if dist == 0 then Literal(lc) else Match(lc + 3, dist)];
            AllValid(ts') && ta.lFc[..L_CODES] == LFreqs(ts') && ta.dFc[..D_CODES] == DFreqs(ts')
  {
    hide Tables.Valid, LFreqs, DFreqs, LengthCodeOf, DistCodeOf, Tables.DCode, AllValid, LBase, DBase, LExtra, DExtra, Pow2;
    ghost var t := if dist == 0 then Literal(lc) else Match(lc + 3, dist);
    ghost var lf: seq<nat>, df: seq<nat> := ta.lFc[..L_CODES], ta.dFc[..D_CODES];
    CountMore(ts, t);
    if dist == 0 {
      BumpFreq(ta.lFc, L_CODES, lc);
    } else {
      TableLength(tables, lc + 3);
      TableDist(tables, dist);
      TableSizes(tables);
      BumpFreq(ta.lFc, L_CODES, tables.lengthCode[lc] + LITERALS + 1);
      assert ta.dFc[..D_CODES] == df;
      lf := ta.lFc[..L_CODES];
      BumpFreq(ta.dFc, D_CODES, tables.DCode(dist - 1));
      assert ta.lFc[..L_CODES] == lf;
    }
    assert dist == 0 ==> ta.dFc[..D_CODES] == df;
  }

  method BumpFreq(fc: array<nat>, n: nat, s: nat)
    requires s < n <= fc.Length && fc[..n][s] + 1 < TWO16
    modifies fc
    ensures fc[..n] == Bump(old(fc[..n]), s)
  {
    fc[s] := Wrap16(fc[s] + 1);
  }

  method BlockEnds(ta: TreeArrays, lastLit: nat, lastDist: nat, inLength: nat, ghost ts: seq<Token>) returns (flush: bool)
    requires ta.Separate() && AllValid(ts) && |ts| < LIT_BUFSIZE && lastLit == |ts| && lastDist == |Dists(ts)| && ta.dFc[..D_CODES] == DFreqs(ts)
    ensures flush == EndsBlock(ts, inLength)
    ensures !flush ==> |ts| + 1 < LIT_BUFSIZE
  {
    hide DFreqs, Weighted, DCosts, Estimate, Dists, AllValid;
    flush := false;
    if lastLit % 4096 == 0 {
      EstimateCost(ts);
      var outLength := DistBits(ta.dFc, lastLit * 8);
      outLength := outLength / 8;
      flush := lastDist < lastLit / 2 && outLength < inLength / 2;
    }
    flush := flush || lastLit == LIT_BUFSIZE - 1 || lastDist == DIST_BUFSIZE;
  }

  lemma CountMore(ts: seq<Token>, t: Token)
    requires AllValid(ts) && |ts| + 1 < LIT_BUFSIZE && t.Valid()
    ensures AllValid(ts + [t]) && LFreqs(ts + [t]) == Bump(LFreqs(ts), LSym(t)) && LFreqs(ts)[LSym(t)] + 1 < TWO16
    ensures DFreqs(ts + [t]) == if t.Match? then Bump(DFreqs(ts), DSym(t)) else DFreqs(ts)
    ensures t.Match? ==> DFreqs(ts)[DSym(t)] + 1 < TWO16
  {
    hide Total, LSym, DSym;
    assert (ts + [t])[..|ts|] == ts;
    FreqTotals(ts);
    FreqAtMost(LFreqs(ts), LSym(t));
    if t.Match? { FreqAtMost(DFreqs(ts), DSym(t)); }
  }

  lemma BufferCounts(p: Pack, ts: seq<Token>)
    requires Packed(p, ts)
    ensures p.lastLit == |ts| && p.lastDist == |Dists(ts)| && AllValid(ts) && |ts| < LIT_BUFSIZE
  {
  }
}
