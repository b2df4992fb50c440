/** The three trees of a dynamic block: literal/length, distance and code length tree, with the
    exact number of bits of the dynamic and of the static encoding. */
module BlockTrees {
  import opened Bits
  import opened Rfc1951
  import opened CodeTables
  import opened BitLengths
  import opened BuildTree
  import opened RunLengths
  import opened TreeHeader
  import opened Tokens
  import opened TokenBuffers
  import opened TreeMerge
  import Codes = GenCodes

  // ----- Unused symbols at the end do not change a code -----

  lemma {:induction false} CountLenPad(lens: seq<nat>, k: nat, l: nat)
    requires l >= 1
    ensures CountLen(lens + Zeros(k), l) == CountLen(lens, l)
  {
    CountLenAppend(lens, Zeros(k), l);
    assert Zeros(k) == Repeat(0, k);
    CountLenRepeat(0, k, l);
  }

  lemma {:induction false} NextCodePad(lens: seq<nat>, k: nat, b: nat)
    ensures NextCode(lens + Zeros(k), b) == NextCode(lens, b)
  {
    hide CountLen;
    if b > 0 {
      NextCodePad(lens, k, b - 1);
      if b > 1 { CountLenPad(lens, k, b - 1); }
    }
  }

  lemma CodewordPad(lens: seq<nat>, k: nat, n: nat)
    requires n < |lens|
    ensures Codeword(lens + Zeros(k), n) == Codeword(lens, n)
  {
    hide CountLen, NextCode;
    NextCodePad(lens, k, lens[n]);
    assert (lens + Zeros(k))[..n] == lens[..n];
  }

  lemma KraftZero(lens: seq<nat>, max: nat)
    requires LensWithin(lens, max)
    ensures LensWithin(lens + [0], max) && Kraft(lens + [0], max) == Kraft(lens, max)
  {
    hide Pow2;
    assert (lens + [0])[..|lens|] == lens;
  }

  lemma {:induction false} KraftPad(lens: seq<nat>, k: nat, max: nat)
    requires LensWithin(lens, max)
    ensures LensWithin(lens + Zeros(k), max) && Kraft(lens + Zeros(k), max) == Kraft(lens, max)
  {
    hide LensWithin, Kraft;
    if k == 0 {
      assert lens + Zeros(0) == lens;
    } else {
      KraftPad(lens, k - 1, max);
      KraftZero(lens + Zeros(k - 1), max);
      assert lens + Zeros(k) == lens + Zeros(k - 1) + [0];
    }
  }

  lemma CompletePad(lens: seq<nat>, k: nat)
    requires Complete(lens)
    ensures Complete(lens + Zeros(k))
  {
    KraftPad(lens, k, MAX_BITS);
  }

  // ----- Frequencies cover the tokens -----

  lemma {:induction false} FreqsCover(ts: seq<Token>, i: nat)
    requires AllValid(ts) && i < |ts|
    ensures LFreqs(ts)[LSym(ts[i])] > 0
    ensures ts[i].Match? ==> DFreqs(ts)[DSym(ts[i])] > 0
    decreases |ts|
  {
    var n := |ts| - 1;
    if i < n { FreqsCover(ts[..n], i); }
  }

  lemma {:induction false} EndBlockCounted(ts: seq<Token>)
    requires AllValid(ts)
    ensures LFreqs(ts)[END_BLOCK] > 0
  {
    if ts != [] { EndBlockCounted(ts[..|ts| - 1]); }
  }

  /** A finished tree serves the symbols that were counted. */
  lemma TreeServes(fc: seq<nat>, dl: seq<nat>, maxCode: nat, f0: seq<nat>, desc: TreeDesc, o: int, st: int, opt: nat, stat: nat, s: nat)
    requires TreeDone(fc, dl, maxCode, f0, desc, o, st, opt, stat) && s < desc.elems && f0[s] != 0
    ensures s <= maxCode && dl[..maxCode + 1][s] > 0 && Serves(CodeTree(fc, dl), dl[..maxCode + 1], s)
  {
    hide Complete, Weighted, CodeCosts, Codes.HasCode;
  }

  lemma BlockServed(lfc: seq<nat>, ldl: seq<nat>, lMax: nat, dfc: seq<nat>, ddl: seq<nat>, dMax: nat, ts: seq<Token>,
                    o: int, st: int, opt: nat, stat: nat, o': int, st': int, opt': nat, stat': nat)
    requires AllValid(ts) && TreeDone(lfc, ldl, lMax, LFreqs(ts), L_DESC, o, st, opt, stat)
    requires TreeDone(dfc, ddl, dMax, DFreqs(ts), D_DESC, o', st', opt', stat')
    ensures ServesBlock(CodeTree(lfc, ldl), CodeTree(dfc, ddl), ldl[..lMax + 1], ddl[..dMax + 1], ts)
    ensures lMax >= 256 && ldl[END_BLOCK] > 0
  {
    hide TreeDone, LFreqs, DFreqs, Serves, LSym, DSym;
    TreeSizes(lfc, ldl, lMax, LFreqs(ts), L_DESC, o, st, opt, stat);
    TreeSizes(dfc, ddl, dMax, DFreqs(ts), D_DESC, o', st', opt', stat');
    EndBlockCounted(ts);
    TreeServes(lfc, ldl, lMax, LFreqs(ts), L_DESC, o, st, opt, stat, END_BLOCK);
    forall i | 0 <= i < |ts| ensures ServesToken(CodeTree(lfc, ldl), CodeTree(dfc, ddl), ldl[..lMax + 1], ddl[..dMax + 1], ts[i]) {
      FreqsCover(ts, i);
      TreeServes(lfc, ldl, lMax, LFreqs(ts), L_DESC, o, st, opt, stat, LSym(ts[i]));
      if ts[i].Match? {
        TreeServes(dfc, ddl, dMax, DFreqs(ts), D_DESC, o', st', opt', stat', DSym(ts[i]));
      }
    }
  }

  lemma TreeSizes(fc: seq<nat>, dl: seq<nat>, maxCode: nat, f0: seq<nat>, desc: TreeDesc, o: int, st: int, opt: nat, stat: nat)
    requires TreeDone(fc, dl, maxCode, f0, desc, o, st, opt, stat)
    ensures 1 <= maxCode < desc.elems < |dl| == |fc| && |f0| == desc.elems && Complete(dl[..maxCode + 1])
    ensures LensWithin(dl[..maxCode + 1], desc.maxLength) && CodesReady(fc, dl, dl[..maxCode + 1])
    ensures opt == Wrap32(o + Weighted(f0, CodeCosts(desc, dl[..maxCode + 1])))
    ensures stat == Wrap32(st + if desc.staticLens == [] then 0 else Weighted(f0, CodeCosts(desc, desc.staticLens)))
  {
    hide Weighted, CodeCosts, Codes.HasCode, Wrap32, Kraft;
  }

  // ----- The code length tree -----

  ghost function SymCounts(items: seq<Item>): (r: seq<nat>)
    ensures |r| == BL_CODES
  {
    seq(BL_CODES, s requires 0 <= s < BL_CODES => CountSym(items, s))
  }

  lemma {:induction false} ItemsCost(cl: seq<nat>, items: seq<Item>)
    requires |cl| == BL_CODES && forall k :: 0 <= k < |items| ==> items[k].sym < BL_CODES
    ensures |EncodeItems(cl, items)| == Weighted(SymCounts(items), CodeCosts(BL_DESC, cl))
  {
    hide Weighted, Codeword;
    var costs := CodeCosts(BL_DESC, cl);
    if items == [] {
      assert SymCounts(items) == Zeros(BL_CODES);
      WeightedZeros(BL_CODES, costs);
    } else {
      ItemsCost(cl, items[1..]);
      assert SymCounts(items) == Bump(SymCounts(items[1..]), items[0].sym);
      WeightedBump(SymCounts(items[1..]), costs, items[0].sym);
      BlCost(cl, items[0].sym);
    }
  }

  lemma BlCost(cl: seq<nat>, s: nat)
    requires |cl| == BL_CODES && s < BL_CODES
    ensures CodeCosts(BL_DESC, cl)[s] == cl[s] + BlExtra(s)
  {
  }

  lemma {:induction false} CountedOccurs(items: seq<Item>, k: nat)
    requires k < |items|
    ensures CountSym(items, items[k].sym) > 0
  {
    if k > 0 { CountedOccurs(items[1..], k - 1); }
  }

  /** The lengths of the code length codes make all items sendable. */
  lemma ItemsSendable(l: seq<nat>, d: seq<nat>, cl: seq<nat>, f0: seq<nat>)
    requires Complete(l) && Complete(d) && |cl| == BL_CODES && |f0| == BL_CODES
    requires forall s :: 0 <= s < BL_CODES ==> f0[s] == CountSym(RunItems(l) + RunItems(d), s)
    requires forall s :: 0 <= s < BL_CODES && f0[s] != 0 ==> cl[s] > 0
    ensures Sendable(cl, RunItems(l) + RunItems(d))
  {
    hide Complete, CountSym, Runs, ValidItem;
    LensBelow16(l);
    LensBelow16(d);
    RunsValid(l, 0, -1, 0);
    RunsValid(d, 0, -1, 0);
    var items := RunItems(l) + RunItems(d);
    forall k | 0 <= k < |items| ensures ValidItem(items[k]) && items[k].sym < BL_CODES && cl[items[k].sym] > 0 {
      ItemOfEither(RunItems(l), RunItems(d), k);
      ValidSym(items[k]);
      CountedOccurs(items, k);
    }
  }

  lemma ItemOfEither(a: seq<Item>, b: seq<Item>, k: nat)
    requires (forall i :: 0 <= i < |a| ==> ValidItem(a[i])) && (forall i :: 0 <= i < |b| ==> ValidItem(b[i])) && k < |a + b|
    ensures ValidItem((a + b)[k])
  {
  }

  lemma ValidSym(i: Item)
    ensures ValidItem(i) ==> i.sym < BL_CODES
  {
  }

  /** Some plain length is sent, because the end-of-block symbol has one. */
  lemma PlainSent(l: seq<nat>, d: seq<nat>, cl: seq<nat>) returns (s: nat)
    requires Complete(l) && |l| > END_BLOCK && l[END_BLOCK] > 0 && Sendable(cl, RunItems(l) + RunItems(d))
    ensures 1 <= s < 16 && cl[s] > 0
  {
    hide Complete, Runs;
    LensBelow16(l);
    NonzeroIsPlain(l, 0, -1, 0, END_BLOCK);
    PlainAppend(RunItems(l), RunItems(d));
    var items := RunItems(l) + RunItems(d);
    var k :| 0 <= k < |items| && 1 <= items[k].sym < 16;
    s := items[k].sym;
  }

  /** The code length tree on all 19 symbols. */
  lemma ClTree(fc: seq<nat>, dl: seq<nat>, maxCode: nat, f0: seq<nat>, o: int, st: int, opt: nat, stat: nat)
    requires TreeDone(fc, dl, maxCode, f0, BL_DESC, o, st, opt, stat)
    ensures |dl| >= BL_CODES && |f0| == BL_CODES
    ensures var cl := dl[..BL_CODES];
            && Complete(cl) && LensWithin(cl, 7) && CodesReady(fc, dl, cl)
            && (forall s :: 0 <= s < BL_CODES && f0[s] != 0 ==> cl[s] > 0)
            && opt == Wrap32(o + Weighted(f0, CodeCosts(BL_DESC, cl)))
  {
    hide Weighted, Wrap32, Complete, Kraft, CodesReady, TreeDone, CodeCosts;
    TreeSizes(fc, dl, maxCode, f0, BL_DESC, o, st, opt, stat);
    var lens, k, cl := dl[..maxCode + 1], BL_CODES - (maxCode + 1), dl[..BL_CODES];
    TreeTail(fc, dl, maxCode, f0, o, st, opt, stat);
    assert cl == lens + Zeros(k);
    CompletePad(lens, k);
    KraftPad(lens, k, 7);
    ReadyPad(fc, dl, lens, k);
    CostsPad(lens, k);
  }

  lemma TreeTail(fc: seq<nat>, dl: seq<nat>, maxCode: nat, f0: seq<nat>, o: int, st: int, opt: nat, stat: nat)
    requires TreeDone(fc, dl, maxCode, f0, BL_DESC, o, st, opt, stat)
    ensures forall n :: maxCode < n < BL_CODES ==> dl[n] == 0
    ensures forall n :: 0 <= n < BL_CODES && f0[n] != 0 ==> dl[n] > 0
  {
    hide Weighted, CodeCosts, Codes.HasCode, Wrap32, Kraft, Complete;
  }

  lemma ReadyPad(fc: seq<nat>, dl: seq<nat>, lens: seq<nat>, k: nat)
    requires CodesReady(fc, dl, lens) && |lens| + k <= |dl| && |dl| == |fc| && dl[..|lens| + k] == lens + Zeros(k)
    ensures CodesReady(fc, dl, lens + Zeros(k))
  {
    hide Codes.HasCode;
    var cl := lens + Zeros(k);
    forall n | 0 <= n < |cl| ensures dl[n] == cl[n] && Codes.HasCode(fc[n], cl, n) {
      assert dl[n] == dl[..|lens| + k][n];
      HasCodePad(fc[n], lens, k, n);
    }
  }

  lemma CostsPad(lens: seq<nat>, k: nat)
    requires |lens| + k == BL_CODES
    ensures CodeCosts(BL_DESC, lens + Zeros(k)) == CodeCosts(BL_DESC, lens)
  {
  }

  lemma HasCodePad(code: nat, lens: seq<nat>, k: nat, n: nat)
    requires n < |lens| ==> Codes.HasCode(code, lens, n)
    requires n < |lens| + k
    ensures Codes.HasCode(code, lens + Zeros(k), n)
  {
    hide Codeword, Pow2;
    if n < |lens| { CodewordPad(lens, k, n); }
  }

  // ----- Bounds, so that no count of bits wraps -----

  lemma {:induction false} TotalCounts(items: seq<Item>)
    requires forall k :: 0 <= k < |items| ==> items[k].sym < BL_CODES
    ensures Total(SymCounts(items)) == |items|
  {
    hide Total;
    if items == [] {
      assert SymCounts(items) == Zeros(BL_CODES);
      TotalZeros(BL_CODES);
    } else {
      TotalCounts(items[1..]);
      assert SymCounts(items) == Bump(SymCounts(items[1..]), items[0].sym);
      TotalBump(SymCounts(items[1..]), items[0].sym);
    }
  }

  lemma {:induction false} ItemsBound(cl: seq<nat>, items: seq<Item>)
    requires LensWithin(cl, 7) && forall k :: 0 <= k < |items| ==> items[k].sym < |cl|
    ensures |EncodeItems(cl, items)| <= 14 * |items|
  {
    hide Codeword;
    if items != [] { ItemsBound(cl, items[1..]); }
  }

  lemma TokenBound(l: seq<nat>, d: seq<nat>, t: Token)
    requires Codable(l, d, t) && LensWithin(l, MAX_BITS) && LensWithin(d, MAX_BITS)
    ensures |EncodeToken(l, d, t)| <= 48
  {
    hide LCosts, DCosts, EncodeToken, LengthCodeOf, DistCodeOf;
    TokenCost(l, d, t);
    LCostAt(l, LSym(t));
    if t.Match? { DCostAt(d, DSym(t)); }
  }

  lemma {:induction false} TokensBound(l: seq<nat>, d: seq<nat>, ts: seq<Token>)
    requires AllCodable(l, d, ts) && LensWithin(l, MAX_BITS) && LensWithin(d, MAX_BITS)
    ensures |EncodeTokens(l, d, ts)| <= 48 * |ts|
  {
    hide EncodeToken, Codable;
    if ts != [] {
      assert Codable(l, d, ts[0]);
      TokenBound(l, d, ts[0]);
      TokensBound(l, d, ts[1..]);
    }
  }

  lemma {:induction false} ClBitsSize(cl: seq<nat>, count: nat, i: nat)
    requires |cl| == BL_CODES && i <= count <= BL_CODES
    ensures |ClBits(cl, count, i)| == 3 * (count - i)
    decreases count - i
  {
    if i < count { ClBitsSize(cl, count, i + 1); }
  }

  /** The exact size of the header. */
  lemma HeaderCost(l: seq<nat>, d: seq<nat>, cl: seq<nat>, blcodes: nat)
    requires HeaderOk(l, d, cl, blcodes)
    ensures var items := RunItems(l) + RunItems(d);
            |HeaderBits(l, d, cl, blcodes)| == 14 + 3 * blcodes + Weighted(SymCounts(items), CodeCosts(BL_DESC, cl))
    ensures |HeaderBits(l, d, cl, blcodes)| < 5000
  {
    hide Complete, Weighted, CodeCosts, SymCounts, Runs, EncodeItems, ClBits;
    var items := RunItems(l) + RunItems(d);
    SendableSyms(cl, items);
    ItemsCost(cl, items);
    ItemsBound(cl, items);
    ClBitsSize(cl, blcodes, 0);
  }

  /** The exact size of the data of a block. */
  lemma DataCost(l: seq<nat>, d: seq<nat>, ts: seq<Token>)
    requires AllCodable(l, d, ts) && AllValid(ts) && LensWithin(l, MAX_BITS) && LensWithin(d, MAX_BITS) && END_BLOCK < |l|
    requires |ts| < LIT_BUFSIZE
    ensures |BlockData(l, d, ts)| == Weighted(LFreqs(ts), CodeCosts(L_DESC, l)) + Weighted(DFreqs(ts), CodeCosts(D_DESC, d))
    ensures |BlockData(l, d, ts)| < 400_000
  {
    hide EncodeTokens, Weighted, CodeCosts, LFreqs, DFreqs, Codeword;
    BlockCost(l, d, ts);
    TokensBound(l, d, ts);
  }

  // ----- build_bl_tree -----

  /** The arrays of the three dynamic trees, and the work arrays of `build_tree`.  Each tree has
      one array for the frequency or code and one for the parent or length of a node. */
  datatype TreeArrays = TreeArrays(heap: array<nat>, depth: array<nat>, blCount: array<nat>,
                                   lFc: array<nat>, lDl: array<nat>, dFc: array<nat>, dDl: array<nat>,
                                   blFc: array<nat>, blDl: array<nat>) {
    ghost predicate Separate() {
      && heap.Length == depth.Length == lFc.Length == lDl.Length == HEAP_SIZE && blCount.Length == MAX_BITS + 1
      && dFc.Length == dDl.Length == 2 * D_CODES + 1 && blFc.Length == blDl.Length == 2 * BL_CODES + 1
      && heap != depth && heap != lFc && heap != lDl && heap != dFc && heap != dDl && heap != blFc && heap != blDl && heap != blCount
      && depth != lFc && depth != lDl && depth != dFc && depth != dDl && depth != blFc && depth != blDl && depth != blCount
      && blCount != lFc && blCount != lDl && blCount != dFc && blCount != dDl && blCount != blFc && blCount != blDl
      && lFc != lDl && lFc != dFc && lFc != dDl && lFc != blFc && lFc != blDl
      && lDl != dFc && lDl != dDl && lDl != blFc && lDl != blDl
      && dFc != dDl && dFc != blFc && dFc != blDl && dDl != blFc && dDl != blDl && blFc != blDl
    }

    ghost function All(): set<object> {
      {heap, depth, blCount, lFc, lDl, dFc, dDl, blFc, blDl}
    }
  }

  ghost predicate Lens16(l: seq<nat>) {
    forall i :: 0 <= i < |l| ==> l[i] < 16
  }

  lemma CountsAre(f0: seq<nat>, f: seq<nat>, items: seq<Item>)
    requires Counted(f0, f, items) && f0[..BL_CODES] == Zeros(BL_CODES)
    ensures f[..BL_CODES] == SymCounts(items) && forall s :: 0 <= s < BL_CODES ==> f[s] <= |items|
  {
    assert forall s :: 0 <= s < BL_CODES ==> f0[s] == f0[..BL_CODES][s];
  }

  lemma RoomFor(f: seq<nat>, items: seq<Item>, room: nat)
    requires |f| >= BL_CODES && |items| + room < TWO16
    requires forall s :: 0 <= s < BL_CODES ==> f[s] <= |items|
    ensures Room(f, room)
  {
  }

  /** Counts the code length symbols of both trees. */
  method ScanTrees(ta: TreeArrays, lMax: nat, dMax: nat, ghost l: seq<nat>, ghost d: seq<nat>)
    requires ta.Separate() && 256 <= lMax < L_CODES && dMax < D_CODES
    requires l == ta.lDl[..lMax + 1] && d == ta.dDl[..dMax + 1] && Lens16(l) && Lens16(d)
    requires ta.blFc[..BL_CODES] == Zeros(BL_CODES)
    modifies ta.blFc, ta.lDl, ta.dDl
    ensures ta.blFc[..BL_CODES] == SymCounts(RunItems(l) + RunItems(d))
    ensures Guarded(ta.lDl[..], l) && ta.lDl[..] == old(ta.lDl[..])[lMax + 1 := GUARD]
    ensures Guarded(ta.dDl[..], d) && ta.dDl[..] == old(ta.dDl[..])[dMax + 1 := GUARD]
  {
    hide Runs, RunItems, Guarded, Counted, Room, SymCounts, CountSym;
    ghost var f0: seq<nat>, dd: seq<nat>, a, b := ta.blFc[..], ta.dDl[..], RunItems(l), RunItems(d);
    CountedNone(f0);
    assert f0[..BL_CODES] == Zeros(BL_CODES);
    CountsAre(f0, f0, []);
    RoomFor(f0, [], 138 + |l|);
    ScanTree(ta.blFc, ta.lDl, lMax, l);
    ghost var f1: seq<nat>, ld: seq<nat> := ta.blFc[..], ta.lDl[..];
    CountsAre(f0, f1, a);
    CountedSize(f0, f1, a);
    RoomFor(f1, a, 138 + |d|);
    assert ta.dDl[..dMax + 1] == dd[..dMax + 1];
    ScanTree(ta.blFc, ta.dDl, dMax, d);
    assert ta.lDl[..] == ld;
    CountedMore(f0, f1, ta.blFc[..], a, b);
    CountsAre(f0, ta.blFc[..], a + b);
    assert ta.blFc[..BL_CODES] == ta.blFc[..][..BL_CODES];
  }

  lemma CountedSize(f0: seq<nat>, f: seq<nat>, items: seq<Item>)
    requires Counted(f0, f, items)
    ensures |f| == |f0| >= BL_CODES
  {
  }

  lemma ItemSyms(l: seq<nat>, d: seq<nat>)
    requires Lens16(l) && Lens16(d)
    ensures forall k :: 0 <= k < |RunItems(l) + RunItems(d)| ==> (RunItems(l) + RunItems(d))[k].sym < BL_CODES
  {
    hide Runs, ValidItem;
    RunsValid(l, 0, -1, 0);
    RunsValid(d, 0, -1, 0);
    var items := RunItems(l) + RunItems(d);
    forall k | 0 <= k < |items| ensures items[k].sym < BL_CODES {
      ItemOfEither(RunItems(l), RunItems(d), k);
      ValidSym(items[k]);
    }
  }

  /** What `build_tree` leaves of the code length tree makes the header sendable. */
  lemma ClReady(fc: seq<nat>, dl: seq<nat>, maxCode: nat, l: seq<nat>, d: seq<nat>, o: int, st: int, opt: nat, stat: nat) returns (s: nat)
    requires Complete(l) && Complete(d) && |l| > END_BLOCK && l[END_BLOCK] > 0
    requires TreeDone(fc, dl, maxCode, SymCounts(RunItems(l) + RunItems(d)), BL_DESC, o, st, opt, stat)
    ensures |dl| >= BL_CODES && stat == Wrap32(st)
    ensures var cl, items := dl[..BL_CODES], RunItems(l) + RunItems(d);
            && Complete(cl) && LensWithin(cl, 7) && CodesReady(fc, dl, cl) && Sendable(cl, items) && 1 <= s < 16 && cl[s] > 0
            && opt == Wrap32(o + Weighted(SymCounts(items), CodeCosts(BL_DESC, cl)))
  {
    hide TreeDone, Weighted, Wrap32, Complete, LensWithin, CodesReady, Runs, RunItems, CountSym, CodeCosts, Sendable;
    var items := RunItems(l) + RunItems(d);
    ClTree(fc, dl, maxCode, SymCounts(items), o, st, opt, stat);
    TreeSizes(fc, dl, maxCode, SymCounts(items), BL_DESC, o, st, opt, stat);
    ItemsSendable(l, d, dl[..BL_CODES], SymCounts(items));
    s := PlainSent(l, d, dl[..BL_CODES]);
  }

  method BuildBlTree(ta: TreeArrays, lMax: nat, dMax: nat, optLen: nat, staticLen: nat, ghost o: nat, ghost st: nat, ghost l: seq<nat>, ghost d: seq<nat>)
    returns (maxBlindex: nat, optLen': nat, staticLen': nat, ghost cl: seq<nat>)
    requires ta.Separate() && 256 <= lMax < L_CODES && dMax < D_CODES
    requires l == ta.lDl[..lMax + 1] && d == ta.dDl[..dMax + 1] && Complete(l) && Complete(d) && l[END_BLOCK] > 0
    requires ta.blFc[..BL_CODES] == Zeros(BL_CODES) && optLen == Wrap32(o) && staticLen == Wrap32(st)
    modifies ta.heap, ta.depth, ta.blCount, ta.blFc, ta.blDl, ta.lDl, ta.dDl
    ensures HeaderOk(l, d, cl, maxBlindex + 1)
    ensures optLen' == Wrap32(o + |HeaderBits(l, d, cl, maxBlindex + 1)|) && staticLen' == staticLen
    ensures CodesReady(ta.blFc[..], ta.blDl[..], cl) && ta.blDl[..BL_CODES] == cl
    ensures Minimal(SymCounts(RunItems(l) + RunItems(d)), cl, BL_DESC.maxLength)
    ensures Guarded(ta.lDl[..], l) && ta.lDl[..] == old(ta.lDl[..])[lMax + 1 := GUARD]
    ensures Guarded(ta.dDl[..], d) && ta.dDl[..] == old(ta.dDl[..])[dMax + 1 := GUARD]
  {
    hide TreeDone, Weighted, Wrap32, Complete, LensWithin, CodesReady, Runs, RunItems, CountSym, SymCounts, CodeCosts, Sendable, Guarded,
         Total, HeaderBits, Minimal, TreeDesc.Valid, Pow2;
    ghost var items := RunItems(l) + RunItems(d);
    LensBelow16(l);
    LensBelow16(d);
    ScanTrees(ta, lMax, dMax, l, d);
    ghost var ld: seq<nat>, dd: seq<nat> := ta.lDl[..], ta.dDl[..];
    ItemSyms(l, d);
    TotalCounts(items);
    DescsValid();
    BlDescSmall();
    var maxCode: nat;
    maxCode, optLen', staticLen' :=
      BuildTree.BuildTree(ta.heap, ta.depth, ta.blCount, ta.blFc, ta.blDl, BL_DESC, optLen, staticLen, o, st);
    assert ta.lDl[..] == ld && ta.dDl[..] == dd;
    ghost var s := ClReady(ta.blFc[..], ta.blDl[..], maxCode, l, d, o, st, optLen', staticLen');
    cl := ta.blDl[..BL_CODES];
    assert cl == ta.blDl[..][..BL_CODES];
    maxBlindex := LastBlIndex(ta.blDl, cl, s);
    HeaderCost(l, d, cl, maxBlindex + 1);
    WrapAdd(o + Weighted(SymCounts(items), CodeCosts(BL_DESC, cl)), 3 * (maxBlindex + 1) + 5 + 5 + 4);
    optLen' := Wrap32(optLen' + 3 * (maxBlindex + 1) + 5 + 5 + 4);
  }

  lemma BlDescSmall()
    ensures BL_DESC.elems == BL_CODES && BL_CODES < Pow2(BL_DESC.maxLength)
  {
    Pow2Values();
  }
}
