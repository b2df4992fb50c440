/** The header of a dynamic block (section 3.2.7 of RFC 1951): what `scan_tree` counts, what
    `send_tree` and `send_all_trees` emit, and that the reference decoder reads it back. */
module TreeHeader {
  import opened Bits
  import opened BitWriting
  import opened Rfc1951
  import opened CanonicalCodes
  import opened RunLengths
  import Codes = GenCodes

  /** `bl_order`: the order in which the lengths of the code length codes are sent. */
  const BL_ORDER: seq<nat> := [16, 17, 18, 0, 8, 7, 9, 6, 10, 5, 11, 4, 12, 3, 13, 2, 14, 1, 15]

  /** The decoder expects them in the same order. */
  lemma OrdersAgree()
    ensures BL_ORDER == CL_ORDER
  {
  }

  // ----- Items as bits -----

  function EncodeItem(cl: seq<nat>, i: Item): seq<bool>
    requires i.sym < |cl|
  {
    Codeword(cl, i.sym) + BitsOf(i.extra, BlExtra(i.sym))
  }

  ghost predicate Sendable(cl: seq<nat>, items: seq<Item>) {
    |cl| == BL_CODES && forall k :: 0 <= k < |items| ==> ValidItem(items[k]) && cl[items[k].sym] > 0
  }

  function EncodeItems(cl: seq<nat>, items: seq<Item>): seq<bool>
    requires forall k :: 0 <= k < |items| ==> items[k].sym < |cl|
  {
    if items == [] then [] else EncodeItem(cl, items[0]) + EncodeItems(cl, items[1..])
  }

  lemma {:induction false} EncodeItemsAppend(cl: seq<nat>, a: seq<Item>, b: seq<Item>)
    requires forall k :: 0 <= k < |a| ==> a[k].sym < |cl|
    requires forall k :: 0 <= k < |b| ==> b[k].sym < |cl|
    ensures EncodeItems(cl, a + b) == EncodeItems(cl, a) + EncodeItems(cl, b)
  {
    hide EncodeItem;
    if a == [] {
      assert a + b == b;
    } else {
      assert (a + b)[1..] == a[1..] + b;
      EncodeItemsAppend(cl, a[1..], b);
      assert EncodeItem(cl, a[0]) + (EncodeItems(cl, a[1..]) + EncodeItems(cl, b)) == EncodeItems(cl, a) + EncodeItems(cl, b);
    }
  }

  lemma ReadBack(v: nat, n: nat, rest: seq<bool>)
    requires v < Pow2(n)
    ensures ReadBits(BitsOf(v, n) + rest, n) == Some((v, rest))
  {
    var bits := BitsOf(v, n) + rest;
    assert bits[..n] == BitsOf(v, n) && bits[n..] == rest;
    ValueOfBits(v, n);
  }

  lemma {:induction false} UnrunGrows(items: seq<Item>, acc: seq<nat>)
    requires Unrun(items, acc).Some?
    ensures |Unrun(items, acc).value| >= |acc| + |items|
  {
    if items != [] {
      UnrunGrows(items[1..], acc + RunOf(items[0].sym, items[0].extra, acc).value);
    }
  }

  /** The reference decoder expands the encoded items. */
  lemma {:induction false} ReadLensDecodes(cl: seq<nat>, items: seq<Item>, acc: seq<nat>, rest: seq<bool>)
    requires Sendable(cl, items) && Complete(cl) && Unrun(items, acc).Some?
    ensures ReadLens(cl, EncodeItems(cl, items) + rest, |Unrun(items, acc).value|, acc) == Some((Unrun(items, acc).value, rest))
    decreases |items|
  {
    hide Codeword, DecodeSymbol, Complete, BitsOf, ReadBits, Kraft, BlExtra, RepeatBits;
    var total := |Unrun(items, acc).value|;
    UnrunGrows(items, acc);
    if items == [] {
      assert EncodeItems(cl, items) + rest == rest;
    } else {
      var i, tail := items[0], EncodeItems(cl, items[1..]) + rest;
      var run := RunOf(i.sym, i.extra, acc).value;
      var bits := EncodeItems(cl, items) + rest;
      BlExtraAgrees(i.sym);
      assert bits == Codeword(cl, i.sym) + (BitsOf(i.extra, RepeatBits(i.sym)) + tail);
      assert DecodeSymbol(cl, bits) == Some((i.sym, BitsOf(i.extra, RepeatBits(i.sym)) + tail)) by {
        DecodeComplete(cl, i.sym, BitsOf(i.extra, RepeatBits(i.sym)) + tail);
      }
      ReadBack(i.extra, RepeatBits(i.sym), tail);
      ReadLensDecodes(cl, items[1..], acc + run, rest);
    }
  }

  lemma DecodeComplete(lens: seq<nat>, n: nat, rest: seq<bool>)
    requires Complete(lens) && n < |lens| && lens[n] > 0
    ensures DecodeSymbol(lens, Codeword(lens, n) + rest) == Some((n, rest))
  {
    DecodeCodeword(lens, n, rest);
  }

  // ----- The lengths of the code length codes -----

  /** The length with rank k in transmission order. */
  function OrderedLen(cl: seq<nat>, k: nat): nat
    requires |cl| == BL_CODES && k < BL_CODES
  {
    cl[BL_ORDER[k]]
  }

  /** Three-bit lengths in transmission order, from rank i up to `count`. */
  function ClBits(cl: seq<nat>, count: nat, i: nat): seq<bool>
    requires |cl| == BL_CODES && i <= count <= BL_CODES
    decreases count - i
  {
    if i == count then [] else BitsOf(OrderedLen(cl, i), 3) + ClBits(cl, count, i + 1)
  }

  /** The decoder's lengths after i ranks: those sent so far, zero elsewhere. */
  function Partial(cl: seq<nat>, i: nat): (r: seq<nat>)
    requires |cl| == BL_CODES && i <= BL_CODES
    ensures |r| == BL_CODES
  {
    if i == 0 then Repeat(0, BL_CODES) else Partial(cl, i - 1)[BL_ORDER[i - 1] := cl[BL_ORDER[i - 1]]]
  }

  lemma {:induction false} ReadClDecodes(cl: seq<nat>, count: nat, i: nat, rest: seq<bool>)
    requires |cl| == BL_CODES && LensWithin(cl, 7) && i <= count <= BL_CODES
    ensures ReadClLens(ClBits(cl, count, i) + rest, count, i, Partial(cl, i)) == Some((Partial(cl, count), rest))
    decreases count - i
  {
    hide BitsOf, ReadBits, Pow2;
    if i == count {
      assert ClBits(cl, count, i) + rest == rest;
    } else {
      var tail, l := ClBits(cl, count, i + 1) + rest, OrderedLen(cl, i);
      assert ClBits(cl, count, i) + rest == BitsOf(l, 3) + tail;
      ThreeBits(l);
      ReadBack(l, 3, tail);
      OrdersAgree();
      ReadClDecodes(cl, count, i + 1, rest);
    }
  }

  lemma ThreeBits(l: nat)
    requires l <= 7
    ensures l < Pow2(3)
  {
    Pow2Values();
  }

  lemma {:induction false} PartialAt(cl: seq<nat>, i: nat, k: nat)
    requires |cl| == BL_CODES && i <= BL_CODES && k < BL_CODES
    ensures Partial(cl, i)[BL_ORDER[k]] == if k < i then cl[BL_ORDER[k]] else 0
  {
    if i > 0 {
      PartialAt(cl, i - 1, k);
      if i - 1 != k { OrderDistinct(i - 1, k); }
    }
  }

  lemma OrderDistinct(i: nat, k: nat)
    requires i < BL_CODES && k < BL_CODES && i != k
    ensures BL_ORDER[i] != BL_ORDER[k]
  {
    assert BL_ORDER == [16, 17, 18, 0, 8, 7, 9, 6, 10, 5, 11, 4, 12, 3, 13, 2, 14, 1, 15];
  }

  /** The rank of a code length symbol in the transmission order. */
  function RankOf(s: nat): (r: nat)
    requires s < BL_CODES
    ensures r < BL_CODES && BL_ORDER[r] == s
  {
    [3, 17, 15, 13, 11, 9, 7, 5, 4, 6, 8, 10, 12, 14, 16, 18, 0, 1, 2][s]
  }

  /** Leaving out trailing zero lengths loses nothing. */
  lemma PartialIsAll(cl: seq<nat>, count: nat)
    requires |cl| == BL_CODES && count <= BL_CODES && forall k :: count <= k < BL_CODES ==> OrderedLen(cl, k) == 0
    ensures Partial(cl, count) == cl
  {
    forall s | 0 <= s < BL_CODES ensures Partial(cl, count)[s] == cl[s] {
      PartialAt(cl, count, RankOf(s));
      assert OrderedLen(cl, RankOf(s)) == cl[s];
    }
  }

  // ----- The whole header -----

  function HeaderBits(l: seq<nat>, d: seq<nat>, cl: seq<nat>, blcodes: nat): seq<bool>
    requires |l| >= 257 && |d| >= 1 && 4 <= blcodes <= BL_CODES && |cl| == BL_CODES
    requires Sendable(cl, RunItems(l) + RunItems(d))
  {
    BitsOf(|l| - 257, 5) + (BitsOf(|d| - 1, 5) + (BitsOf(blcodes - 4, 4) + (ClBits(cl, blcodes, 0)
    + EncodeItems(cl, RunItems(l) + RunItems(d)))))
  }

  ghost predicate HeaderOk(l: seq<nat>, d: seq<nat>, cl: seq<nat>, blcodes: nat) {
    && 257 <= |l| <= 286 && 1 <= |d| <= 30 && 4 <= blcodes <= BL_CODES
    && |cl| == BL_CODES && LensWithin(cl, 7) && Complete(cl) && Complete(l) && Complete(d)
    && (forall k :: blcodes <= k < BL_CODES ==> OrderedLen(cl, k) == 0)
    && Sendable(cl, RunItems(l) + RunItems(d))
  }

  lemma LensBelow16(l: seq<nat>)
    requires Complete(l)
    ensures forall i :: 0 <= i < |l| ==> l[i] < 16
  {
  }

  lemma SmallCounts(a: nat, b: nat, c: nat)
    requires a < 32 && b < 32 && c < 16
    ensures a < Pow2(5) && b < Pow2(5) && c < Pow2(4)
  {
    Pow2Values();
  }

  /** The reference decoder reads the header back. */
  lemma HeaderDecodes(l: seq<nat>, d: seq<nat>, cl: seq<nat>, blcodes: nat, rest: seq<bool>)
    requires HeaderOk(l, d, cl, blcodes)
    ensures ReadCodes(HeaderBits(l, d, cl, blcodes) + rest) == Some((Rfc1951.Codes(l, d), rest))
  {
    hide BitsOf, ReadBits, Pow2, Complete, Kraft, Sendable, RunItems, EncodeItems, ClBits, ReadClLens, ReadLens, Unrun, Partial;
    var items := RunItems(l) + RunItems(d);
    SendableSyms(cl, items);
    var b4 := EncodeItems(cl, items) + rest;
    var b3 := ClBits(cl, blcodes, 0) + b4;
    var b2 := BitsOf(blcodes - 4, 4) + b3;
    var b1 := BitsOf(|d| - 1, 5) + b2;
    assert HeaderBits(l, d, cl, blcodes) + rest == BitsOf(|l| - 257, 5) + b1;
    SmallCounts(|l| - 257, |d| - 1, blcodes - 4);
    ReadBack(|l| - 257, 5, b1);
    ReadBack(|d| - 1, 5, b2);
    ReadBack(blcodes - 4, 4, b3);
    ReadClDecodes(cl, blcodes, 0, b4);
    assert Partial(cl, 0) == Repeat(0, BL_CODES) by { PartialZero(cl); }
    PartialIsAll(cl, blcodes);
    LensBelow16(l);
    LensBelow16(d);
    TwoTreesDecode(l, d);
    ReadLensDecodes(cl, items, [], rest);
    assert (l + d)[..|l|] == l && (l + d)[|l|..] == d;
  }

  lemma SendableSyms(cl: seq<nat>, items: seq<Item>)
    requires Sendable(cl, items)
    ensures |cl| == BL_CODES && forall k :: 0 <= k < |items| ==> items[k].sym < |cl|
  {
  }

  lemma PartialZero(cl: seq<nat>)
    requires |cl| == BL_CODES
    ensures Partial(cl, 0) == Repeat(0, BL_CODES)
  {
  }

  // ----- Sending -----

  /** A tree whose symbols 0..|lens|-1 have the codewords of `lens`. */
  ghost predicate CodesReady(fc: seq<nat>, dl: seq<nat>, lens: seq<nat>) {
    && |lens| <= |fc| && |lens| <= |dl| && LensWithin(lens, MAX_BITS)
    && forall n :: 0 <= n < |lens| ==> dl[n] == lens[n] && Codes.HasCode(fc[n], lens, n)
  }

  /** `SEND_CODE`. */
  method SendCode(w: BitWriter, fc: array<nat>, dl: array<nat>, c: nat, ghost lens: seq<nat>)
    requires w.Valid() && c < fc.Length && c < dl.Length && CodeReady(fc[c], dl[c], lens, c)
    modifies w, w.outbuf
    ensures w.Valid() && w.Sent() == old(w.Sent()) + Codeword(lens, c)
  {
    hide BitsOf, Pow2, Codeword;
    w.SendBits(fc[c], dl[c]);
  }

  /** Symbol c is used and has its codeword. */
  ghost predicate CodeReady(code: nat, len: nat, lens: seq<nat>, c: nat) {
    c < |lens| && len == lens[c] && 0 < len <= MAX_BITS && Codes.HasCode(code, lens, c)
  }

  lemma ReadySymbol(fc: seq<nat>, dl: seq<nat>, lens: seq<nat>, c: nat)
    requires CodesReady(fc, dl, lens) && c < |lens| && lens[c] > 0
    ensures c < |fc| && c < |dl| && CodeReady(fc[c], dl[c], lens, c)
  {
  }

  lemma SendableParts(cl: seq<nat>, a: seq<Item>, b: seq<Item>)
    requires Sendable(cl, a + b)
    ensures Sendable(cl, a) && Sendable(cl, b)
  {
    forall k | 0 <= k < |a| ensures ValidItem(a[k]) && cl[a[k].sym] > 0 {
      assert (a + b)[k] == a[k];
    }
    forall k | 0 <= k < |b| ensures ValidItem(b[k]) && cl[b[k].sym] > 0 {
      assert (a + b)[|a| + k] == b[k];
    }
  }

  lemma EncodeOne(cl: seq<nat>, i: Item)
    requires i.sym < |cl|
    ensures EncodeItems(cl, [i]) == EncodeItem(cl, i)
  {
    assert [i][1..] == [];
    assert EncodeItems(cl, [i][1..]) == [];
  }

  /** Sends a code length symbol and its repeat bits. */
  method SendItem(w: BitWriter, fc: array<nat>, dl: array<nat>, sym: nat, extra: nat, ghost cl: seq<nat>)
    requires w.Valid() && CodesReady(fc[..], dl[..], cl) && |cl| == BL_CODES
    requires ValidItem(Item(sym, extra)) && cl[sym] > 0
    modifies w, w.outbuf
    ensures w.Valid() && w.Sent() == old(w.Sent()) + EncodeItem(cl, Item(sym, extra))
  {
    hide BitsOf, Pow2, Codeword, CodesReady;
    ReadySymbol(fc[..], dl[..], cl, sym);
    SendCode(w, fc, dl, sym, cl);
    w.SendBits(extra, BlExtra(sym));
  }

  /** Sends `count` times the plain code of a length. */
  method SendPlain(w: BitWriter, fc: array<nat>, dl: array<nat>, cur: nat, count: nat, ghost cl: seq<nat>)
    requires w.Valid() && CodesReady(fc[..], dl[..], cl) && cur < 16 && |cl| == BL_CODES && cl[cur] > 0 && count >= 1
    requires w.outbuf as object != fc && w.outbuf as object != dl
    modifies w, w.outbuf
    ensures w.Valid() && w.Sent() == old(w.Sent()) + EncodeItems(cl, seq(count, _ => Item(cur, 0)))
  {
    hide BitsOf, Pow2, Codeword, CodesReady, EncodeItems, EncodeItem;
    ghost var sent := w.Sent();
    var left := count;
    ghost var f: seq<nat>, d: seq<nat> := fc[..], dl[..];
    ghost var done := 0;
    EncodeNone(cl);
    assert seq(0, _ => Item(cur, 0)) == [];
    while left > 0
      invariant w.Valid() && done == count - left && left >= 0 && fc[..] == f && dl[..] == d
      invariant w.Sent() == sent + EncodeItems(cl, seq(done, _ => Item(cur, 0)))
    {
      ReadySymbol(f, d, cl, cur);
      SendCode(w, fc, dl, cur, cl);
      PlainSnoc(cl, cur, done);
      left := left - 1;
      done := done + 1;
    }
  }

  lemma EncodeNone(cl: seq<nat>)
    ensures EncodeItems(cl, []) == []
  {
  }

  lemma PlainSnoc(cl: seq<nat>, cur: nat, n: nat)
    requires cur < |cl| && cur < 16
    ensures EncodeItems(cl, seq(n + 1, _ => Item(cur, 0))) == EncodeItems(cl, seq(n, _ => Item(cur, 0))) + Codeword(cl, cur)
  {
    hide EncodeItems, EncodeItem, Codeword;
    var a, i := seq(n, _ => Item(cur, 0)), Item(cur, 0);
    assert seq(n + 1, _ => Item(cur, 0)) == a + [i];
    EncodeItemsAppend(cl, a, [i]);
    EncodeOne(cl, i);
    PlainItem(cl, cur);
  }

  lemma PlainItem(cl: seq<nat>, cur: nat)
    requires cur < |cl| && cur < 16
    ensures EncodeItem(cl, Item(cur, 0)) == Codeword(cl, cur)
  {
    hide Codeword;
  }

  lemma EncodeTwo(cl: seq<nat>, i: Item, j: Item)
    requires i.sym < |cl| && j.sym < |cl|
    ensures EncodeItems(cl, [i, j]) == EncodeItem(cl, i) + EncodeItem(cl, j)
  {
    hide EncodeItem;
    assert [i, j] == [i] + [j];
    EncodeItemsAppend(cl, [i], [j]);
    EncodeOne(cl, i);
    EncodeOne(cl, j);
  }

  /** Sends one run, as the body of the loop in `send_tree` does. */
  method SendRun(w: BitWriter, fc: array<nat>, dl: array<nat>, prevlen: int, cur: nat, count: nat, minCount: nat, ghost cl: seq<nat>)
    requires w.Valid() && CodesReady(fc[..], dl[..], cl) && cur < 16 && 1 <= count <= MaxCount(prevlen, cur)
    requires minCount == MinCount(prevlen, cur) && Sendable(cl, Emit(prevlen, cur, count))
    requires w.outbuf as object != fc && w.outbuf as object != dl
    modifies w, w.outbuf
    ensures w.Valid() && w.Sent() == old(w.Sent()) + EncodeItems(cl, Emit(prevlen, cur, count))
  {
    hide BitsOf, Pow2, Codeword, CodesReady, EncodeItems, EncodeItem, ValidItem;
    ghost var items, sent := Emit(prevlen, cur, count), w.Sent();
    assert cl[items[0].sym] > 0 && ValidItem(items[0]);
    if count < minCount {
      SendPlain(w, fc, dl, cur, count, cl);
    } else if cur != 0 {
      var left := count;
      ghost var f: seq<nat>, d: seq<nat> := fc[..], dl[..];
      if cur != prevlen {
        assert cl[items[1].sym] > 0 && ValidItem(items[1]);
        EncodeTwo(cl, Item(cur, 0), Item(REP_3_6, count - 4));
        SendItem(w, fc, dl, cur, 0, cl);
        left := left - 1;
        assert fc[..] == f && dl[..] == d;
      } else {
        EncodeOne(cl, Item(REP_3_6, count - 3));
      }
      SendItem(w, fc, dl, REP_3_6, left - 3, cl);
    } else if count <= 10 {
      EncodeOne(cl, Item(REPZ_3_10, count - 3));
      SendItem(w, fc, dl, REPZ_3_10, count - 3, cl);
    } else {
      EncodeOne(cl, Item(REPZ_11_138, count - 11));
      SendItem(w, fc, dl, REPZ_11_138, count - 11, cl);
    }
  }

  /** Position in the scan of a tree: the items already sent and those to come make up the whole. */
  ghost predicate Scanning(lens: seq<nat>, n: nat, prevlen: int, count: nat, sent: seq<Item>) {
    && n <= |lens| && (n < |lens| ==> count < MaxCount(prevlen, lens[n]))
    && sent + Runs(lens, n, prevlen, count) == RunItems(lens)
  }

  lemma ScanStep(lens: seq<nat>, n: nat, prevlen: int, count: nat, sent: seq<Item>)
    requires Scanning(lens, n, prevlen, count, sent) && n < |lens| && forall i :: 0 <= i < |lens| ==> lens[i] < 16
    ensures var cur := lens[n];
            if count + 1 < MaxCount(prevlen, cur) && cur == NextLen(lens, n)
            then n + 1 < |lens| && Scanning(lens, n + 1, prevlen, count + 1, sent)
            else Scanning(lens, n + 1, cur, 0, sent + Emit(prevlen, cur, count + 1))
  {
    var cur := lens[n];
    if count + 1 < MaxCount(prevlen, cur) && cur == NextLen(lens, n) {
    } else {
      var e, r := Emit(prevlen, cur, count + 1), Runs(lens, n + 1, cur, 0);
      assert sent + (e + r) == (sent + e) + r;
    }
  }

  lemma ScanPart(cl: seq<nat>, lens: seq<nat>, n: nat, prevlen: int, count: nat, sent: seq<Item>, e: seq<Item>)
    requires Scanning(lens, n, prevlen, count, sent + e) && Sendable(cl, RunItems(lens))
    ensures Sendable(cl, sent) && Sendable(cl, e)
    ensures EncodeItems(cl, sent + e) == EncodeItems(cl, sent) + EncodeItems(cl, e)
  {
    hide EncodeItems, Runs, ValidItem;
    SendableParts(cl, sent + e, Runs(lens, n, prevlen, count));
    SendableParts(cl, sent, e);
    SendableSyms(cl, sent);
    SendableSyms(cl, e);
    EncodeItemsAppend(cl, sent, e);
  }

  /** The lengths of a tree with the guard behind them. */
  ghost predicate Guarded(dl: seq<nat>, lens: seq<nat>) {
    |lens| >= 1 && |lens| < |dl| && dl[..|lens|] == lens && dl[|lens|] == GUARD && forall i :: 0 <= i < |lens| ==> lens[i] < 16
  }

  lemma GuardedNext(dl: seq<nat>, lens: seq<nat>, n: nat)
    requires Guarded(dl, lens) && n < |lens|
    ensures dl[n] == lens[n] && dl[n + 1] == NextLen(lens, n) && (n + 1 < |lens| ==> dl[n + 1] == lens[n + 1])
  {
  }

  method SendTree(w: BitWriter, blFc: array<nat>, blDl: array<nat>, dl: array<nat>, maxCode: nat, ghost cl: seq<nat>, ghost lens: seq<nat>)
    requires w.Valid() && CodesReady(blFc[..], blDl[..], cl)
    requires |lens| == maxCode + 1 && Guarded(dl[..], lens) && Sendable(cl, RunItems(lens))
    requires w.outbuf as object != blFc && w.outbuf as object != blDl && w.outbuf as object != dl
    modifies w, w.outbuf
    ensures w.Valid() && SendableNow(cl, lens) && w.Sent() == old(w.Sent()) + EncodeItems(cl, RunItems(lens))
  {
    hide BitsOf, Pow2, CodesReady, EncodeItems, ValidItem, Runs, RunItems, Emit, Guarded, Sendable, Scanning, NextLen;
    ghost var f: seq<nat>, d: seq<nat>, t: seq<nat>, start := blFc[..], blDl[..], dl[..], w.Sent();
    ghost var sent: seq<Item> := [];
    var prevlen: int, count: nat := -1, 0;
    ScanStart(lens);
    GuardedNext(t, lens, 0);
    GuardedLens(t, lens);
    EncodeNone(cl);
    var nextlen := dl[0];
    var maxCount, minCount := 7, 4;
    if nextlen == 0 {
      maxCount, minCount := 138, 3;
    }
    for n := 0 to maxCode + 1
      invariant w.Valid() && blFc[..] == f && blDl[..] == d && dl[..] == t
      invariant Scanning(lens, n, prevlen, count, sent) && SendableSeq(cl, sent) && w.Sent() == start + EncodeItems(cl, sent)
      invariant n < |lens| ==> nextlen == lens[n] && maxCount == MaxCount(prevlen, nextlen) && minCount == MinCount(prevlen, nextlen)
    {
      GuardedNext(t, lens, n);
      GuardedLens(t, lens);
      ScanCount(lens, n, prevlen, count, sent);
      ScanStep(lens, n, prevlen, count, sent);
      var curlen := nextlen;
      nextlen := dl[n + 1];
      count := count + 1;
      if count < maxCount && curlen == nextlen {
        continue;
      }
      ghost var e := Emit(prevlen, curlen, count);
      ScanPart(cl, lens, n + 1, curlen, 0, sent, e);
      SendRun(w, blFc, blDl, prevlen, curlen, count, minCount, cl);
      SentMore(cl, start, sent, e);
      sent := sent + e;
      count := 0;
      prevlen := curlen;
      if nextlen == 0 {
        maxCount, minCount := 138, 3;
      } else if curlen == nextlen {
        maxCount, minCount := 6, 3;
      } else {
        maxCount, minCount := 7, 4;
      }
    }
    ScanEnd(lens, prevlen, count, sent);
  }

  lemma SentMore(cl: seq<nat>, start: seq<bool>, a: seq<Item>, b: seq<Item>)
    requires Sendable(cl, a) && Sendable(cl, b)
    ensures SendableSeq(cl, a) && SendableSeq(cl, b) && SendableSeq(cl, a + b)
    ensures start + EncodeItems(cl, a) + EncodeItems(cl, b) == start + EncodeItems(cl, a + b)
  {
    hide EncodeItems, Sendable;
    SendableSyms(cl, a);
    SendableSyms(cl, b);
    EncodeItemsAppend(cl, a, b);
  }

  ghost predicate SendableSeq(cl: seq<nat>, items: seq<Item>) {
    forall k :: 0 <= k < |items| ==> items[k].sym < |cl|
  }

  ghost predicate SendableNow(cl: seq<nat>, lens: seq<nat>) {
    SendableSeq(cl, RunItems(lens))
  }

  lemma GuardedLens(dl: seq<nat>, lens: seq<nat>)
    requires Guarded(dl, lens)
    ensures |lens| < |dl| && forall i :: 0 <= i < |lens| ==> lens[i] < 16
  {
  }

  lemma ScanStart(lens: seq<nat>)
    requires |lens| >= 1
    ensures Scanning(lens, 0, -1, 0, [])
  {
    assert [] + RunItems(lens) == RunItems(lens);
  }

  lemma ScanCount(lens: seq<nat>, n: nat, prevlen: int, count: nat, sent: seq<Item>)
    requires Scanning(lens, n, prevlen, count, sent) && n < |lens|
    ensures count < MaxCount(prevlen, lens[n])
  {
  }

  lemma ScanEnd(lens: seq<nat>, prevlen: int, count: nat, sent: seq<Item>)
    requires Scanning(lens, |lens|, prevlen, count, sent)
    ensures sent == RunItems(lens)
  {
    assert sent + [] == sent;
  }

  // ----- Counting -----

  /** Frequencies f are f0 plus the occurrences in `items`. */
  ghost predicate Counted(f0: seq<nat>, f: seq<nat>, items: seq<Item>) {
    |f| == |f0| && |f| >= BL_CODES && forall s :: 0 <= s < BL_CODES ==> f[s] == f0[s] + CountSym(items, s)
  }

  lemma CountedMore(f0: seq<nat>, f1: seq<nat>, f2: seq<nat>, a: seq<Item>, b: seq<Item>)
    requires Counted(f0, f1, a) && Counted(f1, f2, b)
    ensures Counted(f0, f2, a + b)
  {
    forall s | 0 <= s < BL_CODES ensures f2[s] == f0[s] + CountSym(a + b, s) {
      CountSymAppend(a, b, s);
    }
  }

  lemma CountedOne(f: seq<nat>, i: Item)
    requires |f| >= BL_CODES && i.sym < BL_CODES
    ensures Counted(f, f[i.sym := f[i.sym] + 1], [i])
  {
    assert [i][1..] == [];
  }

  lemma CountedPlain(f: seq<nat>, cur: nat, count: nat)
    requires |f| >= BL_CODES && cur < BL_CODES
    ensures Counted(f, f[cur := f[cur] + count], seq(count, _ => Item(cur, 0)))
  {
    forall s | 0 <= s < BL_CODES
      ensures f[cur := f[cur] + count][s] == f[s] + CountSym(seq(count, _ => Item(cur, 0)), s)
    {
      CountSymPlain(cur, count, s);
    }
  }

  /** All frequencies leave room for `room` more in a 16-bit counter. */
  ghost predicate Room(f: seq<nat>, room: nat) {
    |f| >= BL_CODES && forall s :: 0 <= s < BL_CODES ==> f[s] + room < TWO16
  }

  /** Counts one run, as the body of the loop in `scan_tree` does. */
  method ScanRun(blFc: array<nat>, prevlen: int, cur: nat, count: nat, minCount: nat)
    requires cur < 16 && 1 <= count <= MaxCount(prevlen, cur) && minCount == MinCount(prevlen, cur)
    requires Room(blFc[..], count)
    modifies blFc
    ensures Counted(old(blFc[..]), blFc[..], Emit(prevlen, cur, count))
  {
    hide CountSym, Wrap16, Counted;
    ghost var f: seq<nat> := blFc[..];
    assert forall s :: 0 <= s < BL_CODES ==> blFc[s] == f[s];
    if count < minCount {
      CountedPlain(f, cur, count);
      blFc[cur] := Wrap16(blFc[cur] + count);
      assert blFc[..] == f[cur := f[cur] + count];
    } else if cur != 0 {
      ghost var g := f;
      if cur != prevlen {
        CountedOne(f, Item(cur, 0));
        blFc[cur] := Wrap16(blFc[cur] + 1);
        g := f[cur := f[cur] + 1];
        assert blFc[..] == g;
        CountedOne(g, Item(REP_3_6, count - 4));
        CountedMore(f, g, g[REP_3_6 := g[REP_3_6] + 1], [Item(cur, 0)], [Item(REP_3_6, count - 4)]);
        assert [Item(cur, 0)] + [Item(REP_3_6, count - 4)] == Emit(prevlen, cur, count);
      } else {
        CountedOne(f, Item(REP_3_6, count - 3));
      }
      blFc[REP_3_6] := Wrap16(blFc[REP_3_6] + 1);
      assert blFc[..] == g[REP_3_6 := g[REP_3_6] + 1];
    } else if count <= 10 {
      CountedOne(f, Item(REPZ_3_10, count - 3));
      blFc[REPZ_3_10] := Wrap16(blFc[REPZ_3_10] + 1);
      assert blFc[..] == f[REPZ_3_10 := f[REPZ_3_10] + 1];
    } else {
      CountedOne(f, Item(REPZ_11_138, count - 11));
      blFc[REPZ_11_138] := Wrap16(blFc[REPZ_11_138] + 1);
      assert blFc[..] == f[REPZ_11_138 := f[REPZ_11_138] + 1];
    }
  }

  /** Enough room is left for the run about to be counted. */
  lemma RoomLeft(f0: seq<nat>, f: seq<nat>, lens: seq<nat>, n: nat, prevlen: int, count: nat, sent: seq<Item>)
    requires Room(f0, 138 + |lens|) && Counted(f0, f, sent) && Scanning(lens, n, prevlen, count, sent) && n < |lens|
    ensures Room(f, count + 1)
  {
    hide Runs;
    assert |sent| <= |RunItems(lens)|;
  }

  lemma CountedNone(f: seq<nat>)
    requires |f| >= BL_CODES
    ensures Counted(f, f, [])
  {
  }

  method ScanTree(blFc: array<nat>, dl: array<nat>, maxCode: nat, ghost lens: seq<nat>)
    requires blFc != dl && maxCode + 1 < dl.Length && lens == dl[..maxCode + 1]
    requires (forall i :: 0 <= i < |lens| ==> lens[i] < 16) && Room(blFc[..], 138 + |lens|)
    modifies blFc, dl
    ensures Counted(old(blFc[..]), blFc[..], RunItems(lens))
    ensures Guarded(dl[..], lens) && dl[..] == old(dl[..])[maxCode + 1 := GUARD]
  {
    hide Runs, RunItems, Emit, Guarded, Scanning, Counted, Room;
    ghost var f0: seq<nat>, d: seq<nat> := blFc[..], dl[..];
    ghost var sent: seq<Item> := [];
    ScanStart(lens);
    RoomSize(f0, 138 + |lens|);
    CountedNone(f0);
    MakeGuard(d, lens);
    var prevlen: int, count: nat := -1, 0;
    var nextlen := dl[0];
    var maxCount, minCount := 7, 4;
    if nextlen == 0 {
      maxCount, minCount := 138, 3;
    }
    assert nextlen == lens[0];
    dl[maxCode + 1] := GUARD;
    ghost var t: seq<nat> := dl[..];
    assert t == d[maxCode + 1 := GUARD];
    for n := 0 to maxCode + 1
      invariant dl[..] == t
      invariant Scanning(lens, n, prevlen, count, sent) && Counted(f0, blFc[..], sent)
      invariant n < |lens| ==> nextlen == lens[n] && maxCount == MaxCount(prevlen, nextlen) && minCount == MinCount(prevlen, nextlen)
    {
      GuardedNext(t, lens, n);
      ScanCount(lens, n, prevlen, count, sent);
      ScanStep(lens, n, prevlen, count, sent);
      RoomLeft(f0, blFc[..], lens, n, prevlen, count, sent);
      var curlen := nextlen;
      nextlen := dl[n + 1];
      count := count + 1;
      if count < maxCount && curlen == nextlen {
        continue;
      }
      ghost var e, f := Emit(prevlen, curlen, count), blFc[..];
      ScanRun(blFc, prevlen, curlen, count, minCount);
      CountedMore(f0, f, blFc[..], sent, e);
      sent := sent + e;
      count := 0;
      prevlen := curlen;
      maxCount, minCount := 7, 4;
      if nextlen == 0 {
        maxCount, minCount := 138, 3;
      } else if curlen == nextlen {
        maxCount, minCount := 6, 3;
      }
    }
    ScanEnd(lens, prevlen, count, sent);
  }

  lemma RoomSize(f: seq<nat>, room: nat)
    requires Room(f, room)
    ensures |f| >= BL_CODES
  {
  }

  lemma MakeGuard(d: seq<nat>, lens: seq<nat>)
    requires 1 <= |lens| < |d| && lens == d[..|lens|] && forall i :: 0 <= i < |lens| ==> lens[i] < 16
    ensures Guarded(d[|lens| := GUARD], lens)
  {
    assert d[|lens| := GUARD][..|lens|] == lens;
  }

  // ----- The number of code length codes sent -----

  /** Some item is a plain nonzero length. */
  ghost predicate HasPlain(items: seq<Item>) {
    exists k :: 0 <= k < |items| && 1 <= items[k].sym < 16
  }

  lemma PlainAppend(a: seq<Item>, b: seq<Item>)
    requires HasPlain(a) || HasPlain(b)
    ensures HasPlain(a + b)
  {
    if HasPlain(a) {
      var k :| 0 <= k < |a| && 1 <= a[k].sym < 16;
      assert (a + b)[k] == a[k];
    } else {
      var k :| 0 <= k < |b| && 1 <= b[k].sym < 16;
      assert (a + b)[|a| + k] == b[k];
    }
  }

  /** The first nonzero length is sent plainly. */
  lemma {:induction false} NonzeroIsPlain(lens: seq<nat>, n: nat, prevlen: int, count: nat, z: nat)
    requires (forall i :: 0 <= i < |lens| ==> lens[i] < 16) && n <= z < |lens| && lens[z] != 0 && prevlen <= 0
    requires count < MaxCount(prevlen, lens[n])
    ensures HasPlain(Runs(lens, n, prevlen, count))
    decreases |lens| - n
  {
    var cur := lens[n];
    if count + 1 < MaxCount(prevlen, cur) && cur == NextLen(lens, n) {
      NonzeroIsPlain(lens, n + 1, prevlen, count + 1, if n == z then n + 1 else z);
    } else {
      var e := Emit(prevlen, cur, count + 1);
      if cur != 0 {
        assert e[0].sym == cur;
      } else {
        NonzeroIsPlain(lens, n + 1, cur, 0, z);
      }
      PlainAppend(e, Runs(lens, n + 1, cur, 0));
    }
  }

  /** Index of the last code length code to send; it is at least 3, so that at least four are sent. */
  method LastBlIndex(blDl: array<nat>, ghost cl: seq<nat>, ghost s: nat) returns (maxBlindex: nat)
    requires |cl| == BL_CODES <= blDl.Length && blDl[..BL_CODES] == cl && 1 <= s < 16 && cl[s] > 0
    ensures 3 <= maxBlindex < BL_CODES && OrderedLen(cl, maxBlindex) > 0
    ensures forall k :: maxBlindex < k < BL_CODES ==> OrderedLen(cl, k) == 0
  {
    maxBlindex := BL_CODES - 1;
    ghost var r := RankOf(s);
    RankAbove(s);
    assert OrderedLen(cl, r) == cl[s];
    while maxBlindex >= 3
      invariant r <= maxBlindex < BL_CODES
      invariant forall k :: maxBlindex < k < BL_CODES ==> OrderedLen(cl, k) == 0
    {
      var order := BL_ORDER[maxBlindex];
      assert blDl[order] == OrderedLen(cl, maxBlindex) by { assert blDl[order] == blDl[..BL_CODES][order]; }
      if blDl[order] != 0 {
        break;
      }
      maxBlindex := maxBlindex - 1;
    }
  }

  lemma RankAbove(s: nat)
    requires s < 16
    ensures RankOf(s) >= 3
  {
  }

  // ----- send_all_trees -----

  method SendClLens(w: BitWriter, blDl: array<nat>, blcodes: nat, ghost cl: seq<nat>)
    requires w.Valid() && |cl| == BL_CODES <= blDl.Length && blDl[..BL_CODES] == cl && LensWithin(cl, 7) && blcodes <= BL_CODES
    requires w.outbuf as object != blDl
    modifies w, w.outbuf
    ensures w.Valid() && w.Sent() == old(w.Sent()) + ClBits(cl, blcodes, 0)
  {
    hide BitsOf, Pow2, ClBits;
    ghost var start := w.Sent();
    ClNone(cl, 0);
    for rank := 0 to blcodes
      invariant w.Valid() && blDl[..BL_CODES] == cl
      invariant w.Sent() == start + ClBits(cl, rank, 0)
    {
      var order := BL_ORDER[rank];
      assert blDl[order] == OrderedLen(cl, rank) by { assert blDl[order] == blDl[..BL_CODES][order]; }
      ThreeBits(OrderedLen(cl, rank));
      ClSnoc(cl, rank, 0);
      Assoc(start, ClBits(cl, rank, 0), BitsOf(OrderedLen(cl, rank), 3));
      w.SendBits(blDl[order], 3);
    }
  }

  lemma ClNone(cl: seq<nat>, i: nat)
    requires |cl| == BL_CODES && i <= BL_CODES
    ensures ClBits(cl, i, i) == []
  {
  }

  lemma {:induction false} ClSnoc(cl: seq<nat>, count: nat, i: nat)
    requires |cl| == BL_CODES && i <= count < BL_CODES
    ensures ClBits(cl, count + 1, i) == ClBits(cl, count, i) + BitsOf(OrderedLen(cl, count), 3)
    decreases count - i
  {
    hide BitsOf;
    if i < count { ClSnoc(cl, count, i + 1); }
  }

  method SendAllTrees(w: BitWriter, lcodes: nat, dcodes: nat, blcodes: nat, blFc: array<nat>, blDl: array<nat>, lDl: array<nat>, dDl: array<nat>,
                      ghost cl: seq<nat>, ghost l: seq<nat>, ghost d: seq<nat>)
    requires w.Valid() && HeaderOk(l, d, cl, blcodes) && lcodes == |l| && dcodes == |d|
    requires CodesReady(blFc[..], blDl[..], cl) && BL_CODES <= blDl.Length && blDl[..BL_CODES] == cl
    requires Guarded(lDl[..], l) && Guarded(dDl[..], d)
    requires w.outbuf as object != blFc && w.outbuf as object != blDl && w.outbuf as object != lDl && w.outbuf as object != dDl
    modifies w, w.outbuf
    ensures w.Valid() && w.Sent() == old(w.Sent()) + HeaderBits(l, d, cl, blcodes)
  {
    hide BitsOf, Pow2, ClBits, EncodeItems, CodesReady, Complete, Sendable, RunItems, Guarded, HeaderBits;
    ghost var bf: seq<nat>, bd: seq<nat>, lt: seq<nat>, dt: seq<nat> := blFc[..], blDl[..], lDl[..], dDl[..];
    ghost var start := w.Sent();
    SendCounts(w, lcodes, dcodes, blcodes);
    assert blDl[..] == bd;
    assert blDl[..BL_CODES] == bd[..BL_CODES];
    SendClLens(w, blDl, blcodes, cl);
    assert blFc[..] == bf && blDl[..] == bd && lDl[..] == lt && dDl[..] == dt;
    SendableParts(cl, RunItems(l), RunItems(d));
    SendTree(w, blFc, blDl, lDl, lcodes - 1, cl, l);
    assert blFc[..] == bf && blDl[..] == bd && dDl[..] == dt;
    SendTree(w, blFc, blDl, dDl, dcodes - 1, cl, d);
    HeaderJoin(start, l, d, cl, blcodes);
  }

  method SendCounts(w: BitWriter, lcodes: nat, dcodes: nat, blcodes: nat)
    requires w.Valid() && 257 <= lcodes <= 286 && 1 <= dcodes <= 30 && 4 <= blcodes <= BL_CODES
    modifies w, w.outbuf
    ensures w.Valid() && w.Sent() == old(w.Sent()) + BitsOf(lcodes - 257, 5) + BitsOf(dcodes - 1, 5) + BitsOf(blcodes - 4, 4)
  {
    hide BitsOf, Pow2;
    SmallCounts(lcodes - 257, dcodes - 1, blcodes - 4);
    w.SendBits(lcodes - 257, 5);
    w.SendBits(dcodes - 1, 5);
    w.SendBits(blcodes - 4, 4);
  }

  lemma HeaderJoin(start: seq<bool>, l: seq<nat>, d: seq<nat>, cl: seq<nat>, blcodes: nat)
    requires HeaderOk(l, d, cl, blcodes)
    ensures SendableSeq(cl, RunItems(l)) && SendableSeq(cl, RunItems(d))
    ensures start + BitsOf(|l| - 257, 5) + BitsOf(|d| - 1, 5) + BitsOf(blcodes - 4, 4) + ClBits(cl, blcodes, 0)
            + EncodeItems(cl, RunItems(l)) + EncodeItems(cl, RunItems(d))
         == start + HeaderBits(l, d, cl, blcodes)
  {
    hide BitsOf, ClBits, EncodeItems, Complete, Sendable, RunItems;
    SendableParts(cl, RunItems(l), RunItems(d));
    SendableSyms(cl, RunItems(l));
    SendableSyms(cl, RunItems(d));
    EncodeItemsAppend(cl, RunItems(l), RunItems(d));
    Assoc7(start, BitsOf(|l| - 257, 5), BitsOf(|d| - 1, 5), BitsOf(blcodes - 4, 4), ClBits(cl, blcodes, 0),
           EncodeItems(cl, RunItems(l)), EncodeItems(cl, RunItems(d)));
  }

  lemma Assoc7(a: seq<bool>, b: seq<bool>, c: seq<bool>, d: seq<bool>, e: seq<bool>, f: seq<bool>, g: seq<bool>)
    ensures a + b + c + d + e + f + g == a + (b + (c + (d + (e + (f + g)))))
  {
    Assoc(a + b + c + d + e, f, g);
    Assoc(a + b + c + d, e, f + g);
    Assoc(a + b + c, d, e + (f + g));
    Assoc(a + b, c, d + (e + (f + g)));
    Assoc(a, b, c + (d + (e + (f + g))));
  }
}
