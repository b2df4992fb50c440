/** Run-length coding of code lengths (section 3.2.7 of RFC 1951): the item list that
    `scan_tree` counts and `send_tree` emits, and its decoding. */
module RunLengths {
  import opened Bits
  import opened Rfc1951

  const REP_3_6: nat := 16
  const REPZ_3_10: nat := 17
  const REPZ_11_138: nat := 18
  const BL_CODES: nat := 19
  /** Written after the last length so that it differs from every length. */
  const GUARD: nat := 0xffff

  /** `extra_blbits`: the repeat bits that follow each code length symbol. */
  const EXTRA_BLBITS: seq<nat> := [0, 0, 0, 0, 0, 0, 0, 0, 0, 0, 0, 0, 0, 0, 0, 0, 2, 3, 7]

  function BlExtra(sym: nat): nat {
    if sym < |EXTRA_BLBITS| then EXTRA_BLBITS[sym] else 0
  }

  /** The decoder reads as many. */
  lemma BlExtraAgrees(sym: nat)
    requires sym < BL_CODES
    ensures BlExtra(sym) == RepeatBits(sym)
  {
  }

  /** A code length symbol with the value of its repeat bits. */
  datatype Item = Item(sym: nat, extra: nat)

  ghost predicate ValidItem(i: Item) {
    i.sym < BL_CODES && i.extra < Pow2(BlExtra(i.sym))
  }

  /** Longest run of `cur` that one step may take, and the shortest that is worth a repeat. */
  function MaxCount(prevlen: int, cur: nat): nat {
    if cur == 0 then 138 else if cur == prevlen then 6 else 7
  }

  function MinCount(prevlen: int, cur: nat): nat {
    if cur == 0 || cur == prevlen then 3 else 4
  }

  /** Items for a run of `count` lengths `cur` after the length `prevlen`. */
  function Emit(prevlen: int, cur: nat, count: nat): (r: seq<Item>)
    requires 1 <= count <= MaxCount(prevlen, cur)
    ensures 1 <= |r| <= count && (count >= 4 ==> |r| <= 2) && (count >= 3 && (cur == 0 || cur == prevlen) ==> |r| == 1)
  {
    if count < MinCount(prevlen, cur) then seq(count, _ => Item(cur, 0))
    else if cur != 0 then
      if cur != prevlen then [Item(cur, 0), Item(REP_3_6, count - 4)] else [Item(REP_3_6, count - 3)]
    else if count <= 10 then [Item(REPZ_3_10, count - 3)]
    else [Item(REPZ_11_138, count - 11)]
  }

  function NextLen(lens: seq<nat>, n: nat): nat
    requires n < |lens|
  {
    if n + 1 < |lens| then lens[n + 1] else GUARD
  }

  /** The items for lens[n..], when `count` lengths equal to lens[n] wait before position n and
      the length before those was `prevlen`. */
  function Runs(lens: seq<nat>, n: nat, prevlen: int, count: nat): (r: seq<Item>)
    requires n <= |lens| && (n < |lens| ==> count < MaxCount(prevlen, lens[n]))
    ensures |r| <= |lens| - n + count
    decreases |lens| - n
  {
    if n == |lens| then []
    else if count + 1 < MaxCount(prevlen, lens[n]) && lens[n] == NextLen(lens, n) then
      if n + 1 == |lens| then [] else Runs(lens, n + 1, prevlen, count + 1)
    else Emit(prevlen, lens[n], count + 1) + Runs(lens, n + 1, lens[n], 0)
  }

  function RunItems(lens: seq<nat>): (r: seq<Item>)
    ensures |r| <= |lens|
  {
    Runs(lens, 0, -1, 0)
  }

  /** A run of up to 138 zeros, up to six repeats of the length before it, or up to seven other
      lengths is sent at once. */
  lemma {:induction false} RunAtOnce(lens: seq<nat>, n: nat, prevlen: int, count: nat, k: nat)
    requires n + k <= |lens| && 1 <= k && (forall i :: n <= i < n + k ==> lens[i] == lens[n]) && NextLen(lens, n + k - 1) != lens[n]
    requires count + k <= if lens[n] == 0 then 138 else if lens[n] == prevlen then 6 else 7
    ensures Runs(lens, n, prevlen, count) == Emit(prevlen, lens[n], count + k) + Runs(lens, n + k, lens[n], 0)
    decreases k
  {
    hide Emit;
    if k > 1 {
      assert NextLen(lens, n) == lens[n];
      RunAtOnce(lens, n + 1, prevlen, count + 1, k - 1);
    }
  }

  // ----- Decoding -----

  /** What the items append to the lengths decoded so far. */
  function Unrun(items: seq<Item>, acc: seq<nat>): Option<seq<nat>> {
    if items == [] then Some(acc)
    else
      match RunOf(items[0].sym, items[0].extra, acc)
      case None => None
      case Some(run) => Unrun(items[1..], acc + run)
  }

  lemma {:induction false} UnrunAppend(a: seq<Item>, b: seq<Item>, acc: seq<nat>)
    ensures Unrun(a + b, acc) == match Unrun(a, acc) { case None => None case Some(acc') => Unrun(b, acc') }
  {
    if a == [] {
      assert a + b == b;
    } else {
      assert (a + b)[1..] == a[1..] + b;
      match RunOf(a[0].sym, a[0].extra, acc) {
        case None =>
        case Some(run) => UnrunAppend(a[1..], b, acc + run);
      }
    }
  }

  lemma {:induction false} UnrunPlain(cur: nat, count: nat, acc: seq<nat>)
    requires cur < 16
    ensures Unrun(seq(count, _ => Item(cur, 0)), acc) == Some(acc + Repeat(cur, count))
    decreases count
  {
    var items := seq(count, _ => Item(cur, 0));
    if count == 0 {
      assert acc + Repeat(cur, 0) == acc;
    } else {
      assert items[1..] == seq(count - 1, _ => Item(cur, 0));
      UnrunPlain(cur, count - 1, acc + [cur]);
      assert acc + [cur] + Repeat(cur, count - 1) == acc + Repeat(cur, count);
    }
  }

  /** The previous length is the last one decoded, or there is none. */
  ghost predicate LastIs(acc: seq<nat>, prevlen: int) {
    if acc == [] then prevlen == -1 else acc[|acc| - 1] == prevlen
  }

  lemma EmitDecodes(prevlen: int, cur: nat, count: nat, acc: seq<nat>)
    requires cur < 16 && 1 <= count <= MaxCount(prevlen, cur) && LastIs(acc, prevlen)
    ensures Unrun(Emit(prevlen, cur, count), acc) == Some(acc + Repeat(cur, count))
  {
    var items := Emit(prevlen, cur, count);
    if count < MinCount(prevlen, cur) {
      UnrunPlain(cur, count, acc);
    } else if cur != 0 && cur != prevlen {
      assert items[1..] == [Item(REP_3_6, count - 4)];
      assert Unrun(items, acc) == Unrun([Item(REP_3_6, count - 4)], acc + [cur]);
      assert (acc + [cur])[|acc|] == cur;
      assert acc + [cur] + Repeat(cur, count - 1) == acc + Repeat(cur, count);
      UnrunOne(Item(REP_3_6, count - 4), acc + [cur]);
    } else {
      UnrunOne(items[0], acc);
      assert items == [items[0]];
    }
  }

  lemma UnrunOne(i: Item, acc: seq<nat>)
    requires RunOf(i.sym, i.extra, acc).Some?
    ensures Unrun([i], acc) == Some(acc + RunOf(i.sym, i.extra, acc).value)
  {
    assert [i][1..] == [];
  }

  /** State of the scan: `count` lengths before position n equal lens[n] and are not yet emitted. */
  ghost predicate Waiting(lens: seq<nat>, n: nat, prevlen: int, count: nat) {
    && count <= n <= |lens|
    && (forall i :: n - count <= i < n ==> n < |lens| && lens[i] == lens[n])
    && LastIs(lens[..n - count], prevlen)
    && (n < |lens| ==> count < MaxCount(prevlen, lens[n]))
    && (n == |lens| ==> count == 0)
  }

  /** Behind a run nothing waits. */
  lemma RunEnds(lens: seq<nat>, n: nat, prevlen: int, count: nat)
    requires Waiting(lens, n, prevlen, count) && n < |lens|
    ensures Waiting(lens, n + 1, lens[n], 0)
    ensures lens[..n - count] + Repeat(lens[n], count + 1) == lens[..n + 1]
  {
  }

  /** Decoding the items restores the lengths. */
  lemma {:induction false} RunsDecode(lens: seq<nat>, n: nat, prevlen: int, count: nat)
    requires (forall i :: 0 <= i < |lens| ==> lens[i] < 16) && Waiting(lens, n, prevlen, count)
    ensures Unrun(Runs(lens, n, prevlen, count), lens[..n - count]) == Some(lens)
    decreases |lens| - n
  {
    hide RunOf, Emit, MaxCount;
    if n == |lens| {
      assert lens[..n - count] == lens;
    } else {
      var cur, acc := lens[n], lens[..n - count];
      if count + 1 < MaxCount(prevlen, cur) && cur == NextLen(lens, n) {
        RunsDecode(lens, n + 1, prevlen, count + 1);
      } else {
        EmitDecodes(prevlen, cur, count + 1, acc);
        RunEnds(lens, n, prevlen, count);
        RunsDecode(lens, n + 1, cur, 0);
        assert lens[..n + 1 - 0] == lens[..n + 1];
        UnrunAppend(Emit(prevlen, cur, count + 1), Runs(lens, n + 1, cur, 0), acc);
      }
    }
  }

  lemma RunItemsDecode(lens: seq<nat>)
    requires forall i :: 0 <= i < |lens| ==> lens[i] < 16
    ensures Unrun(RunItems(lens), []) == Some(lens)
  {
    RunsDecode(lens, 0, -1, 0);
    assert lens[..0] == [];
  }

  // ----- Two trees in a row -----

  /** The items of a tree do not depend on lengths decoded before: the first one is no repeat. */
  lemma {:induction false} UnrunAfter(items: seq<Item>, pre: seq<nat>, acc: seq<nat>)
    requires Unrun(items, acc).Some? && (acc == [] && items != [] ==> items[0].sym != REP_3_6)
    ensures Unrun(items, pre + acc) == Some(pre + Unrun(items, acc).value)
  {
    if items == [] {
    } else {
      var i := items[0];
      var run := RunOf(i.sym, i.extra, acc);
      assert acc != [] ==> (pre + acc)[|pre + acc| - 1] == acc[|acc| - 1];
      assert RunOf(i.sym, i.extra, pre + acc) == run;
      assert pre + (acc + run.value) == pre + acc + run.value;
      UnrunAfter(items[1..], pre, acc + run.value);
    }
  }

  lemma TwoTreesDecode(l: seq<nat>, d: seq<nat>)
    requires (forall i :: 0 <= i < |l| ==> l[i] < 16) && (forall i :: 0 <= i < |d| ==> d[i] < 16)
    ensures Unrun(RunItems(l) + RunItems(d), []) == Some(l + d)
  {
    RunItemsDecode(l);
    RunItemsDecode(d);
    UnrunAppend(RunItems(l), RunItems(d), []);
    FirstIsNoRepeat(d, 0, 0);
    assert l + [] == l;
    UnrunAfter(RunItems(d), l, []);
  }

  lemma {:induction false} FirstIsNoRepeat(lens: seq<nat>, n: nat, count: nat)
    requires (forall i :: 0 <= i < |lens| ==> lens[i] < 16) && n <= |lens| && (n < |lens| ==> count < MaxCount(-1, lens[n]))
    ensures var r := Runs(lens, n, -1, count); r != [] ==> r[0].sym != REP_3_6
    decreases |lens| - n
  {
    if n < |lens| && count + 1 < MaxCount(-1, lens[n]) && lens[n] == NextLen(lens, n) && n + 1 < |lens| {
      FirstIsNoRepeat(lens, n + 1, count + 1);
    }
  }

  // ----- Validity and counts -----

  lemma EmitValid(prevlen: int, cur: nat, count: nat)
    requires cur < 16 && 1 <= count <= MaxCount(prevlen, cur)
    ensures forall i :: 0 <= i < |Emit(prevlen, cur, count)| ==> ValidItem(Emit(prevlen, cur, count)[i])
  {
    Pow2Values();
  }

  lemma {:induction false} RunsValid(lens: seq<nat>, n: nat, prevlen: int, count: nat)
    requires (forall i :: 0 <= i < |lens| ==> lens[i] < 16) && n <= |lens| && (n < |lens| ==> count < MaxCount(prevlen, lens[n]))
    ensures forall i :: 0 <= i < |Runs(lens, n, prevlen, count)| ==> ValidItem(Runs(lens, n, prevlen, count)[i])
    decreases |lens| - n
  {
    hide ValidItem, Emit;
    if n < |lens| {
      if count + 1 < MaxCount(prevlen, lens[n]) && lens[n] == NextLen(lens, n) {
        if n + 1 < |lens| { RunsValid(lens, n + 1, prevlen, count + 1); }
      } else {
        EmitValid(prevlen, lens[n], count + 1);
        RunsValid(lens, n + 1, lens[n], 0);
      }
    }
  }

  /** How often symbol s occurs. */
  function CountSym(items: seq<Item>, s: nat): (c: nat)
    ensures c <= |items|
  {
    if items == [] then 0
    else (if items[0].sym == s then 1 else 0) + CountSym(items[1..], s)
  }

  lemma {:induction false} CountSymAppend(a: seq<Item>, b: seq<Item>, s: nat)
    ensures CountSym(a + b, s) == CountSym(a, s) + CountSym(b, s)
  {
    if a == [] {
      assert a + b == b;
    } else {
      assert (a + b)[1..] == a[1..] + b;
      CountSymAppend(a[1..], b, s);
    }
  }

  lemma {:induction false} CountSymPlain(cur: nat, count: nat, s: nat)
    ensures CountSym(seq(count, _ => Item(cur, 0)), s) == if s == cur then count else 0
    decreases count
  {
    var items := seq(count, _ => Item(cur, 0));
    if count > 0 {
      assert items[1..] == seq(count - 1, _ => Item(cur, 0));
      CountSymPlain(cur, count - 1, s);
    }
  }
}
